/** From the statements of vpn.conf to its sections. */
module ConfigFile {
  import opened Wrappers
  import opened ConfigLines
  import opened Iptables
  import opened Policy

  // Parsing of addresses and of the settings of the global section is not modelled further.
  datatype Environment = Environment(network: string -> Option<Network>, globalOk: (string, seq<string>) -> bool)

  predicate IsDecimal(s: string) {
    s != "" && forall c | c in s :: '0' <= c <= '9'
  }

  function Decimal(s: string): int {
    if s == "" then 0 else Decimal(s[..|s| - 1]) * 10 + (s[|s| - 1] as int - '0' as int)
  }

  // strconv.ParseUint(s, 10, 16).
  function Port(s: string): Option<nat> {
    if IsDecimal(s) && 0 <= Decimal(s) < 0x1_0000 then Some(Decimal(s)) else None
  }

  function Ports(fields: seq<string>): Option<seq<nat>> {
    if fields == [] then Some([])
    else
      match Ports(fields[..|fields| - 1])
      case None => None
      case Some(ports) =>
        match Port(fields[|fields| - 1])
        case None => None
        case Some(port) => Some(ports + [port])
  }

  function ParseRoute(fields: seq<string>, env: Environment): Option<Route> {
    if fields == [] then None
    else
      match env.network(fields[0])
      case None => None
      case Some(network) =>
        match Ports(fields[1..])
        case None => None
        case Some(ports) => Some(Route(network, ports))
  }

  // A section after one more statement; None if the statement is malformed.
  function Extended(s: Section, stmt: Statement, env: Environment): (r: Option<Section>)
    ensures r.Some? ==> r.value.kind == s.kind && r.value.name == s.name && r.value.order == s.order
  {
    if "subnet-" <= stmt.word || "pcx-" <= stmt.word then
      match Ports(stmt.fields)
      case None => None
      case Some(ports) => Some(s.(subnets := s.subnets + [Subnet(stmt.word, ports)]))
    else if stmt.word == "nat" then
      if stmt.fields == [] then None
      else if stmt.fields[0] == "on" then if |stmt.fields| > 1 then None else Some(s.(nat_ := All))
      else if stmt.fields[0] == "off" then if |stmt.fields| > 1 then None else Some(s.(nat_ := Off))
      else
        match ParseRoute(stmt.fields, env)
        case None => None
        case Some(route) => Some(s.(nat_ := On, natRoutes := s.natRoutes + [route]))
    else if stmt.word == "route" then
      match ParseRoute(stmt.fields, env)
      case None => None
      case Some(route) => Some(s.(routes := s.routes + [route]))
    else if stmt.word == "dns" then
      if |stmt.fields| != 1 then None
      else if stmt.fields[0] == "on" then Some(s.(dns := On))
      else if stmt.fields[0] == "off" then Some(s.(dns := Off))
      else None
    else Some(s)
  }

  // ParseConfig overwrites the error of parseSection with that of the next read, so a malformed
  // statement is passed over.
  function After(s: Section, stmt: Statement, env: Environment): (r: Section)
    ensures r.kind == s.kind && r.name == s.name && r.order == s.order
  {
    match Extended(s, stmt, env)
    case None => s
    case Some(r) => r
  }

  function Fresh(kind: Kind, name: string, order: nat): Section {
    Section(kind, name, order, [], [], [], NotSet, NotSet)
  }

  predicate IsGlobalWord(word: string) {
    word == "watch" || word == "net" || word == "route53" || word == "key-strength"
  }

  predicate IsSectionType(t: string) {
    t == "global" || t == "group" || t == "user"
  }

  predicate Acceptable(stmt: Statement, env: Environment) {
    IsSectionType(stmt.sectionType)
    && (stmt.sectionType == "global" && IsGlobalWord(stmt.word) ==> env.globalOk(stmt.word, stmt.fields))
  }

  // The configuration after one more acceptable statement.
  function Step(c: Config, stmt: Statement, env: Environment): Config {
    if stmt.sectionType == "global" then
      if IsGlobalWord(stmt.word) then c else c.(global := After(c.global, stmt, env))
    else if stmt.sectionType == "group" then
      var s := if stmt.sectionName in c.groups then c.groups[stmt.sectionName]
               else Fresh(GroupSection, stmt.sectionName, |c.groups|);
      c.(groups := c.groups[stmt.sectionName := After(s, stmt, env)])
    else
      var s := if stmt.sectionName in c.users then c.users[stmt.sectionName]
               else Fresh(UserSection, stmt.sectionName, 0);
      c.(users := c.users[stmt.sectionName := After(s, stmt, env)])
  }

  function ConfigOf(stmts: seq<Statement>, env: Environment): Config {
    if stmts == [] then Config(Fresh(GlobalSection, "", 0), map[], map[])
    else Step(ConfigOf(stmts[..|stmts| - 1], env), stmts[|stmts| - 1], env)
  }

  class SectionConfig {
    const kind: Kind
    const name: string
    const order: nat
    var subnets: seq<Subnet>
    var routes: seq<Route>
    var natRoutes: seq<Route>
    var natSetting: Flag
    var dnsSetting: Flag

    constructor (kind: Kind, name: string, order: nat)
      ensures this.kind == kind && this.name == name && View() == Fresh(kind, name, order)
    {
      this.kind, this.name, this.order := kind, name, order;
      subnets, routes, natRoutes, natSetting, dnsSetting := [], [], [], NotSet, NotSet;
    }

    function View(): Section
      reads this
    {
      Section(kind, name, order, subnets, routes, natRoutes, natSetting, dnsSetting)
    }

    // parseSection: a malformed statement is an error and leaves the section as it was.
    method ParseSection(stmt: Statement, env: Environment) returns (ok: bool)
      modifies this
      ensures ok == Extended(old(View()), stmt, env).Some?
      ensures View() == After(old(View()), stmt, env)
      ensures stmt.word == "dns" && stmt.fields == ["on"] ==> View() == old(View()).(dns := On)
      ensures stmt.word == "dns" && stmt.fields == ["off"] ==> View() == old(View()).(dns := Off)
      ensures stmt.word == "nat" && stmt.fields == ["on"] ==> View() == old(View()).(nat_ := All)
      ensures stmt.word == "nat" && stmt.fields == ["off"] ==> View() == old(View()).(nat_ := Off)
    {
      hide Ports, ParseRoute;
      ok := true;
      if "subnet-" <= stmt.word || "pcx-" <= stmt.word {
        var ports := Ports(stmt.fields);
        if ports.None? {
          return false;
        }
        subnets := subnets + [Subnet(stmt.word, ports.value)];
      } else if stmt.word == "nat" {
        if stmt.fields == [] {
          return false;
        }
        if stmt.fields[0] == "on" {
          if |stmt.fields| > 1 {
            return false;
          }
          natSetting := All;
        } else if stmt.fields[0] == "off" {
          if |stmt.fields| > 1 {
            return false;
          }
          natSetting := Off;
        } else {
          var route := ParseRoute(stmt.fields, env);
          if route.None? {
            return false;
          }
          natSetting := On;
          natRoutes := natRoutes + [route.value];
        }
      } else if stmt.word == "route" {
        var route := ParseRoute(stmt.fields, env);
        if route.None? {
          return false;
        }
        routes := routes + [route.value];
      } else if stmt.word == "dns" {
        if |stmt.fields| != 1 {
          return false;
        }
        if stmt.fields[0] == "on" {
          dnsSetting := On;
        } else if stmt.fields[0] == "off" {
          dnsSetting := Off;
        } else {
          return false;
        }
      }
    }
  }

  // The section objects of a table show the given sections.
  ghost predicate Shows(table: map<string, SectionConfig>, sections: map<string, Section>)
    reads table.Values
  {
    table.Keys == sections.Keys && forall name | name in table :: table[name].View() == sections[name]
  }

  ghost predicate Keyed(table: map<string, SectionConfig>, kind: Kind) {
    forall name | name in table :: table[name].kind == kind && table[name].name == name
  }

  lemma ShowsSize(table: map<string, SectionConfig>, sections: map<string, Section>)
    requires Shows(table, sections)
    ensures table.Keys == sections.Keys && |table| == |sections|
  {
    assert |table.Keys| == |table| && |sections.Keys| == |sections|;
  }

  lemma KindsApart(global: SectionConfig, groups: map<string, SectionConfig>, users: map<string, SectionConfig>)
    requires global.kind.GlobalSection? && Keyed(groups, GroupSection) && Keyed(users, UserSection)
    ensures global !in groups.Values && global !in users.Values && groups.Values !! users.Values
  {
  }

  // The section of that name, made if it is new, takes the statement.
  method Amend(
    table: map<string, SectionConfig>, ghost sections: map<string, Section>,
    kind: Kind, name: string, order: nat, stmt: Statement, env: Environment)
    returns (next: map<string, SectionConfig>)
    requires Keyed(table, kind) && Shows(table, sections)
    modifies table.Values
    ensures Keyed(next, kind)
    ensures Shows(next, sections[name :=
      After(if name in sections then sections[name] else Fresh(kind, name, order), stmt, env)])
    ensures forall n | n in next :: (n in table && next[n] == table[n]) || fresh(next[n])
  {
    hide After, Extended, SectionConfig.View;
    var section: SectionConfig;
    if name in table {
      section := table[name];
    } else {
      section := new SectionConfig(kind, name, order);
    }
    next := table[name := section];
    assert forall n | n in table && n != name :: table[n] != section;
    var _ := section.ParseSection(stmt, env);
  }

  class File {
    var global: SectionConfig
    var groups: map<string, SectionConfig>
    var users: map<string, SectionConfig>
    ghost var model: Config  // the configuration the objects hold

    constructor ()
      ensures Valid() && fresh(global) && groups == map[] && users == map[]
      ensures model == Config(Fresh(GlobalSection, "", 0), map[], map[])
    {
      global := new SectionConfig(GlobalSection, "", 0);
      groups, users := map[], map[];
      model := Config(Fresh(GlobalSection, "", 0), map[], map[]);
    }

    // Kind and name tell every section object from every other.
    ghost predicate Separate()
      reads this
    {
      && global.kind.GlobalSection?
      && Keyed(groups, GroupSection)
      && Keyed(users, UserSection)
    }

    ghost predicate Valid()
      reads this, global, groups.Values, users.Values
    {
      Separate() && global.View() == model.global && Shows(groups, model.groups) && Shows(users, model.users)
    }

    method AcceptGlobal(stmt: Statement, env: Environment)
      requires Valid() && stmt.sectionType == "global" && !IsGlobalWord(stmt.word)
      modifies this`model, global
      ensures Valid() && model == Step(old(model), stmt, env)
    {
      hide After, Extended, SectionConfig.View;
      var _ := global.ParseSection(stmt, env);
      model := Step(model, stmt, env);
    }

    method AcceptGroup(stmt: Statement, env: Environment)
      requires Valid() && stmt.sectionType == "group"
      modifies this`model, this`groups, groups.Values
      ensures Valid() && model == Step(old(model), stmt, env)
      ensures forall g | g in groups :: (g in old(groups) && groups[g] == old(groups)[g]) || fresh(groups[g])
    {
      hide After, SectionConfig.View, Shows, Keyed;
      ShowsSize(groups, model.groups);
      KindsApart(global, groups, users);
      groups := Amend(groups, model.groups, GroupSection, stmt.sectionName, |groups|, stmt, env);
      model := Step(model, stmt, env);
    }

    method AcceptUser(stmt: Statement, env: Environment)
      requires Valid() && stmt.sectionType == "user"
      modifies this`model, this`users, users.Values
      ensures Valid() && model == Step(old(model), stmt, env)
      ensures forall u | u in users :: (u in old(users) && users[u] == old(users)[u]) || fresh(users[u])
    {
      hide After, SectionConfig.View, Shows, Keyed;
      ShowsSize(users, model.users);
      KindsApart(global, groups, users);
      users := Amend(users, model.users, UserSection, stmt.sectionName, 0, stmt, env);
      model := Step(model, stmt, env);
    }

    // One round of the loop of ParseConfig; false ends it with an error.
    method Accept(stmt: Statement, env: Environment) returns (ok: bool)
      requires Valid()
      modifies this, global, groups.Values, users.Values
      ensures ok == Acceptable(stmt, env)
      ensures ok ==> Valid() && model == Step(old(model), stmt, env)
      ensures global == old(global)
      ensures forall g | g in groups :: (g in old(groups) && groups[g] == old(groups)[g]) || fresh(groups[g])
      ensures forall u | u in users :: (u in old(users) && users[u] == old(users)[u]) || fresh(users[u])
    {
      hide Valid, After, Extended;
      ok := true;
      if stmt.sectionType == "global" {
        if IsGlobalWord(stmt.word) {
          ok := env.globalOk(stmt.word, stmt.fields);
        } else {
          AcceptGlobal(stmt, env);
        }
      } else if stmt.sectionType == "group" {
        AcceptGroup(stmt, env);
      } else if stmt.sectionType == "user" {
        AcceptUser(stmt, env);
      } else {
        ok := false;
      }
    }
  }

  // What a file says, unless a line cannot be read or a statement is not acceptable.
  ghost function Parsed(text: string, env: Environment): Option<Config> {
    var (stmts, ok) := Statements(Start(text));
    if ok && forall s | s in stmts :: Acceptable(s, env) then Some(ConfigOf(stmts, env)) else None
  }

  /**
   ParseConfig. It succeeds exactly if every line can be read and every statement is acceptable, and
   then yields the configuration of the statements.
   */
  method ParseConfig(text: string, env: Environment) returns (r: Result<File, string>)
    ensures r.Success? <==> Parsed(text, env).Some?
    ensures r.Success? ==> fresh(r.value) && r.value.Valid() && r.value.model == Parsed(text, env).value
  {
    hide Next, Statements, Step, ConfigOf, Acceptable, File.Valid, Parser.State;
    var parser := new Parser(text);
    var file := new File();
    ghost var read: seq<Statement> := [];
    ghost var (stmts, ok) := Statements(parser.State());
    NoStatements(env);
    while true
      invariant fresh(parser) && fresh(file) && file.Valid() && fresh(file.global)
      invariant forall g | g in file.groups :: fresh(file.groups[g])
      invariant forall u | u in file.users :: fresh(file.users[u])
      invariant stmts == read + Statements(parser.State()).0 && ok == Statements(parser.State()).1
      invariant file.model == ConfigOf(read, env) && forall s | s in read :: Acceptable(s, env)
      decreases |parser.State().rest|
    {
      ghost var before := parser.State();
      StatementsStep(before);
      assert read + [] == read;
      var result := parser.ReadStatement();
      match result
      case Eof => return Success(file);
      case BadLine(line) => return Failure("illegal line");
      case Read(stmt) =>
        NextShorter(before);
        assert stmt in stmts;
        ConfigStep(read, stmt, env);
        read := read + [stmt];
        var accepted := file.Accept(stmt, env);
        if !accepted {
          return Failure("illegal statement");
        }
    }
  }

  lemma NoStatements(env: Environment)
    ensures ConfigOf([], env) == Config(Fresh(GlobalSection, "", 0), map[], map[])
  {
  }

  lemma ConfigStep(read: seq<Statement>, stmt: Statement, env: Environment)
    ensures ConfigOf(read + [stmt], env) == Step(ConfigOf(read, env), stmt, env)
  {
    assert (read + [stmt])[..|read|] == read;
  }

  // The orders of the n groups are distinct numbers below n.
  ghost predicate DenselyOrdered(groups: map<string, Section>) {
    && (forall g | g in groups :: groups[g].order < |groups|)
    && forall g, h | g in groups && h in groups && g != h :: groups[g].order != groups[h].order
  }

  lemma DenseNext(groups: map<string, Section>, name: string, s: Section)
    requires DenselyOrdered(groups)
    requires s.order == if name in groups then groups[name].order else |groups|
    ensures DenselyOrdered(groups[name := s])
  {
    assert |groups[name := s]| == if name in groups then |groups| else |groups| + 1 by {
      var next := groups[name := s];
      assert |next| == |next.Keys| && |groups| == |groups.Keys| && next.Keys == groups.Keys + {name};
    }
  }

  /** Groups get distinct, dense order numbers, across sections that are opened again; GetUserConfig can rely on it. */
  lemma {:induction false} GroupsOrdered(stmts: seq<Statement>, env: Environment)
    requires forall s | s in stmts :: Acceptable(s, env)
    ensures Ordered(ConfigOf(stmts, env)) && DenselyOrdered(ConfigOf(stmts, env).groups)
  {
    hide Step;
    if stmts != [] {
      var n := |stmts| - 1;
      GroupsOrdered(stmts[..n], env);
      StepOrdered(ConfigOf(stmts[..n], env), stmts[n], env);
    }
  }

  lemma StepOrdered(c: Config, stmt: Statement, env: Environment)
    requires Ordered(c) && DenselyOrdered(c.groups) && Acceptable(stmt, env)
    ensures Ordered(Step(c, stmt, env)) && DenselyOrdered(Step(c, stmt, env).groups)
  {
    hide After, DenselyOrdered;
    if stmt.sectionType == "group" {
      var s := if stmt.sectionName in c.groups then c.groups[stmt.sectionName]
               else Fresh(GroupSection, stmt.sectionName, |c.groups|);
      DenseNext(c.groups, stmt.sectionName, After(s, stmt, env));
      DenseDistinct(Step(c, stmt, env).groups);
    }
  }

  lemma DenseDistinct(groups: map<string, Section>)
    requires DenselyOrdered(groups)
    ensures forall g, h | g in groups && h in groups && g != h :: groups[g].order != groups[h].order
  {
  }

  // The statements of one section, wherever it was opened again.
  function Belonging(stmts: seq<Statement>, sectionType: string, name: string): seq<Statement> {
    if stmts == [] then []
    else
      var last := stmts[|stmts| - 1];
      Belonging(stmts[..|stmts| - 1], sectionType, name)
      + if last.sectionType == sectionType && last.sectionName == name
           && !(sectionType == "global" && IsGlobalWord(last.word)) then [last] else []
  }

  function Folded(s: Section, stmts: seq<Statement>, env: Environment): (r: Section)
    ensures r.kind == s.kind && r.name == s.name && r.order == s.order
  {
    if stmts == [] then s else After(Folded(s, stmts[..|stmts| - 1], env), stmts[|stmts| - 1], env)
  }

  lemma FoldedNext(s: Section, stmts: seq<Statement>, stmt: Statement, env: Environment)
    ensures Folded(s, stmts + [stmt], env) == After(Folded(s, stmts, env), stmt, env)
  {
    assert (stmts + [stmt])[..|stmts|] == stmts;
  }

  // A group is in the configuration as the fold of its statements.
  ghost predicate IsFoldOf(groups: map<string, Section>, name: string, belonging: seq<Statement>, env: Environment) {
    if name in groups
    then belonging != [] && groups[name] == Folded(Fresh(GroupSection, name, groups[name].order), belonging, env)
    else belonging == []
  }

  lemma FoldStep(c: Config, stmt: Statement, name: string, belonging: seq<Statement>, env: Environment)
    requires IsFoldOf(c.groups, name, belonging, env) && Acceptable(stmt, env)
    ensures IsFoldOf(Step(c, stmt, env).groups, name,
      belonging + (if stmt.sectionType == "group" && stmt.sectionName == name then [stmt] else []), env)
  {
    hide After, Folded;
    if stmt.sectionType == "group" && stmt.sectionName == name {
      var order := if name in c.groups then c.groups[name].order else |c.groups|;
      FoldedNext(Fresh(GroupSection, name, order), belonging, stmt, env);
      FoldedNothing(Fresh(GroupSection, name, order), env);
    } else {
      assert belonging + [] == belonging;
    }
  }

  /**
   A group that is opened several times is one section with all its statements in order, and exactly
   the groups that are opened are there.
   */
  lemma {:induction false} GroupIsItsStatements(stmts: seq<Statement>, env: Environment, name: string)
    requires forall s | s in stmts :: Acceptable(s, env)
    ensures IsFoldOf(ConfigOf(stmts, env).groups, name, Belonging(stmts, "group", name), env)
  {
    hide Step, IsFoldOf, Acceptable;
    if stmts == [] {
      assert IsFoldOf(map[], name, [], env) by { NoFold(name, env); }
    } else {
      var n := |stmts| - 1;
      GroupIsItsStatements(stmts[..n], env, name);
      FoldStep(ConfigOf(stmts[..n], env), stmts[n], name, Belonging(stmts[..n], "group", name), env);
    }
  }

  lemma NoFold(name: string, env: Environment)
    ensures IsFoldOf(map[], name, [], env)
  {
  }

  lemma FoldedNothing(s: Section, env: Environment)
    ensures Folded(s, [], env) == s
  {
  }

  lemma {:induction false} AlikeConfig(a: seq<Statement>, b: seq<Statement>, env: Environment)
    requires Alike(a, b)
    ensures (forall s | s in a :: Acceptable(s, env)) <==> forall s | s in b :: Acceptable(s, env)
    ensures ConfigOf(a, env) == ConfigOf(b, env)
  {
    hide Extended, Acceptable, Step, After;
    if a != [] {
      var n := |a| - 1;
      AlikeConfig(a[..n], b[..n], env);
      assert a == a[..n] + [a[n]] && b == b[..n] + [b[n]];
      AlikeStep(ConfigOf(a[..n], env), a[n], b[n], env);
      assert forall s :: s in a <==> s in a[..n] || s == a[n];
      assert forall s :: s in b <==> s in b[..n] || s == b[n];
    }
  }

  lemma AlikeStep(c: Config, a: Statement, b: Statement, env: Environment)
    requires a == b.(line := a.line)
    ensures Acceptable(a, env) == Acceptable(b, env) && Step(c, a, env) == Step(c, b, env)
    ensures forall s :: Extended(s, a, env) == Extended(s, b, env)
  {
    hide Extended, Fresh;
    forall s
      ensures Extended(s, a, env) == Extended(s, b, env)
    {
      AlikeExtended(s, a, b, env);
    }
  }

  lemma AlikeExtended(s: Section, a: Statement, b: Statement, env: Environment)
    requires a == b.(line := a.line)
    ensures Extended(s, a, env) == Extended(s, b, env)
  {
    hide Ports, ParseRoute;
  }

  // The section a statement belongs to, if it has been opened.
  function SectionIn(c: Config, sectionType: string, name: string): Option<Section> {
    if sectionType == "global" then Some(c.global)
    else if sectionType == "group" then if name in c.groups then Some(c.groups[name]) else None
    else if name in c.users then Some(c.users[name])
    else None
  }

  lemma SectionOpen(stmts: seq<Statement>, env: Environment)
    requires stmts != []
    ensures var last := stmts[|stmts| - 1];
      SectionIn(ConfigOf(stmts, env), last.sectionType, last.sectionName).Some?
  {
    hide After;
  }

  /** A statement in an open section has no effect exactly if it is malformed or repeats what the section says. */
  lemma UnchangedIff(c: Config, stmt: Statement, env: Environment)
    requires SectionIn(c, stmt.sectionType, stmt.sectionName).Some?
    requires !(stmt.sectionType == "global" && IsGlobalWord(stmt.word))
    ensures var s := SectionIn(c, stmt.sectionType, stmt.sectionName).value;
      Step(c, stmt, env) == c <==> Extended(s, stmt, env) in {None, Some(s)}
  {
    hide Extended;
    var name := stmt.sectionName;
    var next := After(SectionIn(c, stmt.sectionType, name).value, stmt, env);
    if stmt.sectionType == "group" {
      assert c.groups[name := next][name] == next && c.groups[name := c.groups[name]] == c.groups;
    } else if stmt.sectionType != "global" {
      assert c.users[name := next][name] == next && c.users[name := c.users[name]] == c.users;
    }
  }

  lemma {:induction false} ConfigWithout(a: seq<Statement>, stmt: Statement, b: seq<Statement>, env: Environment)
    requires Step(ConfigOf(a, env), stmt, env) == ConfigOf(a, env)
    ensures ConfigOf(a + [stmt] + b, env) == ConfigOf(a + b, env)
  {
    hide Step, ConfigOf;
    if b == [] {
      ConfigStep(a, stmt, env);
      assert a + [stmt] + b == a + [stmt] && a + b == a;
    } else {
      var most, last := b[..|b| - 1], b[|b| - 1];
      ConfigWithout(a, stmt, most, env);
      ConfigStep(a + [stmt] + most, last, env);
      ConfigStep(a + most, last, env);
      assert a + [stmt] + b == a + [stmt] + most + [last] && a + b == a + most + [last];
    }
  }

  // A statement parseSection rejects, in whatever section.
  predicate Malformed(word: string, args: seq<string>, env: Environment) {
    Extended(Fresh(GlobalSection, "", 0), Statement("", "", word, args, 0), env).None?
  }

  lemma MalformedAnywhere(s: Section, stmt: Statement, env: Environment)
    ensures Extended(s, stmt, env).None? <==> Malformed(stmt.word, stmt.fields, env)
  {
    hide Ports, ParseRoute;
  }

  /**
   A malformed statement goes unnoticed: with such a line anywhere in an open section the file says what it
   says without it, be that a configuration or an error.
   */
  lemma MalformedLineIgnored(
    before: string, line: string, after: string, word: string, args: seq<string>, env: Environment)
    requires Complete(before) && SaysInSection(line, word, args) && Malformed(word, args, env)
    requires EndState(Start(before)).sectionType != ""
    requires EndState(Start(before)).sectionType == "global" ==> !IsGlobalWord(word)
    ensures Parsed(before + line + "\n" + after, env) == Parsed(before + after, env)
  {
    hide Statements, EndState, Step, ConfigOf, Extended, Acceptable, Malformed, SectionIn;
    var st := Start(before);
    if Statements(st).1 {
      LastSectionType(before);
      var a, stmt, b, ok := LineInserted(before, line, after, word, args);
      AlikeConfig(Statements(Start(before + line + "\n" + after)).0, a + [stmt] + b, env);
      SectionOpen(a, env);
      UnchangedIff(ConfigOf(a, env), stmt, env);
      MalformedAnywhere(SectionIn(ConfigOf(a, env), stmt.sectionType, stmt.sectionName).value, stmt, env);
      ConfigWithout(a, stmt, b, env);
      AcceptableWith(a, stmt, b, env);
    } else {
      StatementsExtend(st, after);
      StatementsExtend(st, line + "\n" + after);
      assert before + (line + "\n" + after) == before + line + "\n" + after;
    }
  }

  // A statement like the last one is acceptable if that one is.
  lemma AcceptableWith(a: seq<Statement>, stmt: Statement, b: seq<Statement>, env: Environment)
    requires a != [] && stmt.sectionType == a[|a| - 1].sectionType
    requires !(stmt.sectionType == "global" && IsGlobalWord(stmt.word))
    ensures (forall s | s in a + [stmt] + b :: Acceptable(s, env)) <==> forall s | s in a + b :: Acceptable(s, env)
  {
    assert a[|a| - 1] in a + b;
    assert forall s :: s in a + [stmt] + b <==> s in a + b || s == stmt;
    assert Acceptable(a[|a| - 1], env) ==> Acceptable(stmt, env);
  }

  /**
   At the end of a file that is read, a line of a section changes nothing exactly if it is malformed or
   repeats what the section says.
   */
  lemma LastLineIgnoredIff(before: string, line: string, word: string, args: seq<string>, env: Environment)
    requires Complete(before) && SaysInSection(line, word, args) && Parsed(before, env).Some?
    requires EndState(Start(before)).sectionType != ""
    requires EndState(Start(before)).sectionType == "global" ==> !IsGlobalWord(word)
    ensures var end := EndState(Start(before));
      var section := SectionIn(Parsed(before, env).value, end.sectionType, end.sectionName);
      var stmt := Statement(end.sectionType, end.sectionName, word, args, 0);
      && section.Some?
      && (Parsed(before + line + "\n", env) == Parsed(before, env) <==>
            Malformed(word, args, env) || Extended(section.value, stmt, env) == Some(section.value))
  {
    hide Statements, EndState, Step, ConfigOf, Extended, Acceptable, Malformed, SectionIn;
    var end := EndState(Start(before));
    var a, stmt, b, ok := LineInserted(before, line, "", word, args);
    LastSection(Start(before));
    assert before + "" == before && before + line + "\n" + "" == before + line + "\n";
    assert a + b == a ==> b == [];
    assert a + [stmt] + [] == a + [stmt];
    AlikeConfig(Statements(Start(before + line + "\n")).0, a + [stmt], env);
    SectionOpen(a, env);
    var section := SectionIn(ConfigOf(a, env), stmt.sectionType, stmt.sectionName).value;
    UnchangedIff(ConfigOf(a, env), stmt, env);
    MalformedAnywhere(section, stmt, env);
    AlikeStep(ConfigOf(a, env), Statement(end.sectionType, end.sectionName, word, args, 0), stmt, env);
    ConfigStep(a, stmt, env);
    AcceptableWith(a, stmt, [], env);
    assert a + [] == a;
  }

  /** The shortest such file: the administrator is not told that `maybe` is no setting. */
  lemma LostError(env: Environment)
    ensures Parsed("group a\n", env).Some? && Parsed("group a\n dns maybe\n", env) == Parsed("group a\n", env)
  {
    hide Statements, ConfigOf, EndState, Fields, UpTo;
    var line := " dns maybe";
    SplitInTwo(" ", "dns", "maybe");
    UpToAll(line, '#');
    assert line == " " + "dns" + " " + "maybe" && SaysInSection(line, "dns", ["maybe"]);
    OneGroup();
    assert "group a\n" + "" == "group a\n" && "group a\n" + line + "\n" + "" == "group a\n dns maybe\n";
    MalformedLineIgnored("group a\n", line, "", "dns", ["maybe"], env);
  }
}
