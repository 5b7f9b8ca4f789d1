/**
 What the lines of vpn.conf mean: the text of a configuration, line by line, against the sections it is read as.
 */
module ConfigText {
  import opened Wrappers
  import opened ConfigLines
  import opened ConfigFile
  import opened Policy

  // --- Ports.

  function Printed(n: nat): string {
    if n < 10 then [('0' as int + n) as char] else Printed(n / 10) + [('0' as int + n % 10) as char]
  }

  function Zeros(count: nat): string {
    seq(count, _ => '0')
  }

  lemma {:induction false} PrintedDecimal(n: nat)
    ensures IsDecimal(Printed(n)) && Decimal(Printed(n)) == n
  {
    var last := Printed(n)[|Printed(n)| - 1];
    if n >= 10 {
      PrintedDecimal(n / 10);
      assert Printed(n)[..|Printed(n)| - 1] == Printed(n / 10);
    } else {
      assert Printed(n)[..0] == "";
    }
  }

  lemma {:induction false} ZerosAhead(zeros: nat, s: string)
    requires IsDecimal(s)
    ensures IsDecimal(Zeros(zeros) + s) && Decimal(Zeros(zeros) + s) == Decimal(s)
    decreases zeros, |s|
  {
    var all := Zeros(zeros) + s;
    var most := s[..|s| - 1];
    assert all[..|all| - 1] == Zeros(zeros) + most;
    assert forall c | c in most :: c in s;
    if most != "" {
      ZerosAhead(zeros, most);
    } else {
      ZerosOnly(zeros);
      assert Zeros(zeros) + most == Zeros(zeros);
    }
  }

  lemma {:induction false} ZerosOnly(zeros: nat)
    ensures Decimal(Zeros(zeros)) == 0
  {
    if zeros > 0 {
      ZerosOnly(zeros - 1);
      assert Zeros(zeros)[..zeros - 1] == Zeros(zeros - 1);
    }
  }

  lemma {:induction false} DecimalPrinted(s: string) returns (zeros: nat)
    requires IsDecimal(s)
    ensures Decimal(s) >= 0 && s == Zeros(zeros) + Printed(Decimal(s))
  {
    hide Printed, Decimal;
    var most, last := s[..|s| - 1], s[|s| - 1];
    assert s == most + [last] && last in s && forall c | c in most :: c in s;
    DecimalNext(most, last);
    if most == "" {
      PrintedNext(0, last);
      zeros := 0;
    } else {
      zeros := DecimalPrinted(most);
      var n := Decimal(most);
      PrintedNext(n, last);
      if n == 0 {
        assert Zeros(zeros) + "0" == Zeros(zeros + 1);
        zeros := zeros + 1;
      } else {
        assert Zeros(zeros) + (Printed(n) + [last]) == Zeros(zeros) + Printed(n) + [last];
      }
    }
  }

  lemma DecimalNext(s: string, digit: char)
    ensures Decimal("") == 0 && Decimal(s + [digit]) == Decimal(s) * 10 + (digit as int - '0' as int)
  {
    assert (s + [digit])[..|s|] == s;
  }

  lemma PrintedNext(n: nat, digit: char)
    requires '0' <= digit <= '9'
    ensures var d := digit as int - '0' as int;
      Printed(0) == "0" && Printed(n * 10 + d) == if n == 0 then [digit] else Printed(n) + [digit]
  {
    var d := digit as int - '0' as int;
    assert (n * 10 + d) / 10 == n && (n * 10 + d) % 10 == d;
  }

  /** A port is read from exactly its decimal text, with any zeros in front, and from nothing if it has over 16 bits. */
  lemma PortReads(s: string, n: nat)
    ensures Port(s) == Some(n) <==> n < 0x1_0000 && exists zeros: nat :: s == Zeros(zeros) + Printed(n)
  {
    hide Printed, Decimal;
    if Port(s) == Some(n) {
      var zeros := DecimalPrinted(s);
    }
    if zeros: nat :| s == Zeros(zeros) + Printed(n) {
      PrintedDecimal(n);
      ZerosAhead(zeros, Printed(n));
    }
  }

  // These words are these ports, one by one.
  ghost predicate ArePorts(fields: seq<string>, ports: seq<nat>) {
    |fields| == |ports| && forall i | 0 <= i < |fields| :: IsPort(fields[i], ports[i])
  }

  ghost predicate IsPort(s: string, n: nat) {
    n < 0x1_0000 && exists zeros: nat :: s == Zeros(zeros) + Printed(n)
  }

  lemma {:induction false} PortsRead(fields: seq<string>, ports: seq<nat>)
    ensures Ports(fields) == Some(ports) <==> ArePorts(fields, ports)
  {
    hide Port, IsPort;
    if fields == [] {
    } else {
      var n := |fields| - 1;
      if ports != [] {
        PortsRead(fields[..n], ports[..|ports| - 1]);
        IsPortMeans(fields[n], ports[|ports| - 1]);
        assert ports == ports[..|ports| - 1] + [ports[|ports| - 1]];
      }
      if Ports(fields) == Some(ports) {
        assert ArePorts(fields, ports);
      }
      if ArePorts(fields, ports) {
        assert ArePorts(fields[..n], ports[..n]);
      }
    }
  }

  lemma IsPortMeans(s: string, n: nat)
    ensures Port(s) == Some(n) <==> IsPort(s, n)
  {
    PortReads(s, n);
  }

  // --- A line of an open section.

  // The text is read to its end without an error, and its last section is open.
  ghost predicate Open(text: string, env: Environment) {
    Complete(text) && Parsed(text, env).Some? && EndState(Start(text)).sectionType != ""
  }

  // The section that is open.
  ghost function Opened(text: string, env: Environment): Section
    requires Open(text, env)
  {
    var end := EndState(Start(text));
    var c := Parsed(text, env).value;
    OpenedThere(text, env);
    SectionIn(c, end.sectionType, end.sectionName).value
  }

  lemma OpenedThere(text: string, env: Environment)
    requires Open(text, env)
    ensures var end := EndState(Start(text));
      && IsSectionType(end.sectionType)
      && SectionIn(Parsed(text, env).value, end.sectionType, end.sectionName).Some?
  {
    hide Statements, EndState, ConfigOf;
    var stmts := Statements(Start(text)).0;
    if stmts == [] {
      NothingMore(Start(text));
    } else {
      LastSection(Start(text));
      SectionOpen(stmts, env);
      assert stmts[|stmts| - 1] in stmts;
    }
  }

  // The same configuration but for one section.
  function Put(c: Config, sectionType: string, name: string, s: Section): Config {
    if sectionType == "global" then c.(global := s)
    else if sectionType == "group" then c.(groups := c.groups[name := s])
    else c.(users := c.users[name := s])
  }

  // With the longer text the open section is this one; it is still open, and nothing else has changed.
  ghost predicate Becomes(text: string, longer: string, env: Environment, s: Section)
    requires Open(text, env)
  {
    var end := EndState(Start(text));
    && Open(longer, env)
    && Parsed(longer, env) == Some(Put(Parsed(text, env).value, end.sectionType, end.sectionName, s))
    && EndState(Start(longer)).sectionType == end.sectionType && EndState(Start(longer)).sectionName == end.sectionName
  }

  // A line that is not a setting of the whole server.
  ghost predicate Line(text: string, env: Environment, line: string, word: string, args: seq<string>) {
    && Open(text, env) && SaysInSection(line, word, args)
    && (EndState(Start(text)).sectionType == "global" ==> !IsGlobalWord(word))
  }

  lemma LineTaken(text: string, line: string, word: string, args: seq<string>, env: Environment)
    requires Line(text, env, line, word, args)
    ensures var end := EndState(Start(text));
      Becomes(text, text + line + "\n", env,
        After(Opened(text, env), Statement(end.sectionType, end.sectionName, word, args, 0), env))
  {
    hide Statements, EndState, Step, ConfigOf, Extended, Acceptable, After;
    var end := EndState(Start(text));
    var longer := text + line + "\n";
    OpenedThere(text, env);
    var a, stmt, b, ok := LineInserted(text, line, "", word, args);
    LastSection(Start(text));
    assert text + "" == text && text + line + "\n" + "" == longer;
    assert a + b == a ==> b == [];
    assert a + [stmt] + [] == a + [stmt];
    var stmts := Statements(Start(longer)).0;
    AlikeConfig(stmts, a + [stmt], env);
    ConfigStep(a, stmt, env);
    AcceptableWith(a, stmt, [], env);
    assert a + [] == a;
    LastSection(Start(longer));
    var plain := Statement(end.sectionType, end.sectionName, word, args, 0);
    SamePlain(Opened(text, env), stmt, plain, env);
    StepPuts(Parsed(text, env).value, stmt, env);
  }

  lemma SamePlain(s: Section, a: Statement, b: Statement, env: Environment)
    requires a == b.(line := a.line)
    ensures After(s, a, env) == After(s, b, env)
  {
    hide Extended;
    AlikeExtended(s, a, b, env);
  }

  lemma StepPuts(c: Config, stmt: Statement, env: Environment)
    requires IsSectionType(stmt.sectionType) && !(stmt.sectionType == "global" && IsGlobalWord(stmt.word))
    requires SectionIn(c, stmt.sectionType, stmt.sectionName).Some?
    ensures var s := SectionIn(c, stmt.sectionType, stmt.sectionName).value;
      Step(c, stmt, env) == Put(c, stmt.sectionType, stmt.sectionName, After(s, stmt, env))
  {
    hide After;
  }

  /** `dns on` and `dns off` set the DNS setting of the open section; with any other words the line says nothing. */
  lemma DnsLine(text: string, line: string, args: seq<string>, env: Environment)
    requires Line(text, env, line, "dns", args)
    ensures var s, longer := Opened(text, env), text + line + "\n";
      && (args == ["on"] ==> Becomes(text, longer, env, s.(dns := On)))
      && (args == ["off"] ==> Becomes(text, longer, env, s.(dns := Off)))
      && (args != ["on"] && args != ["off"] ==> Becomes(text, longer, env, s))
  {
    hide Open, Opened, Becomes;
    LineTaken(text, line, "dns", args, env);
  }

  /** `nat on` and `nat off` set the NAT setting; with a network it adds the route, and its ports, to the NAT routes. */
  lemma NatLine(text: string, line: string, args: seq<string>, env: Environment)
    requires Line(text, env, line, "nat", args)
    ensures var s, longer := Opened(text, env), text + line + "\n";
      && (args == ["on"] ==> Becomes(text, longer, env, s.(nat_ := All)))
      && (args == ["off"] ==> Becomes(text, longer, env, s.(nat_ := Off)))
      && (forall ports | args != [] && args[0] != "on" && args[0] != "off" && env.network(args[0]).Some?
                         && ArePorts(args[1..], ports) ::
            Becomes(text, longer, env,
              s.(nat_ := On, natRoutes := s.natRoutes + [Route(env.network(args[0]).value, ports)])))
      && (args == [] || (|args| > 1 && args[0] in {"on", "off"}) ==> Becomes(text, longer, env, s))
      && (args != [] && args[0] !in {"on", "off"}
          && (env.network(args[0]).None? || forall ports :: !ArePorts(args[1..], ports)) ==>
            Becomes(text, longer, env, s))
  {
    hide Open, Opened, Becomes, ArePorts, Ports;
    LineTaken(text, line, "nat", args, env);
    if args != [] {
      RouteRead(args, env);
    }
  }

  lemma RouteRead(args: seq<string>, env: Environment)
    requires args != []
    ensures forall ports | env.network(args[0]).Some? && ArePorts(args[1..], ports) ::
      ParseRoute(args, env) == Some(Route(env.network(args[0]).value, ports))
    ensures env.network(args[0]).None? || (forall ports :: !ArePorts(args[1..], ports)) ==> ParseRoute(args, env).None?
  {
    hide ArePorts, Ports;
    forall ports
      ensures Ports(args[1..]) == Some(ports) <==> ArePorts(args[1..], ports)
    {
      PortsRead(args[1..], ports);
    }
  }

  /** `route` with a network adds the route with its ports; without a network or with a bad port it says nothing. */
  lemma RouteLine(text: string, line: string, args: seq<string>, env: Environment)
    requires Line(text, env, line, "route", args)
    ensures var s, longer := Opened(text, env), text + line + "\n";
      && (forall ports | args != [] && env.network(args[0]).Some? && ArePorts(args[1..], ports) ::
            Becomes(text, longer, env, s.(routes := s.routes + [Route(env.network(args[0]).value, ports)])))
      && (args == [] || env.network(args[0]).None? || (forall ports :: !ArePorts(args[1..], ports)) ==>
            Becomes(text, longer, env, s))
  {
    hide Open, Opened, Becomes, ArePorts, Ports, ParseRoute;
    assert "route"[0] != "pcx-"[0];
    LineTaken(text, line, "route", args, env);
    if args == [] {
      NoRoute(env);
    } else {
      RouteRead(args, env);
    }
  }

  lemma NoRoute(env: Environment)
    ensures ParseRoute([], env).None?
  {
  }

  /** A word that starts with `subnet-` or `pcx-` adds the subnet of this name with its ports. */
  lemma SubnetLine(text: string, line: string, word: string, args: seq<string>, env: Environment)
    requires Line(text, env, line, word, args) && ("subnet-" <= word || "pcx-" <= word)
    ensures var s, longer := Opened(text, env), text + line + "\n";
      && (forall ports | ArePorts(args, ports) ::
            Becomes(text, longer, env, s.(subnets := s.subnets + [Subnet(word, ports)])))
      && ((forall ports :: !ArePorts(args, ports)) ==> Becomes(text, longer, env, s))
  {
    hide Open, Opened, Becomes, ArePorts, Ports;
    LineTaken(text, line, word, args, env);
    forall ports
      ensures Ports(args) == Some(ports) <==> ArePorts(args, ports)
    {
      PortsRead(args, ports);
    }
  }

  /** Any other word says nothing. */
  lemma OtherLine(text: string, line: string, word: string, args: seq<string>, env: Environment)
    requires Line(text, env, line, word, args)
    requires word !in {"dns", "nat", "route"} && !("subnet-" <= word) && !("pcx-" <= word)
    ensures Becomes(text, text + line + "\n", env, Opened(text, env))
  {
    hide Open, Opened, Becomes;
    LineTaken(text, line, word, args, env);
  }

  // --- A line that opens a section.

  // A line that does not start with a blank, and its words once its comment is off.
  ghost predicate IsHeader(line: string, words: seq<string>) {
    && line != "" && line[0] != ' ' && line[0] != '\t' && '\n' !in line
    && words != [] && Fields(UpTo(line, '#')) == words
  }

  lemma HeaderRead(st: ParserState, line: string, words: seq<string>)
    requires IsHeader(line, words) && st.rest == line + "\n"
    ensures var (kind, name) := if words[0] == "global" then ("global", "") else (words[0], words[|words| - 1]);
      var there := st.(rest := "", line := st.line + 1, sectionType := kind, sectionName := name);
      Next(st) == if words[0] == "global" || |words| == 2
        then (Read(Statement(kind, name, "", [], st.line + 1)), there)
        else (BadLine(st.line + 1), st.(rest := "", line := st.line + 1))
  {
    hide Fields, UpTo, ReadLine;
    UpToCut(line, '\n', "");
    assert st.rest == line + ['\n'] + "";
    UpToAll(line, '\n');
    assert st.rest[|line| + 1..] == "";
    NextLine(st, line, "");
    HeaderLineRead(line, st.(rest := "", line := st.line + 1), words);
  }

  lemma HeaderLineRead(line: string, st: ParserState, words: seq<string>)
    requires IsHeader(line, words)
    ensures var (kind, name) := if words[0] == "global" then ("global", "") else (words[0], words[|words| - 1]);
      ReadLine(line, st) == Some(if words[0] == "global" || |words| == 2
        then (Read(Statement(kind, name, "", [], st.line)), st.(sectionType := kind, sectionName := name))
        else (BadLine(st.line), st))
  {
    hide Fields;
    var cut := UpTo(line, '#');
    NoFields();
    assert cut != "" && cut[0] == line[0];
  }

  // What the statements are, and where the parser is, with such a line at the end.
  lemma HeaderAppended(text: string, line: string, words: seq<string>)
    returns (stmt: Statement)
    requires Complete(text) && Statements(Start(text)).1 && IsHeader(line, words)
    ensures words != []
    ensures words[0] == "global" || |words| == 2 ==>
      Statements(Start(text + line + "\n")) == (Statements(Start(text)).0 + [stmt], true)
    ensures !(words[0] == "global" || |words| == 2) ==> !Statements(Start(text + line + "\n")).1
    ensures stmt.word == "" && stmt.fields == []
    ensures stmt.sectionType == words[0]
    ensures stmt.sectionName == if words[0] == "global" then "" else words[|words| - 1]
  {
    hide Next, Statements, EndState, Fields;
    StatementsExtend(Start(text), line + "\n");
    assert text + (line + "\n") == text + line + "\n";
    var there := EndState(Start(text)).(rest := line + "\n");
    HeaderRead(there, line, words);
    StatementsStep(there);
    stmt := Statement(words[0], if words[0] == "global" then "" else words[|words| - 1], "", [], there.line + 1);
    if words[0] == "global" || |words| == 2 {
      NothingRead(Next(there).1);
      assert [stmt] + [] == [stmt];
    }
  }

  /**
   After a text that is read without an error, a line `group`, `user` or `global` with its name opens that section: a
   new one is empty, a new group comes after all others, and nothing else changes. Any other line that does not
   start with a blank makes the file unreadable.
   */
  lemma HeaderLine(text: string, line: string, words: seq<string>, env: Environment)
    requires Complete(text) && Parsed(text, env).Some? && IsHeader(line, words)
    ensures var c, longer := Parsed(text, env).value, text + line + "\n";
      && (words[0] == "global" ==> Parsed(longer, env) == Some(c) && Opens(longer, env, "global", ""))
      && (words[0] == "group" && |words| == 2 ==>
            && Opens(longer, env, "group", words[1])
            && Parsed(longer, env) == Some(
                 if words[1] in c.groups then c
                 else c.(groups := c.groups[words[1] :=
                   Section(GroupSection, words[1], |c.groups|, [], [], [], NotSet, NotSet)])))
      && (words[0] == "user" && |words| == 2 ==>
            && Opens(longer, env, "user", words[1])
            && Parsed(longer, env) == Some(
                 if words[1] in c.users then c
                 else c.(users := c.users[words[1] := Section(UserSection, words[1], 0, [], [], [], NotSet, NotSet)])))
      && (words[0] != "global" && !(words[0] in {"group", "user"} && |words| == 2) ==> Parsed(longer, env).None?)
  {
    hide Statements, EndState, ConfigOf, IsHeader, Acceptable;
    var longer := text + line + "\n";
    var stmt := HeaderAppended(text, line, words);
    var stmts := Statements(Start(text)).0;
    ConfigStep(stmts, stmt, env);
    HeaderStep(ConfigOf(stmts, env), stmt, env);
    HeaderAccepted(stmts, stmt, env);
    if words[0] == "global" || |words| == 2 {
      LastSection(Start(longer));
    }
  }

  // The section of this type and name is open.
  ghost predicate Opens(text: string, env: Environment, sectionType: string, name: string) {
    Open(text, env) && EndState(Start(text)).sectionType == sectionType && EndState(Start(text)).sectionName == name
  }

  lemma HeaderAccepted(stmts: seq<Statement>, stmt: Statement, env: Environment)
    requires stmt.word == "" && forall s | s in stmts :: Acceptable(s, env)
    ensures (forall s | s in stmts + [stmt] :: Acceptable(s, env)) <==> stmt.sectionType in {"global", "group", "user"}
  {
    assert stmt in stmts + [stmt];
  }

  lemma HeaderStep(c: Config, stmt: Statement, env: Environment)
    requires stmt.word == ""
    ensures stmt.sectionType == "global" ==> Step(c, stmt, env) == c
    ensures stmt.sectionType == "group" ==>
      Step(c, stmt, env) ==
        if stmt.sectionName in c.groups then c
        else c.(groups := c.groups[stmt.sectionName :=
          Section(GroupSection, stmt.sectionName, |c.groups|, [], [], [], NotSet, NotSet)])
    ensures stmt.sectionType == "user" ==>
      Step(c, stmt, env) ==
        if stmt.sectionName in c.users then c
        else c.(users := c.users[stmt.sectionName :=
          Section(UserSection, stmt.sectionName, 0, [], [], [], NotSet, NotSet)])
  {
    NoWord(stmt, env);
    assert stmt.sectionName in c.groups ==> c.groups[stmt.sectionName := c.groups[stmt.sectionName]] == c.groups;
    assert stmt.sectionName in c.users ==> c.users[stmt.sectionName := c.users[stmt.sectionName]] == c.users;
  }

  lemma NoWord(stmt: Statement, env: Environment)
    requires stmt.word == ""
    ensures forall s :: After(s, stmt, env) == s
  {
    hide Ports, ParseRoute;
  }

  /** A file without lines is read, as an empty global section. */
  lemma EmptyText(env: Environment)
    ensures Complete("")
    ensures Parsed("", env) == Some(Config(Section(GlobalSection, "", 0, [], [], [], NotSet, NotSet), map[], map[]))
  {
    hide Next;
    NextAtEnd(Start(""));
    StatementsStep(Start(""));
    NoStatements(env);
  }

  /** A setting of the whole server, in the global section, changes no section; a bad one makes the file unreadable. */
  lemma GlobalLine(text: string, line: string, word: string, args: seq<string>, env: Environment)
    requires Opens(text, env, "global", EndState(Start(text)).sectionName) && SaysInSection(line, word, args)
    requires word in {"watch", "net", "route53", "key-strength"}
    ensures Parsed(text + line + "\n", env) == if env.globalOk(word, args) then Parsed(text, env) else None
  {
    hide Statements, EndState, Step, ConfigOf, Acceptable;
    var longer := text + line + "\n";
    var a, stmt, b, ok := LineInserted(text, line, "", word, args);
    LastSection(Start(text));
    assert text + "" == text && text + line + "\n" + "" == longer;
    assert a + b == a ==> b == [];
    assert a + [stmt] + [] == a + [stmt];
    AlikeConfig(Statements(Start(longer)).0, a + [stmt], env);
    ConfigStep(a, stmt, env);
    GlobalStep(ConfigOf(a, env), stmt, env);
    assert forall s :: s in a + [stmt] <==> s in a || s == stmt;
  }

  lemma GlobalStep(c: Config, stmt: Statement, env: Environment)
    requires stmt.sectionType == "global" && stmt.word in {"watch", "net", "route53", "key-strength"}
    ensures Step(c, stmt, env) == c && (Acceptable(stmt, env) <==> env.globalOk(stmt.word, stmt.fields))
  {
  }

  // --- The order of the groups.

  lemma {:induction false} GroupsGrow(a: seq<Statement>, b: seq<Statement>, env: Environment)
    ensures var c, d := ConfigOf(a, env), ConfigOf(a + b, env);
      && c.groups.Keys <= d.groups.Keys && |c.groups| <= |d.groups|
      && (forall g | g in c.groups :: d.groups[g].order == c.groups[g].order)
      && forall h | h in d.groups && h !in c.groups :: |c.groups| <= d.groups[h].order
  {
    hide ConfigOf, Step;
    if b == [] {
      assert a + b == a;
    } else {
      var most, last := b[..|b| - 1], b[|b| - 1];
      GroupsGrow(a, most, env);
      assert a + b == a + most + [last];
      ConfigStep(a + most, last, env);
      GroupsStep(ConfigOf(a + most, env), last, env);
    }
  }

  lemma GroupsStep(c: Config, stmt: Statement, env: Environment)
    ensures var d := Step(c, stmt, env);
      && c.groups.Keys <= d.groups.Keys && |c.groups| <= |d.groups|
      && (forall g | g in c.groups :: d.groups[g].order == c.groups[g].order)
      && forall h | h in d.groups && h !in c.groups :: d.groups[h].order == |c.groups|
  {
    hide After;
    if stmt.sectionType == "group" {
      var s := if stmt.sectionName in c.groups then c.groups[stmt.sectionName]
               else Fresh(GroupSection, stmt.sectionName, |c.groups|);
      OneMoreGroup(c.groups, stmt.sectionName, After(s, stmt, env));
    }
  }

  lemma OneMoreGroup(groups: map<string, Section>, name: string, s: Section)
    ensures |groups| <= |groups[name := s]|
  {
    var more := groups[name := s];
    assert |groups| == |groups.Keys| && |more| == |more.Keys| && more.Keys == groups.Keys + {name};
  }

  /** A group that is first opened further down in the file comes later in the order. */
  lemma OpenedLater(before: string, after: string, env: Environment, g: string, h: string)
    requires Complete(before) && Parsed(before, env).Some? && Parsed(before + after, env).Some?
    requires g in Parsed(before, env).value.groups
    requires h !in Parsed(before, env).value.groups && h in Parsed(before + after, env).value.groups
    ensures var c := Parsed(before + after, env).value;
      g in c.groups && c.groups[g].order < c.groups[h].order
  {
    hide Statements, EndState, ConfigOf;
    StatementsExtend(Start(before), after);
    var a, b := Statements(Start(before)).0, Statements(EndState(Start(before)).(rest := after)).0;
    GroupsOrdered(a, env);
    GroupsGrow(a, b, env);
  }

  /**
   Of a user's groups that set DNS, the one first opened last in the file decides, unless the user's own section
   does; the same for NAT.
   */
  lemma LastGroupDecides(
    before: string, after: string, env: Environment, conf: UserConfig, user: string, groups: set<string>,
    info: NetworkInfo, h: string)
    requires Complete(before) && Parsed(before, env).Some? && Parsed(before + after, env).Some?
    requires Says(conf, Parsed(before + after, env).value, user, groups, info)
    requires h in groups && h !in Parsed(before, env).value.groups && h in Parsed(before + after, env).value.groups
    ensures var c := Parsed(before + after, env).value;
      && c.groups[h].dns != NotSet && (user in c.users ==> c.users[user].dns == NotSet)
      && (forall g | g in groups && g in c.groups && g != h && c.groups[g].dns != NotSet ::
            g in Parsed(before, env).value.groups)
      ==> conf.dns == c.groups[h].dns
    ensures var c := Parsed(before + after, env).value;
      && c.groups[h].nat_ != NotSet && (user in c.users ==> c.users[user].nat_ == NotSet)
      && (forall g | g in groups && g in c.groups && g != h && c.groups[g].nat_ != NotSet ::
            g in Parsed(before, env).value.groups)
      ==> ListsNamed(conf, c, user, groups, info, c.groups[h].nat_)
  {
    hide Parsed, ListsNamed;
    var c := Parsed(before + after, env).value;
    forall g | g in Parsed(before, env).value.groups
      ensures g in c.groups && c.groups[g].order < c.groups[h].order
    {
      OpenedLater(before, after, env, g, h);
    }
  }

  // --- Plain lines.

  // A word without white space or a comment in it.
  predicate Plain(w: string) {
    w != "" && NoSpace(w) && '#' !in w
  }

  // Words with a blank in front of each.
  function Joined(words: seq<string>): string {
    if words == [] then "" else " " + words[0] + Joined(words[1..])
  }

  lemma {:induction false} JoinedWoven(words: seq<string>)
    requires words != []
    ensures Woven(seq(|words|, _ => " ") + [""], words) == Joined(words)
  {
    var gaps := seq(|words|, _ => " ") + [""];
    assert gaps[0] == " " && gaps[1..] == seq(|words| - 1, _ => " ") + [""];
    if |words| > 1 {
      JoinedWoven(words[1..]);
    } else {
      assert gaps[1..] == [""] && words[1..] == [] && Woven([""], []) == "";
    }
  }

  lemma {:induction false} JoinedNoHash(words: seq<string>)
    requires forall w | w in words :: Plain(w)
    ensures '#' !in Joined(words) && '\n' !in Joined(words)
  {
    if words != [] {
      assert Plain(words[0]);
      JoinedNoHash(words[1..]);
      assert '\n' !in words[0] by {
        assert IsSpace('\n');
      }
    }
  }

  /** A tab, a word and further words with blanks between them make a line that says just these words. */
  lemma PlainLine(word: string, args: seq<string>)
    requires Plain(word) && forall w | w in args :: Plain(w)
    ensures SaysInSection("\t" + word + Joined(args), word, args)
  {
    hide Fields, IsSpace;
    var words, line := [word] + args, "\t" + word + Joined(args);
    var gaps := ["\t"] + seq(|args|, _ => " ") + [""];
    assert forall w | w in words :: Plain(w);
    TabAndBlank();
    if args == [] {
      assert Woven(gaps, words) == "\t" + word + Woven([""], []) by {
        assert gaps[1..] == [""] && words[1..] == [];
      }
    } else {
      JoinedWoven(args);
      assert gaps[1..] == seq(|args|, _ => " ") + [""] && words[1..] == args;
    }
    assert Woven(gaps, words) == line;
    FieldsUnique(line, gaps, words);
    JoinedNoHash(args);
    assert '#' !in line && '\n' !in line by {
      assert Plain(word) && '\n' !in word;
    }
    UpToAll(line, '#');
  }

  lemma TabAndBlank()
    ensures AllSpace("\t") && AllSpace(" ") && AllSpace("") && IsSpace('\n')
  {
  }

  /** And two words with a blank between them, in the first column, a header. */
  lemma PlainHeader(a: string, b: string)
    requires Plain(a) && Plain(b)
    ensures IsHeader(a + " " + b, [a, b])
  {
    hide Fields, IsSpace;
    var line := a + " " + b;
    TabAndBlank();
    SplitInTwo("", a, b);
    assert "" + a + " " + b == line;
    assert '#' !in line && '\n' !in line;
    UpToAll(line, '#');
    assert line[0] == a[0] && a[0] in a;
    assert IsSpace(' ') && IsSpace('\t') by {
      SpaceChars();
    }
  }

  lemma SpaceChars()
    ensures IsSpace(' ') && IsSpace('\t')
  {
  }
}
