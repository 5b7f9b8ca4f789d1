/**
 The text a section is printed as, by SectionConfig.String, against the section that is read from it. With
 `mended == true` a route is printed as it is read, and the NAT setting after the NAT routes, `on` for all networks.
 */
module ConfigPrinter {
  import opened Wrappers
  import opened Iptables
  import opened ConfigLines
  import opened ConfigFile
  import opened ConfigText
  import opened Policy

  type Words = w: seq<string> | w != [] witness ["dns"]

  function PortWords(ports: seq<nat>): (words: seq<string>)
    ensures |words| == |ports|
  {
    seq(|ports|, i requires 0 <= i < |ports| => Printed(ports[i]))
  }

  // Route.String. As written a route with ports begins with the word `route`, which its lines have already.
  function RouteWords(r: Route, render: Network -> string, mended: bool): (words: seq<string>)
    ensures words != []
  {
    (if r.ports != [] && !mended then ["route"] else []) + [render(r.network)] + PortWords(r.ports)
  }

  function RouteLines(word: string, routes: seq<Route>, render: Network -> string, mended: bool): seq<Words> {
    if routes == [] then []
    else
      RouteLines(word, routes[..|routes| - 1], render, mended)
      + [[word] + RouteWords(routes[|routes| - 1], render, mended)]
  }

  function SubnetLines(subnets: seq<Subnet>): seq<Words> {
    if subnets == [] then []
    else
      SubnetLines(subnets[..|subnets| - 1])
      + [[subnets[|subnets| - 1].name] + PortWords(subnets[|subnets| - 1].ports)]
  }

  function DnsLines(dns: Flag): seq<Words> {
    match dns
    case On => [["dns", "on"]]
    case Off => [["dns", "off"]]
    case _ => []
  }

  function NatLines(nat_: Flag, mended: bool): seq<Words> {
    match nat_
    case On => if mended then [] else [["nat", "on"]]
    case Off => [["nat", "off"]]
    case All => if mended then [["nat", "on"]] else []
    case NotSet => []
  }

  // SectionConfig.String, but for its header.
  function SectionLines(s: Section, render: Network -> string, mended: bool): seq<Words> {
    if mended then
      DnsLines(s.dns) + SubnetLines(s.subnets) + RouteLines("nat", s.natRoutes, render, true) + NatLines(s.nat_, true)
      + RouteLines("route", s.routes, render, true)
    else
      DnsLines(s.dns) + NatLines(s.nat_, false) + SubnetLines(s.subnets)
      + RouteLines("nat", s.natRoutes, render, false) + RouteLines("route", s.routes, render, false)
  }

  function Text(lines: seq<Words>): string {
    if lines == [] then ""
    else
      var last := lines[|lines| - 1];
      Text(lines[..|lines| - 1]) + ("\t" + last[0] + Joined(last[1..])) + "\n"
  }

  // What each line makes of a section.
  function Read(s: Section, lines: seq<Words>, env: Environment): (r: Section)
    ensures r.kind == s.kind && r.name == s.name && r.order == s.order
  {
    if lines == [] then s
    else
      var last := lines[|lines| - 1];
      After(Read(s, lines[..|lines| - 1], env), Statement("", "", last[0], last[1..], 0), env)
  }

  lemma {:induction false} ReadConcat(s: Section, a: seq<Words>, b: seq<Words>, env: Environment)
    ensures Read(s, a + b, env) == Read(Read(s, a, env), b, env)
  {
    hide After;
    if b == [] {
      assert a + b == a;
    } else {
      var most := b[..|b| - 1];
      ReadConcat(s, a, most, env);
      assert (a + b)[..|a + b| - 1] == a + most;
    }
  }

  predicate AllPlain(lines: seq<Words>) {
    forall l | l in lines :: AllWordsPlain(l)
  }

  predicate AllWordsPlain(words: seq<string>) {
    forall w | w in words :: Plain(w)
  }

  lemma BecomesOn(text: string, longer: string, longest: string, env: Environment, s: Section, t: Section)
    requires Open(text, env) && Becomes(text, longer, env, s)
    ensures Open(longer, env) && Opened(longer, env) == s
    ensures Becomes(longer, longest, env, t) ==> Becomes(text, longest, env, t)
  {
    hide Parsed, EndState, Complete;
    OpenedThere(text, env);
    var end, c := EndState(Start(text)), Parsed(text, env).value;
    PutTwice(c, end.sectionType, end.sectionName, s, t);
  }

  lemma PutTwice(c: Config, sectionType: string, name: string, s: Section, t: Section)
    ensures SectionIn(Put(c, sectionType, name, s), sectionType, name) == Some(s)
    ensures Put(Put(c, sectionType, name, s), sectionType, name, t) == Put(c, sectionType, name, t)
  {
    assert c.groups[name := s][name := t] == c.groups[name := t];
    assert c.users[name := s][name := t] == c.users[name := t];
  }

  lemma BecomesItself(text: string, env: Environment)
    requires Open(text, env)
    ensures Becomes(text, text, env, Opened(text, env))
  {
    hide Parsed, EndState, Complete;
    OpenedThere(text, env);
    var end := EndState(Start(text));
    var c := Parsed(text, env).value;
    assert end.sectionType == "group" ==> c.groups[end.sectionName := c.groups[end.sectionName]] == c.groups;
    assert end.sectionType == "user" ==> c.users[end.sectionName := c.users[end.sectionName]] == c.users;
  }

  lemma AfterPlain(s: Section, sectionType: string, name: string, word: string, args: seq<string>, env: Environment)
    ensures After(s, Statement(sectionType, name, word, args, 0), env)
      == After(s, Statement("", "", word, args, 0), env)
  {
    hide Ports, ParseRoute;
  }

  // Lines of words, one after the other.
  lemma {:induction false} LinesTaken(text: string, lines: seq<Words>, env: Environment)
    requires Open(text, env) && AllPlain(lines)
    requires forall l | l in lines :: !IsGlobalWord(l[0])
    ensures Becomes(text, text + Text(lines), env, Read(Opened(text, env), lines, env))
  {
    hide Open, Opened, Becomes, After, IsGlobalWord, SaysInSection, Plain, Joined;
    if lines == [] {
      assert text + "" == text;
      BecomesItself(text, env);
    } else {
      var most, last := lines[..|lines| - 1], lines[|lines| - 1];
      assert last in lines && AllWordsPlain(last) && forall l | l in most :: l in lines;
      LinesTaken(text, most, env);
      var longer, s := text + Text(most), Read(Opened(text, env), most, env);
      var line := "\t" + last[0] + Joined(last[1..]);
      assert forall w | w in last[1..] :: w in last;
      PlainLine(last[0], last[1..]);
      assert longer + line + "\n" == text + Text(lines);
      BecomesOn(text, longer, text + Text(lines), env, s, Read(Opened(text, env), lines, env));
      LineTaken(longer, line, last[0], last[1..], env);
      var end := EndState(Start(longer));
      AfterPlain(s, end.sectionType, end.sectionName, last[0], last[1..], env);
    }
  }

  // --- Printable sections.

  ghost predicate GoodPorts(ports: seq<nat>) {
    forall p | p in ports :: p < 0x1_0000
  }

  // The printed network is a word that is read as this network.
  ghost predicate GoodRoute(r: Route, render: Network -> string, env: Environment) {
    && Plain(render(r.network)) && render(r.network) !in {"on", "off"}
    && env.network(render(r.network)) == Some(r.network)
    && GoodPorts(r.ports)
  }

  ghost predicate GoodSubnet(b: Subnet) {
    ("subnet-" <= b.name || "pcx-" <= b.name) && Plain(b.name) && GoodPorts(b.ports)
  }

  // What a section that was read from a file is like; `route` is not the text of a network.
  ghost predicate Printable(s: Section, render: Network -> string, env: Environment) {
    && s.dns != All && env.network("route").None?
    && (forall b | b in s.subnets :: GoodSubnet(b))
    && (forall r | r in s.routes :: GoodRoute(r, render, env))
    && forall r | r in s.natRoutes :: GoodRoute(r, render, env)
  }

  lemma PortWordsRead(ports: seq<nat>)
    requires GoodPorts(ports)
    ensures Ports(PortWords(ports)) == Some(ports)
    ensures forall w | w in PortWords(ports) :: Plain(w)
  {
    hide Printed, Ports, Plain;
    forall i | 0 <= i < |ports|
      ensures IsPort(PortWords(ports)[i], ports[i])
    {
      assert ports[i] in ports;
      assert PortWords(ports)[i] == Zeros(0) + Printed(ports[i]);
    }
    PortsRead(PortWords(ports), ports);
    forall w | w in PortWords(ports)
      ensures Plain(w)
    {
      var i :| 0 <= i < |ports| && PortWords(ports)[i] == w;
      PrintedPlain(ports[i]);
    }
  }

  lemma PrintedPlain(n: nat)
    ensures Plain(Printed(n))
  {
    hide Printed;
    PrintedDecimal(n);
  }

  // The routes that are read back: as written those without ports.
  function Kept(routes: seq<Route>, mended: bool): seq<Route> {
    if routes == [] then []
    else
      var last := routes[|routes| - 1];
      Kept(routes[..|routes| - 1], mended) + if mended || last.ports == [] then [last] else []
  }

  lemma {:induction false} KeptAllIff(routes: seq<Route>, mended: bool)
    ensures |Kept(routes, mended)| <= |routes|
    ensures Kept(routes, mended) == routes <==> mended || forall r | r in routes :: r.ports == []
    ensures |Kept(routes, mended)| == |routes| ==> Kept(routes, mended) == routes
  {
    if routes != [] {
      var most, last := routes[..|routes| - 1], routes[|routes| - 1];
      KeptAllIff(most, mended);
      assert routes == most + [last];
      assert forall r :: r in routes <==> r in most || r == last;
    }
  }

  lemma RouteWordsRead(r: Route, render: Network -> string, env: Environment, mended: bool)
    requires GoodRoute(r, render, env) && env.network("route").None?
    ensures ParseRoute(RouteWords(r, render, mended), env) == if mended || r.ports == [] then Some(r) else None
    ensures forall w | w in RouteWords(r, render, mended) :: Plain(w)
    ensures RouteWords(r, render, mended)[0] !in {"on", "off"}
  {
    hide Ports, PortWords;
    PortWordsRead(r.ports);
    var words := RouteWords(r, render, mended);
    if mended || r.ports == [] {
      assert words[0] == render(r.network) && words[1..] == PortWords(r.ports);
    } else {
      assert words[0] == "route" && Plain("route");
    }
  }

  lemma ReadNext(s: Section, lines: seq<Words>, line: Words, env: Environment)
    ensures Read(s, lines + [line], env) ==
      After(Read(s, lines, env), Statement("", "", line[0], line[1..], 0), env)
  {
    hide After;
    assert (lines + [line])[..|lines|] == lines;
  }

  // A section with more routes, or more NAT routes.
  function With(s: Section, word: string, more: seq<Route>): Section {
    if word == "route" then s.(routes := s.routes + more)
    else s.(natRoutes := s.natRoutes + more, nat_ := if more == [] then s.nat_ else On)
  }

  lemma WithTwice(s: Section, word: string, a: seq<Route>, b: seq<Route>)
    ensures With(s, word, []) == s && With(With(s, word, a), word, b) == With(s, word, a + b)
  {
    assert s.routes + [] == s.routes && s.natRoutes + [] == s.natRoutes;
    assert s.routes + a + b == s.routes + (a + b) && s.natRoutes + a + b == s.natRoutes + (a + b);
  }

  // What one line of a route makes of a section.
  lemma RouteEffect(s: Section, word: string, r: Route, render: Network -> string, env: Environment, mended: bool)
    requires GoodRoute(r, render, env) && env.network("route").None? && word in {"route", "nat"}
    ensures var line: Words := [word] + RouteWords(r, render, mended);
      && line[0] == word && AllWordsPlain(line)
      && After(s, Statement("", "", line[0], line[1..], 0), env) ==
           With(s, word, if mended || r.ports == [] then [r] else [])
  {
    hide GoodRoute, RouteWords, ParseRoute, Plain;
    RouteWordsRead(r, render, env, mended);
    var words := RouteWords(r, render, mended);
    var line: Words := [word] + words;
    assert line[1..] == words;
    PlainRouteWords(line);
    RouteTaken(s, word, words, env);
    WithTwice(s, word, [], []);
  }

  lemma RouteTaken(s: Section, word: string, words: seq<string>, env: Environment)
    requires word in {"route", "nat"} && words != [] && words[0] !in {"on", "off"}
    ensures After(s, Statement("", "", word, words, 0), env) ==
      if ParseRoute(words, env).Some? then With(s, word, [ParseRoute(words, env).value]) else s
  {
    hide ParseRoute;
    assert "route"[0] != "pcx-"[0] && "nat"[0] != "pcx-"[0];
  }

  lemma {:induction false} ReadRoutes(
    s: Section, word: string, routes: seq<Route>, render: Network -> string, env: Environment, mended: bool)
    requires env.network("route").None? && word in {"route", "nat"}
    requires forall r | r in routes :: GoodRoute(r, render, env)
    ensures var lines := RouteLines(word, routes, render, mended);
      && Read(s, lines, env) == With(s, word, Kept(routes, mended))
      && AllPlain(lines) && forall l | l in lines :: l[0] == word
  {
    hide GoodRoute, RouteWords, After, AllWordsPlain, With;
    WithTwice(s, word, [], []);
    if routes != [] {
      var most, last := routes[..|routes| - 1], routes[|routes| - 1];
      assert last in routes && forall r | r in most :: r in routes;
      ReadRoutes(s, word, most, render, env, mended);
      var line: Words := [word] + RouteWords(last, render, mended);
      ReadNext(s, RouteLines(word, most, render, mended), line, env);
      RouteEffect(Read(s, RouteLines(word, most, render, mended), env), word, last, render, env, mended);
      WithTwice(s, word, Kept(most, mended), if mended || last.ports == [] then [last] else []);
    }
  }

  lemma PlainRouteWords(line: Words)
    requires line[0] in {"route", "nat"} && forall w | w in line[1..] :: Plain(w)
    ensures AllWordsPlain(line)
  {
    assert Plain("route") && Plain("nat");
    forall w | w in line
      ensures Plain(w)
    {
      assert line == [line[0]] + line[1..];
    }
  }

  lemma {:induction false} ReadSubnets(s: Section, subnets: seq<Subnet>, env: Environment)
    requires forall b | b in subnets :: GoodSubnet(b)
    ensures var lines := SubnetLines(subnets);
      && Read(s, lines, env) == s.(subnets := s.subnets + subnets)
      && AllPlain(lines) && forall l | l in lines :: !IsGlobalWord(l[0])
  {
    hide GoodSubnet, PortWords, After, AllWordsPlain, IsGlobalWord;
    if subnets == [] {
      assert s.subnets + [] == s.subnets;
    } else {
      var most, last := subnets[..|subnets| - 1], subnets[|subnets| - 1];
      assert last in subnets && forall b | b in most :: b in subnets;
      ReadSubnets(s, most, env);
      var line: Words := [last.name] + PortWords(last.ports);
      ReadNext(s, SubnetLines(most), line, env);
      SubnetEffect(Read(s, SubnetLines(most), env), last, env);
      assert subnets == most + [last];
      assert s.subnets + most + [last] == s.subnets + subnets;
    }
  }

  lemma SubnetEffect(s: Section, b: Subnet, env: Environment)
    requires GoodSubnet(b)
    ensures var line: Words := [b.name] + PortWords(b.ports);
      && AllWordsPlain(line) && !IsGlobalWord(line[0])
      && After(s, Statement("", "", line[0], line[1..], 0), env) == s.(subnets := s.subnets + [b])
  {
    hide PortWords, Ports, Plain, ParseRoute;
    PortWordsRead(b.ports);
    var line: Words := [b.name] + PortWords(b.ports);
    assert line[1..] == PortWords(b.ports);
    assert forall w | w in line :: w == b.name || w in PortWords(b.ports);
    assert "watch"[0] != "pcx-"[0] && "net"[0] != "pcx-"[0] && "route53"[0] != "pcx-"[0];
    assert "key-strength"[0] != "pcx-"[0] && "key-strength"[0] != "subnet-"[0];
    assert "watch"[0] != "subnet-"[0] && "net"[0] != "subnet-"[0] && "route53"[0] != "subnet-"[0];
  }

  lemma FlagLines(word: string, flag: string)
    requires word in {"dns", "nat"} && flag in {"on", "off"}
    ensures AllPlain([[word, flag]]) && !IsGlobalWord(word)
  {
    assert Plain("dns") && Plain("nat") && Plain("on") && Plain("off");
  }

  lemma FlagEffect(s: Section, flag: string, env: Environment)
    requires flag in {"on", "off"}
    ensures After(s, Statement("", "", "dns", [flag], 0), env) == s.(dns := if flag == "on" then On else Off)
    ensures After(s, Statement("", "", "nat", [flag], 0), env) == s.(nat_ := if flag == "on" then All else Off)
  {
    hide Ports, ParseRoute;
    assert "dns"[0] != "pcx-"[0] && "nat"[0] != "pcx-"[0];
  }

  lemma FlagRead(s: Section, word: string, flag: string, env: Environment)
    requires word in {"dns", "nat"} && flag in {"on", "off"}
    ensures Read(s, [[word, flag]], env) ==
      if word == "dns" then s.(dns := if flag == "on" then On else Off)
      else s.(nat_ := if flag == "on" then All else Off)
    ensures AllPlain([[word, flag]]) && !IsGlobalWord(word)
  {
    hide After, IsGlobalWord;
    var line: Words := [word, flag];
    assert line[1..] == [flag] && [] + [line] == [line];
    ReadNext(s, [], line, env);
    FlagEffect(s, flag, env);
    FlagLines(word, flag);
  }

  lemma ReadDns(s: Section, dns: Flag, env: Environment)
    requires dns != All
    ensures Read(s, DnsLines(dns), env) == if dns == NotSet then s else s.(dns := dns)
    ensures AllPlain(DnsLines(dns)) && forall l | l in DnsLines(dns) :: !IsGlobalWord(l[0])
  {
    hide After, IsGlobalWord, AllWordsPlain;
    FlagRead(s, "dns", "on", env);
    FlagRead(s, "dns", "off", env);
  }

  lemma ReadNat(s: Section, nat_: Flag, mended: bool, env: Environment)
    ensures Read(s, NatLines(nat_, mended), env) ==
      s.(nat_ := if nat_ == Off then Off
                 else if nat_ == (if mended then All else On) then All
                 else s.nat_)
    ensures AllPlain(NatLines(nat_, mended)) && forall l | l in NatLines(nat_, mended) :: !IsGlobalWord(l[0])
  {
    hide After, IsGlobalWord, AllWordsPlain;
    FlagRead(s, "nat", "on", env);
    FlagRead(s, "nat", "off", env);
  }

  // --- Reading back.

  // The setting the printed lines leave: as written the NAT routes come last.
  function NatBack(s: Section, mended: bool): Flag {
    if mended then
      if s.nat_ == Off || s.nat_ == All then s.nat_ else if s.natRoutes == [] then NotSet else On
    else
      if Kept(s.natRoutes, false) != [] then On
      else if s.nat_ == On then All
      else if s.nat_ == Off then Off
      else NotSet
  }

  // An empty section after the lines of a section.
  lemma SectionRead(o: Section, s: Section, render: Network -> string, env: Environment, mended: bool)
    requires Printable(s, render, env)
    requires o == Section(o.kind, o.name, o.order, [], [], [], NotSet, NotSet)
    ensures Read(o, SectionLines(s, render, mended), env) ==
      Section(o.kind, o.name, o.order, s.subnets, Kept(s.routes, mended), Kept(s.natRoutes, mended),
        NatBack(s, mended), s.dns)
    ensures AllPlain(SectionLines(s, render, mended))
    ensures forall l | l in SectionLines(s, render, mended) :: !IsGlobalWord(l[0])
  {
    hide After, GoodRoute, GoodSubnet, AllWordsPlain, Read, RouteLines, SubnetLines, DnsLines, NatLines, Kept;
    var dns, nat_ := DnsLines(s.dns), NatLines(s.nat_, mended);
    var subnets := SubnetLines(s.subnets);
    var nats, routes := RouteLines("nat", s.natRoutes, render, mended), RouteLines("route", s.routes, render, mended);
    KeptAllIff(s.natRoutes, true);
    ReadDns(o, s.dns, env);
    var s1 := Read(o, dns, env);
    if mended {
      ReadSubnets(s1, s.subnets, env);
      var s2 := Read(s1, subnets, env);
      ReadRoutes(s2, "nat", s.natRoutes, render, env, mended);
      var s3 := Read(s2, nats, env);
      ReadNat(s3, s.nat_, mended, env);
      var s4 := Read(s3, nat_, env);
      ReadRoutes(s4, "route", s.routes, render, env, mended);
      FiveRead(o, dns, subnets, nats, nat_, routes, env);
    } else {
      ReadNat(s1, s.nat_, mended, env);
      var s2 := Read(s1, nat_, env);
      ReadSubnets(s2, s.subnets, env);
      var s3 := Read(s2, subnets, env);
      ReadRoutes(s3, "nat", s.natRoutes, render, env, mended);
      var s4 := Read(s3, nats, env);
      ReadRoutes(s4, "route", s.routes, render, env, mended);
      FiveRead(o, dns, nat_, subnets, nats, routes, env);
    }
  }

  lemma FiveRead(
    o: Section, a: seq<Words>, b: seq<Words>, c: seq<Words>, d: seq<Words>, e: seq<Words>, env: Environment)
    ensures Read(o, a + b + c + d + e, env) ==
      Read(Read(Read(Read(Read(o, a, env), b, env), c, env), d, env), e, env)
  {
    hide Read;
    ReadConcat(o, a + b + c + d, e, env);
    ReadConcat(o, a + b + c, d, env);
    ReadConcat(o, a + b, c, env);
    ReadConcat(o, a, b, env);
  }

  /**
   Under the header of an empty section, the printed lines of a section are read back as that section: mended for
   every section whose NAT setting fits its NAT routes, as written exactly if no route has ports and the NAT
   setting is `On` just for sections with NAT routes, and never that for all networks.
   */
  lemma ReadsBackIff(text: string, s: Section, render: Network -> string, env: Environment, mended: bool)
    requires Open(text, env) && Printable(s, render, env)
    requires var o := Opened(text, env); o == Section(o.kind, o.name, o.order, [], [], [], NotSet, NotSet)
    ensures var o := Opened(text, env);
      Becomes(text, text + Text(SectionLines(s, render, mended)), env,
        s.(kind := o.kind, name := o.name, order := o.order)) <==>
      if mended then (s.nat_ == On ==> s.natRoutes != []) && (s.nat_ == NotSet ==> s.natRoutes == [])
      else
        && (forall r | r in s.routes :: r.ports == []) && (forall r | r in s.natRoutes :: r.ports == [])
        && s.nat_ != All && (s.nat_ == On <==> s.natRoutes != [])
  {
    hide Open, Opened, Becomes, Printable, Text, SectionLines, Read, IsGlobalWord, AllPlain, Kept;
    var o := Opened(text, env);
    SectionRead(o, s, render, env, mended);
    var lines := SectionLines(s, render, mended);
    LinesTaken(text, lines, env);
    KeptAllIff(s.routes, mended);
    KeptAllIff(s.natRoutes, mended);
    NothingKept(mended);
    var same := s.(kind := o.kind, name := o.name, order := o.order);
    BecomesOne(text, text + Text(lines), env, Read(o, lines, env), same);
  }

  lemma NothingKept(mended: bool)
    ensures Kept([], mended) == []
  {
  }

  lemma BecomesOne(text: string, longer: string, env: Environment, s: Section, t: Section)
    requires Open(text, env) && Becomes(text, longer, env, s)
    ensures Becomes(text, longer, env, t) <==> s == t
  {
    hide Parsed, EndState, Complete;
    var end, c := EndState(Start(text)), Parsed(text, env).value;
    PutTwice(c, end.sectionType, end.sectionName, s, t);
    PutTwice(c, end.sectionType, end.sectionName, t, s);
  }

  // What reading gives a section: `on` for DNS only, and a NAT setting that fits the NAT routes.
  ghost predicate Fitting(s: Section) {
    && s.dns != All && (s.nat_ == On ==> s.natRoutes != []) && (s.nat_ == NotSet ==> s.natRoutes == [])
    && forall b | b in s.subnets :: "subnet-" <= b.name || "pcx-" <= b.name
  }

  lemma AfterFitting(s: Section, stmt: Statement, env: Environment)
    requires Fitting(s)
    ensures Fitting(After(s, stmt, env))
  {
    hide Ports, ParseRoute;
  }

  /** So every section that is read from a file is read back from what the mended printer makes of it. */
  lemma {:induction false} AllFitting(stmts: seq<Statement>, env: Environment)
    ensures var c := ConfigOf(stmts, env);
      && Fitting(c.global) && (forall g | g in c.groups :: Fitting(c.groups[g]))
      && forall u | u in c.users :: Fitting(c.users[u])
  {
    hide Fitting, Step, Fresh;
    if stmts == [] {
      FreshFitting(GlobalSection, "", 0);
    } else {
      var n := |stmts| - 1;
      AllFitting(stmts[..n], env);
      StepFitting(ConfigOf(stmts[..n], env), stmts[n], env);
    }
  }

  lemma FreshFitting(kind: Kind, name: string, order: nat)
    ensures Fitting(Fresh(kind, name, order))
  {
  }

  lemma StepFitting(c: Config, stmt: Statement, env: Environment)
    requires Fitting(c.global) && (forall g | g in c.groups :: Fitting(c.groups[g]))
    requires forall u | u in c.users :: Fitting(c.users[u])
    ensures var d := Step(c, stmt, env);
      && Fitting(d.global) && (forall g | g in d.groups :: Fitting(d.groups[g]))
      && forall u | u in d.users :: Fitting(d.users[u])
  {
    hide Fitting, After, Fresh;
    forall s | Fitting(s)
      ensures Fitting(After(s, stmt, env))
    {
      AfterFitting(s, stmt, env);
    }
    FreshFitting(GroupSection, stmt.sectionName, |c.groups|);
    FreshFitting(UserSection, stmt.sectionName, 0);
  }
}
