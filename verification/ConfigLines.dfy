/** Reading vpn.conf line by line: words, comments, section headers and the statements below them. */
module ConfigLines {
  import opened Wrappers

  datatype Statement =
    Statement(sectionType: string, sectionName: string, word: string, fields: seq<string>, line: nat)

  datatype ReadResult = Read(stmt: Statement) | Eof | BadLine(line: nat)

  // The white space of strings.Fields: unicode.IsSpace.
  predicate IsSpace(c: char) {
    || c == ' ' || '\t' <= c <= '\r' || c == '\U{85}' || c == '\U{A0}' || c == '\U{1680}'
    || '\U{2000}' <= c <= '\U{200A}' || c == '\U{2028}' || c == '\U{2029}' || c == '\U{202F}'
    || c == '\U{205F}' || c == '\U{3000}'
  }

  /** Code point by code point. */
  lemma SpacesAre(c: char)
    ensures IsSpace(c) <==>
      c as int in {0x20, 0x09, 0x0A, 0x0B, 0x0C, 0x0D, 0x85, 0xA0, 0x1680, 0x2000, 0x2001, 0x2002, 0x2003, 0x2004,
        0x2005, 0x2006, 0x2007, 0x2008, 0x2009, 0x200A, 0x2028, 0x2029, 0x202F, 0x205F, 0x3000}
  {
  }

  // The text up to the first such character, or all of it.
  function UpTo(s: string, stop: char): (r: string)
    ensures r <= s && (r != s ==> |r| < |s| && s[|r|] == stop)
  {
    if s == "" || s[0] == stop then "" else [s[0]] + UpTo(s[1..], stop)
  }

  function Word(s: string): (r: string)
    ensures |r| <= |s| && (s != "" && !IsSpace(s[0]) ==> r != "")
  {
    if s == "" || IsSpace(s[0]) then "" else [s[0]] + Word(s[1..])
  }

  function Fields(s: string): (fs: seq<string>)
    ensures fs != [] ==> s != ""
    decreases |s|
  {
    if s == "" then []
    else if IsSpace(s[0]) then Fields(s[1..])
    else [Word(s)] + Fields(s[|Word(s)|..])
  }

  datatype ParserState = ParserState(rest: string, line: nat, sectionType: string, sectionName: string)

  // What one line does, blank lines and comments included; None to go on with the next line.
  function ReadLine(text: string, st: ParserState): (r: Option<(ReadResult, ParserState)>)
    ensures r.Some? ==> r.value.1.rest == st.rest && !r.value.0.Eof?
  {
    var line := UpTo(text, '#');
    var fields := Fields(line);
    if fields == [] then None
    else if line[0] == ' ' || line[0] == '\t' then
      if st.sectionType == "" then Some((BadLine(st.line), st))
      else Some((Read(Statement(st.sectionType, st.sectionName, fields[0], fields[1..], st.line)), st))
    else if fields[0] == "global" then
      Some((Read(Statement("global", "", "", [], st.line)), st.(sectionType := "global", sectionName := "")))
    else if |fields| == 2 then
      Some((Read(Statement(fields[0], fields[1], "", [], st.line)),
            st.(sectionType := fields[0], sectionName := fields[1])))
    else Some((BadLine(st.line), st))
  }

  // A last line without a line end is not read.
  function Next(st: ParserState): (r: (ReadResult, ParserState))
    ensures r.0.Read? ==> |r.1.rest| < |st.rest|
    decreases |st.rest|
  {
    var text := UpTo(st.rest, '\n');
    if text == st.rest then (Eof, st.(line := st.line + 1))
    else
      var st' := st.(rest := st.rest[|text| + 1..], line := st.line + 1);
      match ReadLine(text, st')
      case None => Next(st')
      case Some(r) => r
  }

  // All statements up to the end of the text or the first line that cannot be read.
  function Statements(st: ParserState): (seq<Statement>, bool)
    decreases |st.rest|
  {
    match Next(st).0
    case Eof => ([], true)
    case BadLine(_) => ([], false)
    case Read(stmt) => var (more, ok) := Statements(Next(st).1); ([stmt] + more, ok)
  }

  // Gaps and words in turn, beginning and ending with a gap.
  function Woven(gaps: seq<string>, words: seq<string>): string
    requires |gaps| == |words| + 1
  {
    if words == [] then gaps[0] else gaps[0] + words[0] + Woven(gaps[1..], words[1..])
  }

  predicate AllSpace(s: string) {
    forall c | c in s :: IsSpace(c)
  }

  predicate NoSpace(s: string) {
    forall c | c in s :: !IsSpace(c)
  }

  // The line is these words with white space around and between them.
  ghost predicate Splits(s: string, gaps: seq<string>, words: seq<string>) {
    && |gaps| == |words| + 1 && s == Woven(gaps, words)
    && (forall g | g in gaps :: AllSpace(g))
    && (forall i | 0 < i < |words| :: gaps[i] != "")
    && forall w | w in words :: w != "" && NoSpace(w)
  }

  lemma {:induction false} WordPart(s: string)
    ensures NoSpace(Word(s)) && Word(s) <= s && (Word(s) != s ==> IsSpace(s[|Word(s)|]))
  {
    hide IsSpace;
    if s != "" && !IsSpace(s[0]) {
      WordPart(s[1..]);
      assert Word(s) == [s[0]] + Word(s[1..]);
    }
  }

  lemma {:induction false} WordUnique(word: string, rest: string)
    requires NoSpace(word) && (rest != "" ==> IsSpace(rest[0]))
    ensures Word(word + rest) == word
  {
    hide IsSpace;
    if word == "" {
      assert word + rest == rest;
    } else {
      WordUnique(word[1..], rest);
      assert (word + rest)[1..] == word[1..] + rest;
    }
  }

  lemma {:induction false} GapSkipped(gap: string, rest: string)
    requires AllSpace(gap)
    ensures Fields(gap + rest) == Fields(rest)
  {
    hide IsSpace;
    if gap == "" {
      assert gap + rest == rest;
    } else {
      GapSkipped(gap[1..], rest);
      assert (gap + rest)[1..] == gap[1..] + rest;
    }
  }

  /** The fields of a line split it: they are its maximal runs without white space. */
  lemma {:induction false} FieldsSplit(s: string) returns (gaps: seq<string>)
    ensures Splits(s, gaps, Fields(s))
    decreases |s|
  {
    hide IsSpace, Word, Splits;
    if s == "" {
      gaps := [""];
      NothingSplit();
    } else if IsSpace(s[0]) {
      gaps := FieldsSplit(s[1..]);
      SpaceInFront(s, gaps, Fields(s[1..]));
      gaps := [[s[0]] + gaps[0]] + gaps[1..];
    } else {
      WordPart(s);
      var word := Word(s);
      assert word != "";
      gaps := FieldsSplit(s[|word|..]);
      WordInFront(s, word, gaps, Fields(s[|word|..]));
      gaps := [""] + gaps;
    }
  }

  lemma NothingSplit()
    ensures Splits("", [""], [])
  {
  }

  lemma SpaceInFront(s: string, gaps: seq<string>, words: seq<string>)
    requires s != "" && IsSpace(s[0]) && Splits(s[1..], gaps, words)
    ensures |gaps| > 0 && Splits(s, [[s[0]] + gaps[0]] + gaps[1..], words)
  {
    hide IsSpace;
    var more := [[s[0]] + gaps[0]] + gaps[1..];
    WovenMore(s[..1], gaps, words);
    assert s == s[..1] + s[1..] && s[..1] == [s[0]];
    assert gaps[0] in gaps && forall c | c in more[0] :: c == s[0] || c in gaps[0];
    assert AllSpace(more[0]);
    assert forall g | g in more :: g == more[0] || g in gaps;
    assert forall i | 0 < i < |gaps| :: more[i] == gaps[i];
  }

  lemma WordInFront(s: string, word: string, gaps: seq<string>, words: seq<string>)
    requires word != "" && word <= s && NoSpace(word) && (word != s ==> IsSpace(s[|word|]))
    requires Splits(s[|word|..], gaps, words)
    ensures Splits(s, [""] + gaps, [word] + words)
  {
    hide IsSpace, AllSpace;
    var more, all := [""] + gaps, [word] + words;
    assert more[1..] == gaps && all[1..] == words;
    assert s == "" + word + s[|word|..];
    assert Woven(more, all) == "" + word + Woven(gaps, words);
    NoGap();
    if words != [] {
      WovenIsEmpty(gaps, words);
      GapInFront(s[|word|..], gaps, words);
    }
    assert forall i | 0 < i < |all| :: more[i] == gaps[i - 1];
  }

  lemma NoGap()
    ensures AllSpace("")
  {
  }

  // A line with words is not empty.
  lemma WovenIsEmpty(gaps: seq<string>, words: seq<string>)
    requires |gaps| == |words| + 1 && words != [] && words[0] in words && words[0] != ""
    ensures Woven(gaps, words) != ""
  {
  }

  lemma WovenMore(gap: string, gaps: seq<string>, words: seq<string>)
    requires |gaps| == |words| + 1
    ensures Woven([gap + gaps[0]] + gaps[1..], words) == gap + Woven(gaps, words)
  {
    var more := [gap + gaps[0]] + gaps[1..];
    assert more[1..] == gaps[1..];
    if words != [] {
      assert gap + gaps[0] + words[0] + Woven(gaps[1..], words[1..])
          == gap + (gaps[0] + words[0] + Woven(gaps[1..], words[1..]));
    }
  }

  // Without a gap in front, the first word starts the line.
  lemma WovenStarts(gaps: seq<string>, words: seq<string>)
    requires |gaps| == |words| + 1 && words != [] && gaps[0] == "" && words[0] != "" && NoSpace(words[0])
    ensures Woven(gaps, words) != "" && !IsSpace(Woven(gaps, words)[0])
  {
    hide IsSpace;
    assert Woven(gaps, words)[0] == words[0][0];
  }

  lemma GapInFront(s: string, gaps: seq<string>, words: seq<string>)
    requires Splits(s, gaps, words) && words != [] && s != "" && IsSpace(s[0])
    ensures gaps[0] != ""
  {
    hide IsSpace;
    assert words[0] in words;
    if gaps[0] == "" {
      WovenStarts(gaps, words);
    }
  }

  /** And nothing else splits it. */
  lemma {:induction false} FieldsUnique(s: string, gaps: seq<string>, words: seq<string>)
    requires Splits(s, gaps, words)
    ensures Fields(s) == words
    decreases |words|
  {
    hide IsSpace, Fields, Word;
    if words == [] {
      GapSkipped(gaps[0], "");
      assert gaps[0] + "" == s;
      NoFields();
    } else {
      var rest := Woven(gaps[1..], words[1..]);
      assert s == gaps[0] + (words[0] + rest);
      GapSkipped(gaps[0], words[0] + rest);
      RestGap(gaps[1..], words[1..]);
      WordUnique(words[0], rest);
      FieldsFrom(words[0], rest);
      assert forall i | 0 < i < |words[1..]| :: gaps[1..][i] == gaps[i + 1];
      FieldsUnique(rest, gaps[1..], words[1..]);
      assert words == [words[0]] + words[1..];
    }
  }

  lemma NoFields()
    ensures Fields("") == []
  {
  }

  lemma RestGap(gaps: seq<string>, words: seq<string>)
    requires |gaps| == |words| + 1 && AllSpace(gaps[0]) && (words != [] ==> gaps[0] != "")
    ensures Woven(gaps, words) != "" ==> IsSpace(Woven(gaps, words)[0])
  {
    hide IsSpace;
    if gaps[0] != "" {
      assert Woven(gaps, words)[0] == gaps[0][0];
    }
  }

  lemma FieldsFrom(word: string, rest: string)
    requires word != "" && NoSpace(word) && Word(word + rest) == word
    ensures Fields(word + rest) == [word] + Fields(rest)
  {
    hide IsSpace, Word;
    assert !IsSpace((word + rest)[0]);
    assert (word + rest)[|word|..] == rest;
  }

  lemma {:induction false} UpToCut(s: string, stop: char, more: string)
    ensures UpTo(s + [stop] + more, stop) == UpTo(s, stop)
  {
    if s == "" {
      assert "" + [stop] + more == [stop] + more;
    } else {
      UpToCut(s[1..], stop, more);
      assert (s + [stop] + more)[1..] == s[1..] + [stop] + more;
    }
  }

  /** A comment changes nothing about its line. */
  lemma CommentIgnored(text: string, comment: string, st: ParserState)
    ensures ReadLine(text + "#" + comment, st) == ReadLine(text, st)
  {
    UpToCut(text, '#', comment);
    assert text + "#" + comment == text + ['#'] + comment;
  }

  predicate Complete(text: string) {
    text == "" || text[|text| - 1] == '\n'
  }

  lemma {:induction false} UpToIn(s: string, more: string, stop: char)
    requires stop in s
    ensures UpTo(s + more, stop) == UpTo(s, stop) && |UpTo(s, stop)| < |s|
  {
    if s[0] != stop {
      UpToIn(s[1..], more, stop);
      assert (s + more)[1..] == s[1..] + more;
    }
  }

  lemma {:induction false} UpToAll(s: string, stop: char)
    requires stop !in s
    ensures UpTo(s, stop) == s
  {
    if s != "" {
      UpToAll(s[1..], stop);
    }
  }

  // What Next does with the first line of a text that has a line end.
  lemma NextLine(st: ParserState, text: string, rest: string)
    requires text == UpTo(st.rest, '\n') && |text| < |st.rest| && rest == st.rest[|text| + 1..]
    ensures var st' := st.(rest := rest, line := st.line + 1);
      Next(st) == match ReadLine(text, st') case None => Next(st') case Some(r) => r
  {
    hide ReadLine, UpTo;
    assert text != st.rest;
  }

  // Reading goes on alike whatever follows, up to the end of what was there.
  lemma {:induction false} NextExtends(st: ParserState, more: string)
    requires Complete(st.rest)
    ensures Complete(Next(st).1.rest)
    ensures !Next(st).0.Eof? ==>
      Next(st.(rest := st.rest + more)) == (Next(st).0, Next(st).1.(rest := Next(st).1.rest + more))
    ensures Next(st).0.Eof? ==> Next(st).1.line > 0 && Next(st).1 == st.(rest := "", line := Next(st).1.line)
    ensures Next(st).0.Eof? ==>
      Next(st.(rest := st.rest + more)) == Next(st.(rest := more, line := Next(st).1.line - 1))
    decreases |st.rest|
  {
    hide ReadLine, UpTo, Next;
    if st.rest == "" {
      assert "" + more == more;
      NextAtEnd(st);
    } else {
      assert st.rest[|st.rest| - 1] in st.rest;
      UpToIn(st.rest, more, '\n');
      var text := UpTo(st.rest, '\n');
      var rest := st.rest[|text| + 1..];
      var st' := st.(rest := rest, line := st.line + 1);
      assert (st.rest + more)[|text| + 1..] == rest + more;
      NextLine(st, text, rest);
      NextLine(st.(rest := st.rest + more), text, rest + more);
      ReadLineRest(text, st', rest + more);
      CompleteRest(st.rest, |text| + 1);
      if ReadLine(text, st').None? {
        NextExtends(st', more);
        if Next(st').0.Eof? {
          var line := Next(st').1.line - 1;
          assert st'.(rest := more, line := line) == st.(rest := more, line := line);
        }
      }
    }
  }

  lemma NextAtEnd(st: ParserState)
    requires st.rest == ""
    ensures Next(st) == (Eof, st.(line := st.line + 1))
  {
  }

  lemma CompleteRest(text: string, k: nat)
    requires Complete(text) && k <= |text|
    ensures Complete(text[k..])
  {
  }

  lemma ReadLineRest(text: string, st: ParserState, rest: string)
    ensures ReadLine(text, st.(rest := rest)) ==
      if ReadLine(text, st).None? then None
      else Some((ReadLine(text, st).value.0, ReadLine(text, st).value.1.(rest := rest)))
  {
  }

  // The parser when it has read all of a text without an unreadable line.
  function EndState(st: ParserState): ParserState
    decreases |st.rest|
  {
    match Next(st).0
    case Eof => Next(st).1.(line := if Next(st).1.line > 0 then Next(st).1.line - 1 else 0)
    case BadLine(_) => Next(st).1
    case Read(_) => EndState(Next(st).1)
  }

  /** A text that ends with a line end is read to its end, and what follows from there on. */
  lemma {:induction false} StatementsExtend(st: ParserState, more: string)
    requires Complete(st.rest)
    ensures !Statements(st).1 ==> Statements(st.(rest := st.rest + more)) == Statements(st)
    ensures Statements(st).1 ==>
      var (rest, ok) := Statements(EndState(st).(rest := more));
      Statements(st.(rest := st.rest + more)) == (Statements(st).0 + rest, ok)
    ensures Statements(st).1 && Statements(st).0 == [] ==>
      EndState(st).sectionType == st.sectionType && EndState(st).sectionName == st.sectionName
    decreases |st.rest|
  {
    hide Next, Statements;
    NextExtends(st, more);
    StatementsStep(st);
    StatementsStep(st.(rest := st.rest + more));
    match Next(st).0
    case Read(stmt) =>
      var next := Next(st).1;
      StatementsExtend(next, more);
      var rest := Statements(EndState(next).(rest := more)).0;
      assert [stmt] + (Statements(next).0 + rest) == [stmt] + Statements(next).0 + rest;
    case Eof =>
      var end := st.(rest := more, line := Next(st).1.line - 1);
      assert EndState(st).(rest := more) == end;
      StatementsStep(end);
      assert [] + Statements(end).0 == Statements(end).0;
    case BadLine(_) =>
  }

  /** What follows the last line end is not read, whatever it says. */
  lemma UnterminatedLineIgnored(st: ParserState, last: string)
    requires Complete(st.rest) && '\n' !in last
    ensures Statements(st.(rest := st.rest + last)) == Statements(st)
  {
    hide Statements;
    StatementsExtend(st, last);
    var end := EndState(st).(rest := last);
    NothingRead(end);
    assert Statements(st).0 + [] == Statements(st).0;
  }

  lemma NothingRead(st: ParserState)
    requires '\n' !in st.rest
    ensures Statements(st) == ([], true)
  {
    UpToAll(st.rest, '\n');
  }

  class Parser {
    var rest: string
    var line: nat
    var sectionType: string
    var sectionName: string

    constructor (text: string)
      ensures State() == ParserState(text, 0, "", "")
    {
      rest, line, sectionType, sectionName := text, 0, "", "";
    }

    function State(): ParserState
      reads this
    {
      ParserState(rest, line, sectionType, sectionName)
    }

    method ReadStatement() returns (r: ReadResult)
      modifies this
      ensures (r, State()) == Next(old(State()))
    {
      while true
        invariant Next(State()) == Next(old(State()))
        decreases |rest|
      {
        hide ReadLine, UpTo, Fields;
        var text := UpTo(rest, '\n');
        line := line + 1;
        if text == rest {
          return Eof;
        }
        rest := rest[|text| + 1..];
        var read := ReadLine(text, State());
        if read.Some? {
          sectionType, sectionName := read.value.1.sectionType, read.value.1.sectionName;
          line := read.value.1.line;
          return read.value.0;
        }
      }
    }
  }

  function Start(text: string): ParserState {
    ParserState(text, 0, "", "")
  }

  lemma StatementsStep(st: ParserState)
    ensures var (r, st') := Next(st);
      Statements(st) == match r
        case Eof => ([], true)
        case BadLine(_) => ([], false)
        case Read(stmt) => ([stmt] + Statements(st').0, Statements(st').1)
  {
  }

  lemma NextShorter(st: ParserState)
    requires Next(st).0.Read?
    ensures |Next(st).1.rest| < |st.rest|
  {
  }

  // The same statements, but for the numbers of their lines.
  ghost predicate Alike(a: seq<Statement>, b: seq<Statement>) {
    |a| == |b| && forall i | 0 <= i < |a| :: a[i] == b[i].(line := a[i].line)
  }

  lemma {:induction false} NextAlike(st: ParserState, line: nat)
    ensures var (r, end) := Next(st);
      var (r', end') := Next(st.(line := line));
      && end == end'.(line := end.line)
      && match r
         case Eof => r' == Eof
         case BadLine(_) => r'.BadLine?
         case Read(stmt) => r'.Read? && r'.stmt == stmt.(line := r'.stmt.line)
    decreases |st.rest|
  {
    hide ReadLine, UpTo, Next;
    var text := UpTo(st.rest, '\n');
    if text == st.rest {
      NextNone(st);
      NextNone(st.(line := line));
    } else {
      var rest := st.rest[|text| + 1..];
      var st' := st.(rest := rest, line := st.line + 1);
      NextLine(st, text, rest);
      NextLine(st.(line := line), text, rest);
      ReadLineAlike(text, st', line + 1);
      assert st'.(line := line + 1) == st.(line := line).(rest := rest, line := line + 1);
      if ReadLine(text, st').None? {
        NextAlike(st', line + 1);
      }
    }
  }

  lemma NextNone(st: ParserState)
    requires UpTo(st.rest, '\n') == st.rest
    ensures Next(st) == (Eof, st.(line := st.line + 1))
  {
  }

  lemma ReadLineAlike(text: string, st: ParserState, line: nat)
    ensures var r, r' := ReadLine(text, st), ReadLine(text, st.(line := line));
      && (r.None? <==> r'.None?)
      && (r.Some? ==> r.value.1 == r'.value.1.(line := r.value.1.line))
      && (r.Some? && r.value.0.BadLine? ==> r'.value.0.BadLine?)
      && (r.Some? && r.value.0.Read? ==>
            r'.value.0.Read? && r'.value.0.stmt == r.value.0.stmt.(line := r'.value.0.stmt.line))
  {
    hide Fields, UpTo;
  }

  lemma {:induction false} LinesAlike(st: ParserState, line: nat)
    ensures Alike(Statements(st.(line := line)).0, Statements(st).0)
    ensures Statements(st.(line := line)).1 == Statements(st).1
    decreases |st.rest|
  {
    hide Next;
    NextAlike(st, line);
    if Next(st).0.Read? {
      var next, next' := Next(st).1, Next(st.(line := line)).1;
      assert next' == next.(line := next'.line);
      LinesAlike(next, next'.line);
    }
  }

  // A line of a section: it starts with a blank, and these are its fields once its comment is off.
  ghost predicate SaysInSection(line: string, word: string, args: seq<string>) {
    && line != "" && (line[0] == ' ' || line[0] == '\t') && '\n' !in line
    && Fields(UpTo(line, '#')) == [word] + args
  }

  lemma LineRead(st: ParserState, line: string, rest: string, word: string, args: seq<string>)
    requires SaysInSection(line, word, args) && st.sectionType != "" && st.rest == line + "\n" + rest
    ensures var stmt := Statement(st.sectionType, st.sectionName, word, args, st.line + 1);
      Next(st) == (Read(stmt), st.(rest := rest, line := st.line + 1))
  {
    hide Fields, ReadLine;
    UpToCut(line, '\n', rest);
    assert st.rest == line + ['\n'] + rest;
    UpToAll(line, '\n');
    assert st.rest[|line| + 1..] == rest;
    NextLine(st, line, rest);
    SectionLine(line, st.(rest := rest, line := st.line + 1), word, args);
  }

  lemma SectionLine(line: string, st: ParserState, word: string, args: seq<string>)
    requires SaysInSection(line, word, args) && st.sectionType != ""
    ensures ReadLine(line, st) == Some((Read(Statement(st.sectionType, st.sectionName, word, args, st.line)), st))
  {
    var cut := UpTo(line, '#');
    assert cut != "" && cut[0] == line[0];
  }

  // A statement with this section's type and name is the last one read, if any was.
  lemma {:induction false} LastSection(st: ParserState)
    requires Statements(st).1 && Statements(st).0 != []
    ensures var stmts := Statements(st).0;
      && stmts[|stmts| - 1].sectionType == EndState(st).sectionType
      && stmts[|stmts| - 1].sectionName == EndState(st).sectionName
    decreases |st.rest|
  {
    hide Next, Statements;
    StatementsStep(st);
    NextSection(st);
    var next := Next(st).1;
    if Statements(next).0 == [] {
      NothingMore(next);
    } else {
      LastSection(next);
    }
  }

  lemma {:induction false} NextSection(st: ParserState)
    ensures Next(st).0.Read? ==>
      Next(st).0.stmt.sectionType == Next(st).1.sectionType && Next(st).0.stmt.sectionName == Next(st).1.sectionName
    ensures Next(st).0.Eof? ==>
      Next(st).1.sectionType == st.sectionType && Next(st).1.sectionName == st.sectionName
    decreases |st.rest|
  {
    hide ReadLine, UpTo, Next;
    var text := UpTo(st.rest, '\n');
    if text == st.rest {
      NextNone(st);
    } else {
      var rest := st.rest[|text| + 1..];
      var st' := st.(rest := rest, line := st.line + 1);
      NextLine(st, text, rest);
      ReadLineSection(text, st');
      if ReadLine(text, st').None? {
        NextSection(st');
      }
    }
  }

  lemma ReadLineSection(text: string, st: ParserState)
    ensures var r := ReadLine(text, st);
      r.Some? && r.value.0.Read? ==>
        r.value.0.stmt.sectionType == r.value.1.sectionType && r.value.0.stmt.sectionName == r.value.1.sectionName
  {
    hide Fields, UpTo;
  }

  lemma NothingMore(st: ParserState)
    requires Statements(st) == ([], true)
    ensures EndState(st).sectionType == st.sectionType && EndState(st).sectionName == st.sectionName
  {
    hide Next;
    NextSection(st);
  }

  /** Inserting such a line inserts its statement, and nothing else changes but the numbers of later lines. */
  lemma LineInserted(before: string, line: string, after: string, word: string, args: seq<string>)
    returns (a: seq<Statement>, stmt: Statement, b: seq<Statement>, ok: bool)
    requires Complete(before) && SaysInSection(line, word, args)
    requires Statements(Start(before)).1 && EndState(Start(before)).sectionType != ""
    ensures a == Statements(Start(before)).0 && a != []
    ensures stmt == Statement(a[|a| - 1].sectionType, a[|a| - 1].sectionName, word, args, stmt.line)
    ensures Statements(Start(before + after)) == (a + b, ok)
    ensures Alike(Statements(Start(before + line + "\n" + after)).0, a + [stmt] + b)
    ensures Statements(Start(before + line + "\n" + after)).1 == ok
  {
    hide Next, Statements, EndState;
    var st := Start(before);
    StatementsExtend(st, after);
    StatementsExtend(st, line + "\n" + after);
    assert before + (line + "\n" + after) == before + line + "\n" + after;
    var end := EndState(st);
    a, b, ok := Statements(st).0, Statements(end.(rest := after)).0, Statements(end.(rest := after)).1;
    if a != [] {
      LastSection(st);
    }
    var there := end.(rest := line + "\n" + after);
    LineRead(there, line, after, word, args);
    stmt := Next(there).0.stmt;
    StatementsStep(there);
    LinesAlike(end.(rest := after), end.line + 1);
    var b' := Statements(Next(there).1).0;
    assert Statements(Start(before + line + "\n" + after)).0 == a + ([stmt] + b');
    AlikeSums(a, stmt, b', b);
  }

  lemma AlikeSums(a: seq<Statement>, stmt: Statement, b: seq<Statement>, b': seq<Statement>)
    requires Alike(b, b')
    ensures Alike(a + ([stmt] + b), a + [stmt] + b')
  {
  }

  lemma LastSectionType(before: string)
    requires Statements(Start(before)).1
    ensures var a := Statements(Start(before)).0;
      a != [] ==> a[|a| - 1].sectionType == EndState(Start(before)).sectionType
  {
    hide Statements, EndState;
    if Statements(Start(before)).0 != [] {
      LastSection(Start(before));
    }
  }

  lemma SplitInTwo(gap: string, a: string, b: string)
    requires AllSpace(gap) && a != "" && NoSpace(a) && b != "" && NoSpace(b)
    ensures Fields(gap + a + " " + b) == [a, b]
  {
    hide Fields;
    var gaps, words := [gap, " ", ""], [a, b];
    assert gaps[1..] == [" ", ""] && gaps[1..][1..] == [""] && words[1..] == [b] && words[1..][1..] == [];
    assert Woven([""], []) == "" && Woven([" ", ""], [b]) == " " + b;
    assert gap + a + (" " + b) == gap + a + " " + b;
    FieldsUnique(gap + a + " " + b, gaps, words);
  }

  lemma OneGroup()
    ensures Statements(Start("group a\n")) == ([Statement("group", "a", "", [], 1)], true)
    ensures EndState(Start("group a\n")).sectionType == "group"
  {
    hide Fields, UpTo, Next;
    var st := Start("group a\n");
    SplitInTwo("", "group", "a");
    assert "" + "group" + " " + "a" == "group a";
    UpToAll("group a", '#');
    UpToAll("group a", '\n');
    UpToCut("group a", '\n', "");
    assert "group a" + ['\n'] + "" == "group a\n";
    var rest := st.rest[|"group a"| + 1..];
    assert rest == "";
    NextLine(st, "group a", rest);
    var stmt := Statement("group", "a", "", [], 1);
    var end := ParserState("", 1, "group", "a");
    assert Next(st) == (Read(stmt), end);
    NextAtEnd(end);
    assert Statements(end) == ([], true) && [stmt] + [] == [stmt];
  }
}
