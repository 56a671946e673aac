/** The configuration file parser (`ini.c`), with multi-line values and the byte order mark enabled. */
module Ini {
  import opened Wrappers

  const MAX_LINE := 200
  const MAX_SECTION := 50
  const MAX_NAME := 50
  const NUL: char := 0 as char

  /** `isspace` */
  predicate IsSpace(c: char) { c == ' ' || 9 <= c as int <= 13 }

  // ---- Strings ----

  /** `rstrip` */
  function RStrip(s: string): (r: string)
    ensures |r| <= |s|
  {
    if s != [] && IsSpace(s[|s| - 1]) then RStrip(s[..|s| - 1]) else s
  }

  /** `lskip` */
  function LSkip(s: string): (r: string)
    ensures |r| <= |s|
  {
    if s != [] && IsSpace(s[0]) then LSkip(s[1..]) else s
  }

  /** `find_char_or_comment`: the position of the first `c` or of a comment, or the end. */
  predicate StopsAt(s: string, c: char, i: nat)
    requires i < |s|
  {
    s[i] == c || (s[i] == ';' && i > 0 && IsSpace(s[i - 1]))
  }

  function FindFrom(s: string, c: char, i: nat): (n: nat)
    requires i <= |s|
    ensures i <= n <= |s|
    decreases |s| - i
  {
    if i == |s| || StopsAt(s, c, i) then i else FindFrom(s, c, i + 1)
  }

  function Find(s: string, c: char): (n: nat)
    ensures n <= |s|
  {
    FindFrom(s, c, 0)
  }

  /** `strncpy0` */
  function Clipped(s: string, size: nat): string
    requires size > 0
  {
    if |s| < size then s else s[..size - 1]
  }

  /** The string in a buffer: up to the first NUL. */
  function UpToNul(s: string): string {
    if s == [] || s[0] == NUL then [] else [s[0]] + UpToNul(s[1..])
  }

  // ---- One line ----

  /** A call of the handler. */
  datatype Call = Call(section: string, name: string, value: string)

  /** What a line is. */
  datatype Line =
    | Nothing
    | Heading(section: string)
    | Pair(name: string, value: string)
    | Continued(value: string)
    | Bad

  predicate HasMark(line: string) {
    |line| >= 3 && line[0] as int == 0xEF && line[1] as int == 0xBB && line[2] as int == 0xBF
  }

  /** The value without its comment. */
  function ValueOf(text: string): string {
    var value := LSkip(text);
    RStrip(value[..Find(value, NUL)])
  }

  /** Where the name ends: at the first equals sign, or else at the first colon. */
  function DelimiterOf(start: string): (n: nat)
    ensures n <= |start|
  {
    var e := Find(start, '=');
    if e < |start| && start[e] == '=' then e else Find(start, ':')
  }

  /** A line that is neither blank nor a comment nor a continuation. */
  function EntryOf(start: string): Line
    requires start != []
  {
    if start[0] == '[' then
      var n := Find(start[1..], ']');
      if n < |start[1..]| && start[1..][n] == ']' then Heading(start[1..][..n]) else Bad
    else
      var n := DelimiterOf(start);
      if n < |start| && (start[n] == '=' || start[n] == ':') then Pair(RStrip(start[..n]), ValueOf(start[n + 1..]))
      else Bad
  }

  /** A line from its first visible character on. */
  function TrimmedLine(start: string, indented: bool, prevName: string): Line {
    if start == [] || start[0] == ';' || start[0] == '#' then Nothing
    else if prevName != [] && indented then Continued(start)
    else EntryOf(start)
  }

  /** `line` without its terminating NUL; a line counts as indented if it starts with white space or the mark. */
  function LineOf(line: string, first: bool, prevName: string): Line {
    var text := if first && HasMark(line) then line[3..] else line;
    var start := LSkip(RStrip(text));
    TrimmedLine(start, (first && HasMark(line)) || |start| < |RStrip(text)|, prevName)
  }

  // ---- The file ----

  datatype Parser = Parser(section: string, prevName: string, lineno: nat, error: nat, calls: seq<Call>)

  /** The call that a line leads to. */
  function CallFor(p: Parser, line: Line): Option<Call> {
    match line
    case Pair(name, value) => Some(Call(p.section, name, value))
    case Continued(value) => Some(Call(p.section, p.prevName, value))
    case _ => None
  }

  predicate IsBad(p: Parser, line: Line, handler: Call -> bool) {
    line.Bad? || (CallFor(p, line).Some? && !handler(CallFor(p, line).value))
  }

  /** The state after a line; only the first bad line is remembered. */
  function Handled(p: Parser, line: Line, handler: Call -> bool): Parser {
    var call := CallFor(p, line);
    Parser(
      if line.Heading? then Clipped(line.section, MAX_SECTION) else p.section,
      if line.Heading? then [] else if line.Pair? then Clipped(line.name, MAX_NAME) else p.prevName,
      p.lineno + 1,
      if IsBad(p, line, handler) && p.error == 0 then p.lineno + 1 else p.error,
      if call.Some? then p.calls + [call.value] else p.calls)
  }

  function OnLine(p: Parser, text: string, handler: Call -> bool): Parser {
    Handled(p, LineOf(UpToNul(text), p.lineno == 0, p.prevName), handler)
  }

  /** The number of characters that `fgets` takes: through the next newline, but no more than the buffer holds. */
  function TakenFrom(content: string, n: nat): (m: nat)
    requires n <= |content| && n < MAX_LINE
    ensures n <= m <= |content| && m < MAX_LINE && (n == 0 && content != [] ==> m > 0)
    decreases MAX_LINE - n
  {
    if n == |content| || n == MAX_LINE - 1 then n
    else if content[n] == '\n' then n + 1
    else TakenFrom(content, n + 1)
  }

  function Taken(content: string): (m: nat)
    ensures m <= |content| && m < MAX_LINE && (content != [] ==> m > 0)
  {
    TakenFrom(content, 0)
  }

  function ParseFrom(p: Parser, content: string, handler: Call -> bool): Parser
    decreases |content|
  {
    if content == [] then p
    else ParseFrom(OnLine(p, content[..Taken(content)], handler), content[Taken(content)..], handler)
  }

  const START := Parser([], [], 0, 0, [])

  function Parse(content: string, handler: Call -> bool): Parser { ParseFrom(START, content, handler) }

  // ---- The error ----

  /** The state before line `n`, and the number of lines, along the file. */
  function LineTexts(content: string): seq<string>
    decreases |content|
  {
    if content == [] then [] else [content[..Taken(content)]] + LineTexts(content[Taken(content)..])
  }

  function Run(p: Parser, texts: seq<string>, handler: Call -> bool): Parser {
    if texts == [] then p else OnLine(Run(p, texts[..|texts| - 1], handler), texts[|texts| - 1], handler)
  }

  lemma {:induction false} RunCons(p: Parser, text: string, texts: seq<string>, handler: Call -> bool)
    ensures Run(p, [text] + texts, handler) == Run(OnLine(p, text, handler), texts, handler)
    decreases texts
  {
    if texts == [] {
      assert [text] + texts == [text];
    } else {
      var all, n := [text] + texts, |texts|;
      assert all[..n] == [text] + texts[..n - 1];
      RunCons(p, text, texts[..n - 1], handler);
    }
  }

  lemma {:induction false} ParseIsRun(p: Parser, content: string, handler: Call -> bool)
    ensures ParseFrom(p, content, handler) == Run(p, LineTexts(content), handler)
    decreases |content|
  {
    if content != [] {
      var n := Taken(content);
      ParseIsRun(OnLine(p, content[..n], handler), content[n..], handler);
      RunCons(p, content[..n], LineTexts(content[n..]), handler);
    }
  }

  /** Line `n` (from 0) is bad. */
  predicate BadLine(texts: seq<string>, n: nat, handler: Call -> bool)
    requires n < |texts|
  {
    var p := Run(START, texts[..n], handler);
    IsBad(p, LineOf(UpToNul(texts[n]), n == 0, p.prevName), handler)
  }

  function BadLines(texts: seq<string>, handler: Call -> bool): seq<bool> {
    seq(|texts|, n requires 0 <= n < |texts| => BadLine(texts, n, handler))
  }

  /** `error` is the number of the first bad line, or 0 if there is none. */
  predicate FirstBad(bad: seq<bool>, error: nat) {
    && error <= |bad|
    && (error > 0 ==> bad[error - 1])
    && forall n: nat | n < (if error == 0 then |bad| else error - 1) :: !bad[n]
  }

  lemma BadBefore(texts: seq<string>, handler: Call -> bool)
    requires texts != []
    ensures BadLines(texts, handler) ==
            BadLines(texts[..|texts| - 1], handler) + [BadLine(texts, |texts| - 1, handler)]
  {
    var before := texts[..|texts| - 1];
    forall n: nat | n < |before| ensures BadLine(texts, n, handler) == BadLine(before, n, handler) {
      assert before[..n] == texts[..n];
    }
  }

  lemma {:induction false} RunLines(texts: seq<string>, handler: Call -> bool)
    ensures Run(START, texts, handler).lineno == |texts|
    decreases texts
  {
    if texts != [] {
      RunLines(texts[..|texts| - 1], handler);
    }
  }

  lemma RunLast(texts: seq<string>, handler: Call -> bool)
    requires texts != []
    ensures var before := Run(START, texts[..|texts| - 1], handler).error;
            Run(START, texts, handler).error ==
            if BadLine(texts, |texts| - 1, handler) && before == 0 then |texts| else before
  {
    RunLines(texts[..|texts| - 1], handler);
  }

  lemma FirstBadNext(before: seq<bool>, bad: bool, error: nat)
    requires FirstBad(before, error)
    ensures FirstBad(before + [bad], if bad && error == 0 then |before| + 1 else error)
  {
  }

  lemma {:induction false} RunError(texts: seq<string>, handler: Call -> bool)
    ensures FirstBad(BadLines(texts, handler), Run(START, texts, handler).error)
    decreases texts
  {
    if texts != [] {
      var before, bad := texts[..|texts| - 1], BadLine(texts, |texts| - 1, handler);
      RunError(before, handler);
      BadBefore(texts, handler);
      RunLast(texts, handler);
      FirstBadNext(BadLines(before, handler), bad, Run(START, before, handler).error);
    }
  }

  /** The result of the parser. */
  lemma ErrorIsFirstBadLine(content: string, handler: Call -> bool)
    ensures FirstBad(BadLines(LineTexts(content), handler), Parse(content, handler).error)
  {
    ParseIsRun(START, content, handler);
    RunError(LineTexts(content), handler);
  }

  // ---- Round trip ----

  datatype Entry = Entry(name: string, value: string)

  datatype Section = Section(name: string, entries: seq<Entry>)

  function EntryLine(e: Entry): string { e.name + ("=" + e.value) }

  function RenderEntries(entries: seq<Entry>): string {
    if entries == [] then ""
    else EntryLine(entries[0]) + ("\n" + RenderEntries(entries[1..]))
  }

  function RenderFrom(sections: seq<Section>): string {
    if sections == [] then ""
    else "[" + sections[0].name + "]" + ("\n" + (RenderEntries(sections[0].entries) + RenderFrom(sections[1..])))
  }

  function CallsOf(section: string, entries: seq<Entry>): seq<Call> {
    if entries == [] then []
    else [Call(section, entries[0].name, entries[0].value)] + CallsOf(section, entries[1..])
  }

  function AllCalls(sections: seq<Section>): seq<Call> {
    if sections == [] then [] else CallsOf(sections[0].name, sections[0].entries) + AllCalls(sections[1..])
  }

  /** No line break, no NUL, and no comment inside. */
  predicate Text(s: string) {
    && (forall c <- s :: c != '\n' && c != NUL)
    && (forall i | 0 < i < |s| :: !(s[i] == ';' && IsSpace(s[i - 1])))
  }

  /** White space neither at the front nor at the end. */
  predicate Trimmed(s: string) { s != [] ==> !IsSpace(s[0]) && !IsSpace(s[|s| - 1]) }

  predicate PlainEntry(e: Entry) {
    && Text(e.name) && Trimmed(e.name) && '=' !in e.name
    && (e.name != [] ==> e.name[0] != ';' && e.name[0] != '#' && e.name[0] != '[')
    && Text(e.value) && Trimmed(e.value)
    && |e.name| + |e.value| + 2 < MAX_LINE
  }

  predicate PlainSection(s: Section) {
    Text(s.name) && ']' !in s.name && |s.name| < MAX_SECTION && forall e <- s.entries :: PlainEntry(e)
  }

  lemma {:induction false} TakenLine(line: string, rest: string, n: nat)
    requires '\n' !in line && n <= |line| && |line| + 1 < MAX_LINE
    ensures TakenFrom(line + ("\n" + rest), n) == |line| + 1
    decreases |line| - n
  {
    if n < |line| {
      assert (line + ("\n" + rest))[n] == line[n];
      TakenLine(line, rest, n + 1);
    }
  }

  lemma {:induction false} NoNul(s: string)
    requires NUL !in s
    ensures UpToNul(s) == s
  {
    if s != [] {
      assert s[0] in s;
      NoNul(s[1..]);
    }
  }

  /** A line that starts and ends with a visible character loses its line break only. */
  lemma Stripped(line: string)
    requires line != [] && Trimmed(line)
    ensures LSkip(RStrip(line + "\n")) == line && RStrip(line + "\n") == line
  {
    assert (line + "\n")[..|line|] == line;
  }

  lemma {:induction false} FindStops(s: string, c: char, i: nat)
    requires i <= |s|
    ensures FindFrom(s, c, i) < |s| ==> StopsAt(s, c, FindFrom(s, c, i))
    decreases |s| - i
  {
    if i < |s| && !StopsAt(s, c, i) {
      FindStops(s, c, i + 1);
    }
  }

  lemma FirstStop(s: string, c: char, n: nat)
    requires n <= |s| && (n < |s| ==> StopsAt(s, c, n)) && forall j: nat | j < n :: !StopsAt(s, c, j)
    ensures Find(s, c) == n
  {
    FirstStopFrom(s, c, 0, n);
  }

  lemma {:induction false} FirstStopFrom(s: string, c: char, i: nat, n: nat)
    requires i <= n <= |s| && (n < |s| ==> StopsAt(s, c, n)) && forall j: nat | i <= j < n :: !StopsAt(s, c, j)
    ensures FindFrom(s, c, i) == n
    decreases n - i
  {
    if i < n {
      FirstStopFrom(s, c, i + 1, n);
    }
  }

  /** A heading line. */
  lemma HeadingIs(name: string, first: bool, prevName: string)
    requires Text(name) && ']' !in name
    ensures LineOf("[" + name + "]\n", first, prevName) == Heading(name)
  {
    var line := "[" + name + "]";
    assert "[" + name + "]\n" == line + "\n";
    Stripped(line);
    var rest := name + "]";
    assert line[1..] == rest;
    forall j: nat | j < |name| ensures !StopsAt(rest, ']', j) {
      assert rest[j] == name[j] && rest[j] in name;
    }
    FirstStop(rest, ']', |name|);
    assert rest[..|name|] == name;
  }

  lemma EqualsAt(name: string, after: string)
    requires Text(name) && '=' !in name
    ensures Find(name + ("=" + after), '=') == |name|
  {
    var line := name + ("=" + after);
    forall j: nat | j < |name| ensures !StopsAt(line, '=', j) {
      assert line[j] == name[j] && line[j] in name;
    }
    FirstStop(line, '=', |name|);
  }

  /** A name and a value. */
  lemma EntryIs(e: Entry)
    requires PlainEntry(e)
    ensures EntryOf(EntryLine(e)) == Pair(e.name, e.value)
  {
    var line := e.name + ("=" + e.value);
    EqualsAt(e.name, e.value);
    assert line[..|e.name|] == e.name && line[|e.name| + 1..] == e.value;
    Untouched(e.name);
    ValueIs(e.value);
  }

  lemma EntryLineIs(e: Entry, prevName: string)
    requires PlainEntry(e)
    ensures LineOf(EntryLine(e) + "\n", false, prevName) == Pair(e.name, e.value)
  {
    var line := EntryLine(e);
    assert line[0] == if e.name == [] then '=' else e.name[0];
    assert line[|line| - 1] == if e.value == [] then '=' else e.value[|e.value| - 1];
    Stripped(line);
    EntryIs(e);
  }

  lemma Untouched(s: string)
    requires Trimmed(s)
    ensures RStrip(s) == s && LSkip(s) == s
  {
  }

  lemma ValueIs(value: string)
    requires Text(value) && Trimmed(value)
    ensures ValueOf(value) == value
  {
    Untouched(value);
    forall j: nat | j < |value| ensures !StopsAt(value, NUL, j) {
      assert value[j] in value;
    }
    FirstStop(value, NUL, |value|);
    assert value[..|value|] == value;
  }

  /** Parsing `s` from `p` comes to the same as parsing `s'` from `p'`. */
  predicate SameEnd(p: Parser, s: string, p': Parser, s': string, handler: Call -> bool) {
    ParseFrom(p, s, handler) == ParseFrom(p', s', handler)
  }

  lemma SameEndThen(p: Parser, s: string, p1: Parser, s1: string, p2: Parser, s2: string, handler: Call -> bool)
    requires SameEnd(p, s, p1, s1, handler) && SameEnd(p1, s1, p2, s2, handler)
    ensures SameEnd(p, s, p2, s2, handler)
  {
  }

  /** One rendered line, whatever follows it. */
  lemma LineParses(p: Parser, line: string, rest: string, handler: Call -> bool)
    requires '\n' !in line && NUL !in line && |line| + 1 < MAX_LINE
    ensures UpToNul(line + "\n") == line + "\n"
    ensures SameEnd(p, line + ("\n" + rest), OnLine(p, line + "\n", handler), rest, handler)
  {
    NoNul(line + "\n");
    LineTaken(line, rest);
    FirstLine(p, line + ("\n" + rest), line + "\n", rest, handler);
  }

  lemma LineTaken(line: string, rest: string)
    requires '\n' !in line && |line| + 1 < MAX_LINE
    ensures var content := line + ("\n" + rest);
            && Taken(content) == |line + "\n"| <= |content|
            && content[..|line + "\n"|] == line + "\n" && content[|line + "\n"|..] == rest
  {
    TakenLine(line, rest, 0);
  }

  /** The parser goes on after its first line. */
  lemma FirstLine(p: Parser, content: string, line: string, rest: string, handler: Call -> bool)
    requires content != [] && Taken(content) == |line| <= |content|
    requires content[..|line|] == line && content[|line|..] == rest
    ensures SameEnd(p, content, OnLine(p, line, handler), rest, handler)
  {
  }

  lemma EntryText(e: Entry)
    requires PlainEntry(e)
    ensures var line := EntryLine(e); '\n' !in line && NUL !in line && |line| + 1 < MAX_LINE
  {
    assert forall c <- e.name + ("=" + e.value) :: c in e.name || c == '=' || c in e.value;
  }

  lemma HeadingText(name: string)
    requires Text(name) && |name| < MAX_SECTION
    ensures var line := "[" + name + "]"; '\n' !in line && NUL !in line && |line| + 1 < MAX_LINE
  {
    assert forall c <- "[" + name + "]" :: c == '[' || c in name || c == ']';
  }

  predicate Accepts(handler: Call -> bool, calls: seq<Call>) { forall c <- calls :: handler(c) }

  /** The calls that lie between two states, and whether they let the error stay 0. */
  predicate Leads(p: Parser, calls: seq<Call>, p': Parser, handler: Call -> bool) {
    p'.calls == p.calls + calls && (p'.error == 0 <==> p.error == 0 && Accepts(handler, calls))
  }

  /** What a rendered entry does. */
  lemma EntryCalls(p: Parser, e: Entry, handler: Call -> bool)
    requires p.lineno > 0 && PlainEntry(e)
    ensures var next := OnLine(p, EntryLine(e) + "\n", handler);
            && Leads(p, [Call(p.section, e.name, e.value)], next, handler)
            && next.section == p.section && next.lineno > 0
  {
    EntryText(e);
    NoNul(EntryLine(e) + "\n");
    EntryLineIs(e, p.prevName);
    PairLeads(p, e.name, e.value, handler);
    assert OnLine(p, EntryLine(e) + "\n", handler) == Handled(p, Pair(e.name, e.value), handler);
  }

  lemma PairLeads(p: Parser, name: string, value: string, handler: Call -> bool)
    ensures var next := Handled(p, Pair(name, value), handler);
            Leads(p, [Call(p.section, name, value)], next, handler) && next.section == p.section && next.lineno > 0
  {
  }

  /** A rendered heading names the section. */
  lemma HeadingCalls(p: Parser, name: string, handler: Call -> bool)
    requires Text(name) && ']' !in name && |name| < MAX_SECTION
    ensures var next := OnLine(p, "[" + name + "]" + "\n", handler);
            Leads(p, [], next, handler) && next.section == name && next.lineno > 0
  {
    var line := "[" + name + "]";
    HeadingText(name);
    NoNul(line + "\n");
    assert line + "\n" == "[" + name + "]\n";
    HeadingIs(name, p.lineno == 0, p.prevName);
  }

  /** The state after the lines of some entries. */
  function AfterEntries(p: Parser, entries: seq<Entry>, handler: Call -> bool): Parser
    decreases entries
  {
    if entries == [] then p else AfterEntries(OnLine(p, EntryLine(entries[0]) + "\n", handler), entries[1..], handler)
  }

  function AfterSections(p: Parser, sections: seq<Section>, handler: Call -> bool): Parser
    decreases sections
  {
    if sections == [] then p
    else
      var headed := OnLine(p, "[" + sections[0].name + "]" + "\n", handler);
      AfterSections(AfterEntries(headed, sections[0].entries, handler), sections[1..], handler)
  }

  /** `fgets` cuts the rendered entries into those lines. */
  lemma {:induction false} EntriesLines(p: Parser, entries: seq<Entry>, rest: string, handler: Call -> bool)
    requires forall i | 0 <= i < |entries| :: PlainEntry(entries[i])
    ensures SameEnd(p, RenderEntries(entries) + rest, AfterEntries(p, entries, handler), rest, handler)
    decreases entries
  {
    if entries == [] {
      assert RenderEntries(entries) + rest == rest;
    } else {
      var e, others := entries[0], entries[1..];
      var after := RenderEntries(others) + rest;
      var next := OnLine(p, EntryLine(e) + "\n", handler);
      RenderSplit(entries, rest);
      EntryText(e);
      LineParses(p, EntryLine(e), after, handler);
      EntriesLines(next, others, rest, handler);
      SameEndThen(p, RenderEntries(entries) + rest, next, after, AfterEntries(next, others, handler), rest, handler);
    }
  }

  lemma RenderSplit(entries: seq<Entry>, rest: string)
    requires entries != []
    ensures RenderEntries(entries) + rest ==
            EntryLine(entries[0]) + ("\n" + (RenderEntries(entries[1..]) + rest))
  {
  }

  lemma {:induction false} SectionsLines(p: Parser, sections: seq<Section>, handler: Call -> bool)
    requires forall i | 0 <= i < |sections| :: PlainSection(sections[i])
    ensures SameEnd(p, RenderFrom(sections), AfterSections(p, sections, handler), "", handler)
    decreases sections
  {
    if sections != [] {
      var s, others := sections[0], sections[1..];
      var line, after := "[" + s.name + "]", RenderEntries(s.entries) + RenderFrom(others);
      var headed := OnLine(p, line + "\n", handler);
      var done := AfterEntries(headed, s.entries, handler);
      PlainEntries(s);
      HeadingText(s.name);
      LineParses(p, line, after, handler);
      EntriesLines(headed, s.entries, RenderFrom(others), handler);
      SectionsLines(done, others, handler);
      SameEndThen(p, RenderFrom(sections), headed, after, done, RenderFrom(others), handler);
      SameEndThen(p, RenderFrom(sections), done, RenderFrom(others), AfterSections(done, others, handler), "", handler);
    }
  }

  lemma LeadsOn(p: Parser, calls: seq<Call>, q: Parser, more: seq<Call>, r: Parser, handler: Call -> bool)
    requires Leads(p, calls, q, handler) && Leads(q, more, r, handler)
    ensures Leads(p, calls + more, r, handler)
  {
    assert forall c :: c in calls + more <==> c in calls || c in more;
  }

  lemma {:induction false} EntriesCalls(p: Parser, entries: seq<Entry>, handler: Call -> bool)
    requires p.lineno > 0 && forall i | 0 <= i < |entries| :: PlainEntry(entries[i])
    ensures Leads(p, CallsOf(p.section, entries), AfterEntries(p, entries, handler), handler)
    decreases entries
  {
    if entries != [] {
      var e, others := entries[0], entries[1..];
      EntryCalls(p, e, handler);
      var next := OnLine(p, EntryLine(e) + "\n", handler);
      EntriesCalls(next, others, handler);
      LeadsOn(p, [Call(p.section, e.name, e.value)], next, CallsOf(p.section, others),
              AfterEntries(p, entries, handler), handler);
    }
  }

  lemma {:induction false} SectionsCalls(p: Parser, sections: seq<Section>, handler: Call -> bool)
    requires forall i | 0 <= i < |sections| :: PlainSection(sections[i])
    ensures Leads(p, AllCalls(sections), AfterSections(p, sections, handler), handler)
    decreases sections
  {
    if sections != [] {
      var s, others := sections[0], sections[1..];
      PlainEntries(s);
      HeadingCalls(p, s.name, handler);
      var headed := OnLine(p, "[" + s.name + "]" + "\n", handler);
      EntriesCalls(headed, s.entries, handler);
      var done := AfterEntries(headed, s.entries, handler);
      SectionsCalls(done, others, handler);
      LeadsOn(p, CallsOf(s.name, s.entries), done, AllCalls(others), AfterSections(p, sections, handler),
              handler);
    }
  }

  lemma PlainEntries(s: Section)
    requires PlainSection(s)
    ensures forall i | 0 <= i < |s.entries| :: PlainEntry(s.entries[i])
  {
    assert forall i | 0 <= i < |s.entries| :: s.entries[i] in s.entries;
  }

  lemma LeadsFromStart(calls: seq<Call>, p: Parser, handler: Call -> bool)
    requires Leads(START, calls, p, handler)
    ensures p.calls == calls && (p.error == 0 <==> Accepts(handler, calls))
  {
  }

  /** Parsing what was rendered calls the handler with exactly those triples, in order; the result is 0 exactly if it
      accepts them all. */
  lemma IniRoundTrip(sections: seq<Section>, handler: Call -> bool)
    requires forall i | 0 <= i < |sections| :: PlainSection(sections[i])
    ensures Parse(RenderFrom(sections), handler).calls == AllCalls(sections)
    ensures Parse(RenderFrom(sections), handler).error == 0 <==> Accepts(handler, AllCalls(sections))
  {
    SectionsLines(START, sections, handler);
    SectionsCalls(START, sections, handler);
    LeadsFromStart(AllCalls(sections), AfterSections(START, sections, handler), handler);
  }

  // ---- The code ----

  /** The buffer holds the C string `t` at `s`. */
  predicate Holds(buffer: seq<char>, s: nat, t: string) {
    && s + |t| < |buffer| && buffer[s + |t|] == NUL
    && forall k: nat {:trigger t[k]} | k < |t| :: buffer[s + k] == t[k] && t[k] != NUL
  }

  /** A line of text in a buffer is the C string up to its first NUL. */
  lemma {:induction false} HoldsText(buffer: seq<char>, s: nat, text: string)
    requires s + |text| < |buffer| && buffer[s + |text|] == NUL && buffer[s..s + |text|] == text
    ensures Holds(buffer, s, UpToNul(text))
    decreases text
  {
    assert forall k: nat | k < |text| :: buffer[s + k] == text[k];
    if text != [] && text[0] != NUL {
      HoldsText(buffer, s + 1, text[1..]);
      var rest := UpToNul(text[1..]);
      assert UpToNul(text) == [text[0]] + rest;
      forall k: nat | k < |rest| + 1 ensures buffer[s + k] == ([text[0]] + rest)[k] != NUL {
        assert k > 0 ==> buffer[s + 1 + (k - 1)] == rest[k - 1];
      }
    }
  }

  /** The parser and its line buffer; pointers into the line are positions. */
  class IniParser {
    const handler: Call -> bool
    const line: array<char>
    var section: string
    var prevName: string
    var lineno: nat
    var error: nat
    var calls: seq<Call>

    constructor (handler: Call -> bool)
      ensures View() == START && this.handler == handler && fresh(line) && line.Length == MAX_LINE
    {
      this.handler := handler;
      line := new char[MAX_LINE](_ => NUL);
      section, prevName, lineno, error, calls := "", "", 0, 0, [];
    }

    function View(): Parser
      reads this
    {
      Parser(section, prevName, lineno, error, calls)
    }

    method Strlen(s: nat, ghost t: string) returns (n: nat)
      requires Holds(line[..], s, t)
      ensures n == |t|
    {
      n := 0;
      while line[s + n] != NUL
        invariant n <= |t| && (n < |t| ==> line[..][s + n] == t[n])
        decreases |t| - n
      {
        n := n + 1;
      }
    }

    /** `rstrip`: white space at the end is overwritten. */
    method Rstrip(s: nat, ghost t: string)
      requires Holds(line[..], s, t)
      modifies line
      ensures Holds(line[..], s, RStrip(t))
      ensures forall k | 0 <= k < line.Length && !(s <= k < s + |t|) :: line[k] == old(line[k])
    {
      var n := Strlen(s, t);
      ghost var now := t;
      while n > 0 && IsSpace(line[s + n - 1])
        invariant n == |now| && Holds(line[..], s, now) && RStrip(now) == RStrip(t) && |now| <= |t|
        invariant forall k | 0 <= k < line.Length && !(s <= k < s + |t|) :: line[k] == old(line[k])
      {
        assert line[..][s + (n - 1)] == now[n - 1];
        n := n - 1;
        now := now[..n];
        line[s + n] := NUL;
      }
      assert n > 0 ==> line[..][s + (n - 1)] == now[n - 1];
    }

    /** `lskip` */
    method Lskip(s: nat, ghost t: string) returns (r: nat)
      requires Holds(line[..], s, t)
      ensures Holds(line[..], r, LSkip(t)) && r == s + |t| - |LSkip(t)|
    {
      r := s;
      ghost var now := t;
      while line[r] != NUL && IsSpace(line[r])
        invariant Holds(line[..], r, now) && LSkip(now) == LSkip(t) && r == s + |t| - |now|
        decreases |now|
      {
        assert now != [] ==> line[..][r + 0] == now[0];
        ghost var next := now[1..];
        forall k: nat | k < |next| ensures line[..][r + 1 + k] == next[k] && next[k] != NUL {
          assert next[k] == now[k + 1];
        }
        now := next;
        r := r + 1;
      }
      assert now != [] ==> line[..][r + 0] == now[0];
    }

    /** `find_char_or_comment` */
    method FindCharOrComment(s: nat, c: char, ghost t: string) returns (e: nat)
      requires Holds(line[..], s, t)
      ensures e == s + Find(t, c)
    {
      var wasWhitespace := false;
      e := s;
      ghost var i := 0;
      while line[e] != NUL && line[e] != c && !(wasWhitespace && line[e] == ';')
        invariant i <= |t| && e == s + i && FindFrom(t, c, i) == Find(t, c)
        invariant wasWhitespace == (i > 0 && IsSpace(t[i - 1]))
        decreases |t| - i
      {
        assert i < |t| ==> line[..][s + i] == t[i];
        wasWhitespace := IsSpace(line[e]);
        e := e + 1;
        i := i + 1;
      }
      assert i < |t| ==> line[..][s + i] == t[i];
    }

    /** The C string at a position. */
    method TextAt(s: nat, ghost t: string) returns (text: string)
      requires Holds(line[..], s, t)
      ensures text == t
    {
      text := Strncpy0(s, line.Length, t);
    }

    /** `strncpy0`: no more than `size - 1` characters. */
    method Strncpy0(s: nat, size: nat, ghost t: string) returns (dest: string)
      requires Holds(line[..], s, t) && size > 0
      ensures dest == Clipped(t, size)
    {
      dest := "";
      while |dest| < size - 1 && line[s + |dest|] != NUL
        invariant |dest| <= |t| && |dest| < size && dest == t[..|dest|]
        decreases |t| - |dest|
      {
        assert |dest| < |t| ==> line[..][s + |dest|] == t[|dest|];
        dest := dest + [line[s + |dest|]];
      }
      assert |dest| < |t| ==> line[..][s + |dest|] == t[|dest|];
      assert t[..|t|] == t;
    }

    /** Cuts the string at `s` with a NUL at its position `n`. */
    method Cut(s: nat, n: nat, ghost t: string)
      requires Holds(line[..], s, t) && n < |t|
      modifies line
      ensures Holds(line[..], s, t[..n]) && Holds(line[..], s + n + 1, t[n + 1..])
    {
      ghost var rest := t[n + 1..];
      forall k: nat | k < |rest| ensures line[..][s + n + 1 + k] == rest[k] && rest[k] != NUL {
        assert rest[k] == t[n + 1 + k];
      }
      line[s + n] := NUL;
    }

    /** The handler is called, and the first line that it refuses is remembered. */
    method CallHandler(name: string, value: string)
      modifies this`calls, this`error
      ensures calls == old(calls) + [Call(section, name, value)]
      ensures error == if !handler(Call(section, name, value)) && old(error) == 0 then lineno else old(error)
    {
      calls := calls + [Call(section, name, value)];
      if !handler(Call(section, name, value)) && error == 0 {
        error := lineno;
      }
    }

    /** A "[section]" line. */
    method HandleHeading(start: nat, ghost t: string, ghost p: Parser)
      requires Holds(line[..], start, t) && t != [] && t[0] == '[' && View() == p.(lineno := p.lineno + 1)
      modifies this, line
      ensures View() == Handled(p, EntryOf(t), handler)
    {
      ghost var rest := t[1..];
      forall k: nat | k < |rest| ensures line[..][start + 1 + k] == rest[k] && rest[k] != NUL {
        assert rest[k] == t[k + 1];
      }
      var end := FindCharOrComment(start + 1, ']', rest);
      ghost var n := Find(rest, ']');
      assert n < |rest| ==> line[..][start + 1 + n] == rest[n];
      if line[end] == ']' {
        Cut(start + 1, end - (start + 1), rest);
        section := Strncpy0(start + 1, MAX_SECTION, rest[..n]);
        prevName := "";
      } else if error == 0 {
        error := lineno;
      }
    }

    /** A name and a value. */
    method HandlePair(start: nat, ghost t: string, ghost p: Parser)
      requires Holds(line[..], start, t) && t != [] && t[0] != '[' && View() == p.(lineno := p.lineno + 1)
      modifies this, line
      ensures View() == Handled(p, EntryOf(t), handler)
    {
      var end := FindDelimiter(start, t);
      assert end - start < |t| ==> line[..][end] == t[end - start];
      if line[end] == '=' || line[end] == ':' {
        var name, value := SplitPair(start, end - start, t);
        PairFound(name, value, p);
      } else if error == 0 {
        error := lineno;
      }
    }

    /** The name is remembered for continuation lines, and the handler is called. */
    method PairFound(name: string, value: string, ghost p: Parser)
      requires View() == p.(lineno := p.lineno + 1)
      modifies this
      ensures View() == Handled(p, Pair(name, value), handler)
    {
      prevName := if |name| < MAX_NAME then name else name[..MAX_NAME - 1];
      CallHandler(name, value);
    }

    method FindDelimiter(start: nat, ghost t: string) returns (end: nat)
      requires Holds(line[..], start, t)
      ensures end == start + DelimiterOf(t)
    {
      end := FindCharOrComment(start, '=', t);
      assert end - start < |t| ==> line[..][end] == t[end - start];
      if line[end] != '=' {
        end := FindCharOrComment(start, ':', t);
      }
    }

    /** The name and the value around the delimiter at position `n`. */
    method SplitPair(start: nat, n: nat, ghost t: string) returns (name: string, value: string)
      requires Holds(line[..], start, t) && n < |t|
      modifies line
      ensures name == RStrip(t[..n]) && value == ValueOf(t[n + 1..])
    {
      Cut(start, n, t);
      Rstrip(start, t[..n]);
      name := TextAt(start, RStrip(t[..n]));
      value := ReadValue(start + n + 1, t[n + 1..]);
    }

    /** The value after the delimiter, without its comment. */
    method ReadValue(s: nat, ghost t: string) returns (value: string)
      requires Holds(line[..], s, t)
      modifies line
      ensures value == ValueOf(t)
    {
      var v := Lskip(s, t);
      ghost var text := LSkip(t);
      var end := FindCharOrComment(v, NUL, text);
      ghost var n := Find(text, NUL);
      FindStops(text, NUL, 0);
      assert n < |text| ==> line[..][v + n] == text[n];
      if line[end] == ';' {
        Cut(v, end - v, text);
      }
      assert n == |text| ==> text[..n] == text;
      Rstrip(v, text[..n]);
      value := TextAt(v, RStrip(text[..n]));
    }

    /** The byte order mark of the first line is skipped. */
    method SkipMark(ghost t: string) returns (start: nat)
      requires Holds(line[..], 0, t)
      ensures start == (if lineno == 1 && HasMark(t) then 3 else 0) && start <= |t|
      ensures Holds(line[..], start, t[start..])
    {
      assert t[0..] == t;
      assert forall k: nat | k < 3 && k < |t| :: line[..][0 + k] == t[k];
      if lineno == 1 && line[0] as int == 0xEF && line[1] as int == 0xBB && line[2] as int == 0xBF {
        ghost var text := t[3..];
        forall k: nat | k < |text| ensures line[..][3 + k] == text[k] && text[k] != NUL {
          assert text[k] == t[k + 3];
        }
        return 3;
      }
      return 0;
    }

    /** The body of the loop, for the line in the buffer. */
    method HandleLine(ghost t: string)
      requires Holds(line[..], 0, t)
      modifies this, line
      ensures View() == old(Handled(View(), LineOf(t, lineno == 0, prevName), handler))
    {
      ghost var p := View();
      lineno := lineno + 1;
      var start := SkipMark(t);
      ghost var text := t[start..];
      Rstrip(start, text);
      start := Lskip(start, RStrip(text));
      HandleTrimmed(start, LSkip(RStrip(text)), p);
    }

    /** The rest of it, for the line from its first visible character on. */
    method HandleTrimmed(start: nat, ghost trimmed: string, ghost p: Parser)
      requires Holds(line[..], start, trimmed) && View() == p.(lineno := p.lineno + 1)
      modifies this, line
      ensures View() == Handled(p, TrimmedLine(trimmed, start > 0, p.prevName), handler)
    {
      assert trimmed != [] ==> line[..][start + 0] == trimmed[0];
      if line[start] == ';' || line[start] == '#' {
        return;
      }
      if prevName != "" && line[start] != NUL && start > 0 {
        var value := TextAt(start, trimmed);
        CallHandler(prevName, value);
      } else if line[start] == '[' {
        HandleHeading(start, trimmed, p);
      } else if line[start] != NUL {
        HandlePair(start, trimmed, p);
      }
    }

    /** `fgets`: the next line of the file, or as much of it as the buffer holds. */
    method Fgets(file: string, pos: nat) returns (n: nat)
      requires pos < |file| && line.Length == MAX_LINE
      modifies line
      ensures n == Taken(file[pos..]) && Holds(line[..], 0, UpToNul(file[pos..][..n]))
    {
      ghost var content := file[pos..];
      n := 0;
      var done := false;
      while !done && pos + n < |file| && n < MAX_LINE - 1
        invariant n <= |content| && n < MAX_LINE && line[..n] == content[..n]
        invariant Taken(content) == if done then n else TakenFrom(content, n)
        decreases !done, |content| - n
      {
        line[n] := file[pos + n];
        assert line[..n + 1] == content[..n + 1];
        done := file[pos + n] == '\n';
        n := n + 1;
      }
      line[n] := NUL;
      assert line[..][0..0 + n] == content[..n];
      HoldsText(line[..], 0, content[..n]);
    }

    /** `ini_parse_file` on the contents of a file */
    method IniParseFile(file: string) returns (result: nat)
      requires View() == START && line.Length == MAX_LINE
      modifies this, line
      ensures View() == Parse(file, handler) && result == Parse(file, handler).error
    {
      var pos := 0;
      ghost var now, rest, all := View(), file, Parse(file, handler);
      while pos < |file|
        invariant pos <= |file| && rest == file[pos..] && View() == now && ComesTo(now, rest, all, handler)
      {
        var n := HandleNext(file, pos);
        ParseStep(now, rest, all, handler);
        RestOf(file, pos, n);
        now, rest := OnLine(now, rest[..n], handler), rest[n..];
        pos := pos + n;
      }
      return error;
    }

    /** One turn of the loop. */
    method HandleNext(file: string, pos: nat) returns (n: nat)
      requires pos < |file| && line.Length == MAX_LINE
      modifies this, line
      ensures n == Taken(file[pos..]) && View() == old(OnLine(View(), file[pos..][..n], handler))
    {
      n := Fgets(file, pos);
      HandleLine(UpToNul(file[pos..][..n]));
    }
  }

  lemma RestOf(file: string, pos: nat, n: nat)
    requires pos + n <= |file|
    ensures file[pos..][n..] == file[pos + n..]
  {
  }

  /** Parsing the rest of the file will end in `all`. */
  predicate ComesTo(p: Parser, rest: string, all: Parser, handler: Call -> bool) { ParseFrom(p, rest, handler) == all }

  lemma ParseStep(p: Parser, content: string, all: Parser, handler: Call -> bool)
    requires content != [] && ComesTo(p, content, all, handler)
    ensures var n := Taken(content); ComesTo(OnLine(p, content[..n], handler), content[n..], all, handler)
  {
  }
}
