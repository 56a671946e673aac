/** What a line of the configuration file does, kind by kind, in terms of its characters. */
module IniLines {
  import opened Wrappers
  import opened Ini

  predicate Blank(c: char) { c == ' ' || c == '\t' || c == '\n' || c == '\r' || c as int == 11 || c as int == 12 }

  predicate AllBlank(s: string) { forall c <- s :: Blank(c) }

  /** It starts and ends with a visible character. */
  predicate Visible(s: string) { s != [] && !Blank(s[0]) && !Blank(s[|s| - 1]) && NUL !in s }

  /** The bytes 0xEF 0xBB 0xBF. */
  predicate IsMark(s: string) { |s| == 3 && s[0] as int == 0xEF && s[1] as int == 0xBB && s[2] as int == 0xBF }

  /** A line: white space, what is written, and white space.  The first line has no byte order mark. */
  predicate Written(p: Parser, text: string, indent: string, body: string, trail: string) {
    && text == indent + body + trail && AllBlank(indent) && AllBlank(trail) && Visible(body)
    && (p.lineno == 0 && indent == [] && |body| >= 3 ==> !IsMark(body[..3]))
  }

  /** The state after a line that leads to no call. */
  function Silent(p: Parser, section: string, prevName: string, bad: bool): Parser {
    Parser(section, prevName, p.lineno + 1, if bad && p.error == 0 then p.lineno + 1 else p.error, p.calls)
  }

  /** The state after a line with a call; it is bad if the handler refuses it. */
  function Calling(p: Parser, prevName: string, call: Call, handler: Call -> bool): Parser {
    Silent(p, p.section, prevName, !handler(call)).(calls := p.calls + [call])
  }

  function First(s: string, n: nat): string { if |s| <= n then s else s[..n] }

  // ---- White space ----

  lemma BlankExactly(c: char)
    ensures Blank(c) <==> IsSpace(c)
  {
  }

  lemma {:induction false} SkipsBlank(blank: string, s: string)
    requires AllBlank(blank) && (s != [] ==> !Blank(s[0]))
    ensures LSkip(blank + s) == s
  {
    if blank == [] {
      assert blank + s == s;
      if s != [] {
        BlankExactly(s[0]);
      }
    } else {
      BlankExactly(blank[0]);
      assert blank[0] in blank && (blank + s)[1..] == blank[1..] + s;
      SkipsBlank(blank[1..], s);
    }
  }

  lemma {:induction false} StripsBlank(s: string, blank: string)
    requires AllBlank(blank) && (s != [] ==> !Blank(s[|s| - 1]))
    ensures RStrip(s + blank) == s
  {
    if blank == [] {
      assert s + blank == s;
      if s != [] {
        BlankExactly(s[|s| - 1]);
      }
    } else {
      var n := |blank| - 1;
      BlankExactly(blank[n]);
      assert blank[n] in blank && (s + blank)[..|s| + n] == s + blank[..n];
      StripsBlank(s, blank[..n]);
    }
  }

  lemma NoNulIn(p: Parser, text: string, indent: string, body: string, trail: string)
    requires Written(p, text, indent, body, trail)
    ensures UpToNul(text) == text
  {
    assert forall c <- text :: c in indent || c in body || c in trail;
    NoNul(text);
  }

  /** What the parser sees of such a line. */
  lemma Seen(p: Parser, text: string, indent: string, body: string, trail: string, handler: Call -> bool)
    requires Written(p, text, indent, body, trail)
    ensures OnLine(p, text, handler) == Ini.Handled(p, TrimmedLine(body, indent != [], p.prevName), handler)
  {
    NoNulIn(p, text, indent, body, trail);
    assert (indent + body)[|indent + body| - 1] == body[|body| - 1];
    StripsBlank(indent + body, trail);
    SkipsBlank(indent, body);
    if p.lineno == 0 {
      NoMark(text, indent, body, trail);
    }
  }

  lemma NoMark(text: string, indent: string, body: string, trail: string)
    requires text == indent + body + trail && AllBlank(indent) && AllBlank(trail) && body != []
    requires indent == [] && |body| >= 3 ==> !IsMark(body[..3])
    ensures !HasMark(text)
  {
    if indent != [] {
      assert text[0] == indent[0] && indent[0] in indent;
    } else if |body| < 3 && |text| >= 3 {
      assert text[2] == trail[2 - |body|] && trail[2 - |body|] in trail;
    } else if |text| >= 3 {
      assert body[..3] == [text[0], text[1], text[2]];
    }
  }

  // ---- Lines without a call ----

  lemma BlankLine(p: Parser, text: string, handler: Call -> bool)
    requires AllBlank(text)
    ensures OnLine(p, text, handler) == Silent(p, p.section, p.prevName, false)
  {
    assert !Blank(NUL);
    NoNul(text);
    NothingSeen(text);
    assert text != [] ==> text[0] in text;
  }

  lemma NothingSeen(text: string)
    requires AllBlank(text)
    ensures RStrip(text) == []
  {
    assert [] + text == text;
    StripsBlank([], text);
  }

  /** A comment begins with a semicolon or a number sign. */
  lemma CommentLine(p: Parser, text: string, indent: string, body: string, trail: string, handler: Call -> bool)
    requires Written(p, text, indent, body, trail) && (body[0] == ';' || body[0] == '#')
    ensures OnLine(p, text, handler) == Silent(p, p.section, p.prevName, false)
  {
    Seen(p, text, indent, body, trail, handler);
  }

  /** After a name, an indented line continues its value; the whole of it is passed on, comments included. */
  predicate Continues(p: Parser, indent: string) { p.prevName != [] && indent != [] }

  lemma ContinuationLine(p: Parser, text: string, indent: string, body: string, trail: string, handler: Call -> bool)
    requires Written(p, text, indent, body, trail) && body[0] != ';' && body[0] != '#' && Continues(p, indent)
    ensures OnLine(p, text, handler) == Calling(p, p.prevName, Call(p.section, p.prevName, body), handler)
  {
    Seen(p, text, indent, body, trail, handler);
  }

  // ---- Headings ----

  /** A comment inside a line: a semicolon after white space. */
  predicate CommentAt(s: string, i: nat) { 0 < i < |s| && s[i] == ';' && Blank(s[i - 1]) }

  predicate NoComment(s: string) { forall i: nat | i < |s| :: !CommentAt(s, i) }

  lemma StopsExactly(s: string, c: char, i: nat)
    requires i < |s|
    ensures StopsAt(s, c, i) <==> s[i] == c || CommentAt(s, i)
  {
    if i > 0 {
      BlankExactly(s[i - 1]);
    }
  }

  /** The first `c` of a string that has no comment before it. */
  lemma FindsFirst(a: string, c: char, b: string)
    requires c !in a && NoComment(a)
    ensures Find(a + [c] + b, c) == |a|
  {
    var s := a + [c] + b;
    forall j: nat | j < |a| ensures !StopsAt(s, c, j) {
      StopsExactly(s, c, j);
      assert s[j] == a[j] && s[j] in a && !CommentAt(a, j);
    }
    FirstStop(s, c, |a|);
  }

  /** There is no `c` up to the end or to a comment. */
  ghost predicate Hidden(s: string, c: char) {
    exists k: nat :: HiddenUpTo(s, c, k)
  }

  predicate HiddenUpTo(s: string, c: char, k: nat) { k <= |s| && c !in s[..k] && (k == |s| || CommentAt(s, k)) }

  lemma FindsNone(s: string, c: char)
    requires Hidden(s, c) && c != ';'
    ensures Find(s, c) < |s| ==> s[Find(s, c)] == ';' && s[Find(s, c)] != c
  {
    var k: nat :| HiddenUpTo(s, c, k);
    if k < |s| {
      StopsExactly(s, c, k);
      FoundBefore(s, c, 0, k);
    }
    var n := Find(s, c);
    if n < |s| {
      FindStops(s, c, 0);
      StopsExactly(s, c, n);
      assert n < k ==> s[n] == s[..k][n];
    }
  }

  lemma {:induction false} FoundBefore(s: string, c: char, i: nat, k: nat)
    requires i <= k < |s| && StopsAt(s, c, k)
    ensures FindFrom(s, c, i) <= k
    decreases k - i
  {
    if i < k && !StopsAt(s, c, i) {
      FoundBefore(s, c, i + 1, k);
    }
  }

  /** A heading names the section, of which 49 characters are kept; the next line starts afresh. */
  lemma HeadingLine(p: Parser, text: string, indent: string, body: string, trail: string, handler: Call -> bool,
                    name: string, rest: string)
    requires Written(p, text, indent, body, trail) && !Continues(p, indent)
    requires body == "[" + name + "]" + rest && ']' !in name && NoComment(name)
    ensures OnLine(p, text, handler) == Silent(p, First(name, 49), [], false)
  {
    Seen(p, text, indent, body, trail, handler);
    assert body[1..] == name + [']'] + rest;
    FindsFirst(name, ']', rest);
    assert body[1..][..|name|] == name && body[1..][|name|] == ']';
    assert TrimmedLine(body, indent != [], p.prevName) == EntryOf(body) == Heading(name);
  }

  /** Without a closing bracket in front of a comment, the line is bad. */
  lemma OpenHeadingLine(p: Parser, text: string, indent: string, body: string, trail: string, handler: Call -> bool)
    requires Written(p, text, indent, body, trail) && !Continues(p, indent) && body[0] == '[' && Hidden(body[1..], ']')
    ensures OnLine(p, text, handler) == Silent(p, p.section, p.prevName, true)
  {
    Seen(p, text, indent, body, trail, handler);
    FindsNone(body[1..], ']');
  }

  // ---- Names and values ----

  predicate Starts(body: string) { body != [] && body[0] != ';' && body[0] != '#' && body[0] != '[' }

  /** A name and a value with a delimiter between them, white space around, and maybe a comment behind. */
  predicate PairBody(body: string, name: string, before: string, delimiter: char, after: string, value: string,
                     tail: string)
  {
    && body == name + before + [delimiter] + after + value + tail
    && AllBlank(before) && AllBlank(after) && NoComment(name + before) && NoComment(value)
    && (name != [] ==> !Blank(name[|name| - 1])) && (value != [] ==> !Blank(value[0]) && !Blank(value[|value| - 1]))
    && (value == [] ==> after == [] && tail == [])
    && (tail == [] || (|tail| > 1 && Blank(tail[0]) && tail[1] == ';'))
  }

  /** The value ends where its comment begins. */
  lemma ValueEnds(after: string, value: string, tail: string)
    requires AllBlank(after) && NoComment(value) && NUL !in value && NUL !in tail && value != []
    requires !Blank(value[0]) && !Blank(value[|value| - 1])
    requires tail == [] || (|tail| > 1 && Blank(tail[0]) && tail[1] == ';')
    ensures ValueOf(after + value + tail) == value
  {
    assert after + value + tail == after + (value + tail);
    SkipsBlank(after, value + tail);
    var s := value + tail;
    var n := if tail == [] then |value| else |value| + 1;
    forall j: nat | j < n ensures !StopsAt(s, NUL, j) {
      StopsExactly(s, NUL, j);
      if j < |value| {
        assert s[j] == value[j] && s[j] in value && !CommentAt(value, j);
      } else {
        assert s[j] == tail[0] && s[j] in tail;
      }
    }
    if tail != [] {
      assert s[n] == tail[1] && s[n - 1] == tail[0];
      StopsExactly(s, NUL, n);
      assert s[..n] == value + [tail[0]];
      StripsBlank(value, [tail[0]]);
    } else {
      assert s[..n] == value + [];
      StripsBlank(value, []);
    }
    FirstStop(s, NUL, n);
  }

  /** A name, an equals sign, and a value: the handler gets both without the white space and the comment; 49
      characters of the name are kept for lines that continue it. */
  lemma PairLine(p: Parser, text: string, indent: string, body: string, trail: string, handler: Call -> bool,
                 name: string, before: string, after: string, value: string, tail: string)
    requires Written(p, text, indent, body, trail) && !Continues(p, indent) && Starts(body)
    requires PairBody(body, name, before, '=', after, value, tail) && '=' !in name
    ensures OnLine(p, text, handler) == Calling(p, First(name, 49), Call(p.section, name, value), handler)
  {
    DelimiterFound(body, name, before, '=', after, value, tail);
    DelimitedLine(p, text, indent, body, trail, handler, name, before, '=', after, value, tail);
  }

  lemma DelimitedLine(p: Parser, text: string, indent: string, body: string, trail: string, handler: Call -> bool,
                      name: string, before: string, delimiter: char, after: string, value: string, tail: string)
    requires Written(p, text, indent, body, trail) && !Continues(p, indent) && Starts(body)
    requires PairBody(body, name, before, delimiter, after, value, tail) && (delimiter == '=' || delimiter == ':')
    requires DelimiterOf(body) == |name + before|
    ensures OnLine(p, text, handler) == Calling(p, First(name, 49), Call(p.section, name, value), handler)
  {
    Seen(p, text, indent, body, trail, handler);
    PairRead(body, name, before, delimiter, after, value, tail);
    PairFound(p, body, indent != [], |name + before|, name, value, handler);
  }

  lemma PairFound(p: Parser, body: string, indented: bool, n: nat, name: string, value: string, handler: Call -> bool)
    requires Starts(body) && !(p.prevName != [] && indented)
    requires DelimiterOf(body) == n < |body| && (body[n] == '=' || body[n] == ':')
    requires RStrip(body[..n]) == name && ValueOf(body[n + 1..]) == value
    ensures Ini.Handled(p, TrimmedLine(body, indented, p.prevName), handler) ==
            Calling(p, First(name, 49), Call(p.section, name, value), handler)
  {
  }

  /** The delimiter is found. */
  lemma DelimiterFound(body: string, name: string, before: string, delimiter: char, after: string, value: string,
                       tail: string)
    requires PairBody(body, name, before, delimiter, after, value, tail) && delimiter !in name && !Blank(delimiter)
    ensures Find(body, delimiter) == |name + before| < |body| && body[|name + before|] == delimiter
  {
    var rest := after + value + tail;
    assert body == (name + before) + [delimiter] + rest;
    assert forall c <- name + before :: c in name || c in before;
    FindsFirst(name + before, delimiter, rest);
  }

  lemma PairRead(body: string, name: string, before: string, delimiter: char, after: string, value: string,
                 tail: string)
    requires PairBody(body, name, before, delimiter, after, value, tail) && NUL !in body
    ensures var n := |name + before|;
            && n < |body| && body[n] == delimiter && RStrip(body[..n]) == name && ValueOf(body[n + 1..]) == value
  {
    var n, rest := |name + before|, after + value + tail;
    assert body == (name + before) + [delimiter] + rest;
    assert body[..n] == name + before && body[n + 1..] == rest;
    StripsBlank(name, before);
    assert forall c <- value :: c in body;
    assert forall c <- tail :: c in body;
    if value == [] {
      assert rest == [] && ValueOf([]) == [];
    } else {
      ValueEnds(after, value, tail);
    }
  }

  lemma ColonDelimits(body: string)
    requires Hidden(body, '=')
    ensures DelimiterOf(body) == Find(body, ':')
  {
    FindsNone(body, '=');
  }

  /** Without an equals sign in front of a comment, the first colon separates them. */
  lemma ColonLine(p: Parser, text: string, indent: string, body: string, trail: string, handler: Call -> bool,
                  name: string, before: string, after: string, value: string, tail: string)
    requires Written(p, text, indent, body, trail) && !Continues(p, indent) && Starts(body)
    requires PairBody(body, name, before, ':', after, value, tail)
    requires Hidden(body, '=') && ':' !in name
    ensures OnLine(p, text, handler) == Calling(p, First(name, 49), Call(p.section, name, value), handler)
  {
    DelimiterFound(body, name, before, ':', after, value, tail);
    ColonDelimits(body);
    DelimitedLine(p, text, indent, body, trail, handler, name, before, ':', after, value, tail);
  }

  /** Without any of the two, the line is bad. */
  lemma BadEntryLine(p: Parser, text: string, indent: string, body: string, trail: string, handler: Call -> bool)
    requires Written(p, text, indent, body, trail) && !Continues(p, indent) && Starts(body)
    requires Hidden(body, '=') && Hidden(body, ':')
    ensures OnLine(p, text, handler) == Silent(p, p.section, p.prevName, true)
  {
    Seen(p, text, indent, body, trail, handler);
    FindsNone(body, '=');
    FindsNone(body, ':');
  }

  // ---- Cutting the file into lines ----

  /** A line ends at its first NUL. */
  lemma NulLine(p: Parser, before: string, after: string, handler: Call -> bool)
    requires NUL !in before
    ensures OnLine(p, before + [NUL] + after, handler) == OnLine(p, before, handler)
  {
    NoNul(before);
    CutAtNul(before, after);
  }

  lemma {:induction false} CutAtNul(before: string, after: string)
    requires NUL !in before
    ensures UpToNul(before + [NUL] + after) == before
  {
    if before != [] {
      assert before[0] in before;
      assert (before + [NUL] + after)[1..] == before[1..] + [NUL] + after;
      CutAtNul(before[1..], after);
    }
  }

  /** The byte order mark of the first line is skipped. */
  lemma MarkedLine(p: Parser, text: string, handler: Call -> bool)
    requires p.lineno == 0 && p.prevName == [] && !HasMark(text)
    ensures OnLine(p, [0xEF as char, 0xBB as char, 0xBF as char] + text, handler) == OnLine(p, text, handler)
  {
    var mark := [0xEF as char, 0xBB as char, 0xBF as char];
    NulBehind(mark, text);
    assert HasMark(mark + UpToNul(text)) && (mark + UpToNul(text))[3..] == UpToNul(text);
    StartsAlike(text);
  }

  lemma {:induction false} NulBehind(a: string, b: string)
    requires NUL !in a
    ensures UpToNul(a + b) == a + UpToNul(b)
  {
    if a == [] {
      assert a + b == b;
    } else {
      assert a[0] in a && (a + b)[1..] == a[1..] + b;
      NulBehind(a[1..], b);
    }
  }

  lemma StartsAlike(text: string)
    ensures HasMark(UpToNul(text)) ==> HasMark(text)
  {
    if |UpToNul(text)| >= 3 {
      assert UpToNul(text)[0] == text[0];
      assert UpToNul(text)[1] == UpToNul(text[1..])[0] == text[1];
      assert UpToNul(text)[2] == UpToNul(text[1..][1..])[0] == text[2];
    }
  }

  function Together(lines: seq<string>): string { if lines == [] then [] else lines[0] + Together(lines[1..]) }

  /** A line of at most 199 characters ends at the first line break, or when the buffer is full. */
  predicate IsLine(line: string, last: bool) {
    && 0 < |line| <= 199 && '\n' !in line[..|line| - 1]
    && (line[|line| - 1] == '\n' || |line| == 199 || last)
  }

  /** The lines together are the file. */
  lemma {:induction false} LinesExactly(content: string)
    ensures var lines := LineTexts(content);
            && Together(lines) == content
            && forall i: nat | i < |lines| :: IsLine(lines[i], i == |lines| - 1)
    decreases |content|
  {
    if content != [] {
      var n, lines := Taken(content), LineTexts(content);
      TakenIsLine(content, 0);
      LinesExactly(content[n..]);
      assert lines[0] == content[..n] && lines[1..] == LineTexts(content[n..]);
      forall i: nat | i < |lines| ensures IsLine(lines[i], i == |lines| - 1) {
        if i > 0 {
          assert lines[i] == lines[1..][i - 1];
        } else if |lines| > 1 {
          assert content[n..] != [];
        }
      }
    }
  }

  lemma {:induction false} TakenIsLine(content: string, n: nat)
    requires n <= |content| && n < MAX_LINE && '\n' !in content[..n]
    ensures var m := TakenFrom(content, n);
            && n <= m <= |content| && (m > 0 ==> '\n' !in content[..m - 1])
            && (m == |content| || m == 199 || (m > 0 && content[m - 1] == '\n'))
    decreases MAX_LINE - n
  {
    if n < |content| && n < MAX_LINE - 1 && content[n] != '\n' {
      assert content[..n + 1] == content[..n] + [content[n]];
      TakenIsLine(content, n + 1);
    } else if n < |content| && n < MAX_LINE - 1 {
      assert content[..n + 1 - 1] == content[..n];
    } else if n > 0 {
      assert forall c <- content[..n - 1] :: c in content[..n];
    }
  }

  /** The parser goes through these lines one after the other. */
  lemma {:induction false} LinesInOrder(p: Parser, content: string, handler: Call -> bool)
    ensures ParseFrom(p, content, handler) == OnLines(p, LineTexts(content), handler)
    decreases |content|
  {
    if content != [] {
      LinesInOrder(OnLine(p, content[..Taken(content)], handler), content[Taken(content)..], handler);
    }
  }

  function OnLines(p: Parser, lines: seq<string>, handler: Call -> bool): Parser
    decreases lines
  {
    if lines == [] then p else OnLines(OnLine(p, lines[0], handler), lines[1..], handler)
  }
}
