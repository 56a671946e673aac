/** The option string of the agent: printed by the launcher (`JLeaker.java`), parsed by the agent
    (`parse_agent_options` in `jleaker.c`). */
module AgentOptions {
  import opened Wrappers

  // ---- strtok and strtol ----

  predicate IsDelimiter(c: char, delimiters: string) { c in delimiters }

  /** The string without its leading delimiters. */
  function Skipped(s: string, delimiters: string): (r: string)
    ensures |r| <= |s|
  {
    if s != [] && IsDelimiter(s[0], delimiters) then Skipped(s[1..], delimiters) else s
  }

  /** The length of the token at the front. */
  function TokenLength(s: string, delimiters: string): (n: nat)
    ensures n <= |s|
  {
    if s == [] || IsDelimiter(s[0], delimiters) then 0 else 1 + TokenLength(s[1..], delimiters)
  }

  /** A token and where the next call goes on: after the delimiter that ended it. */
  datatype Token = Token(text: string, rest: string)

  /** `strtok` */
  function NextToken(s: string, delimiters: string): (t: Option<Token>)
    ensures t.Some? ==> |t.value.rest| < |s|
  {
    var s' := Skipped(s, delimiters);
    var n := TokenLength(s', delimiters);
    if s' == [] then None
    else Some(Token(s'[..n], if n < |s'| then s'[n + 1..] else []))
  }

  predicate IsDigit(c: char) { '0' <= c <= '9' }

  predicate IsSpace(c: char) { c == ' ' || 9 <= c as int <= 13 }

  function Digit(c: char): nat
    requires IsDigit(c)
  {
    (c as int) - 48
  }

  /** The number that the leading digits make, and what follows them. */
  function DigitsFrom(v: nat, s: string): (nat, string)
    decreases s
  {
    if s == [] || !IsDigit(s[0]) then (v, s) else DigitsFrom(10 * v + Digit(s[0]), s[1..])
  }

  function SkipSpace(s: string): string {
    if s != [] && IsSpace(s[0]) then SkipSpace(s[1..]) else s
  }

  const LONG_MAX := 0x7fff_ffff_ffff_ffff

  /** `strtol(s, &endptr, 10)`: the value and whether `endptr` reached the end of the (nonempty) string. */
  function Strtol(s: string): (int, bool) {
    var t := SkipSpace(s);
    var negative := t != [] && t[0] == '-';
    var digits := if t != [] && (t[0] == '-' || t[0] == '+') then t[1..] else t;
    if digits == [] || !IsDigit(digits[0]) then (0, false)
    else
      var (n, rest) := DigitsFrom(0, digits);
      var v: int := if negative then 0 - n else n;
      (if v > LONG_MAX then LONG_MAX else if v < -LONG_MAX - 1 then -LONG_MAX - 1 else v, rest == [])
  }

  /** The conversion from `long` to `int`. */
  function ToInt(v: int): int {
    var low := v % 0x1_0000_0000;
    if low >= 0x8000_0000 then low - 0x1_0000_0000 else low
  }

  predicate IsInt(v: int) { -0x8000_0000 <= v < 0x8000_0000 }

  // ---- The parser ----

  /** The fields of `GlobalData` that the options set. */
  datatype Globals = Globals(
    tcpPort: int, sizeThreshold: int, referenceChainLength: int, maxFanIn: int, debug: bool, selfCheck: bool,
    runGc: bool, showUnreachables: bool, considerLocal: bool, confFiles: Option<string>)

  datatype Outcome = Accepted | Rejected | Crashed

  datatype Number = TcpPort | SizeThreshold | ReferenceChainLength | MaxFanIn

  function SetNumber(g: Globals, field: Number, v: int): (g': Globals)
    ensures g'.confFiles == g.confFiles
  {
    match field
    case TcpPort => g.(tcpPort := v)
    case SizeThreshold => g.(sizeThreshold := v)
    case ReferenceChainLength => g.(referenceChainLength := v)
    case MaxFanIn => g.(maxFanIn := v)
  }

  /** What one option leads to. */
  datatype Step = Next(g: Globals, rest: string) | Stop(g: Globals, outcome: Outcome)

  /** The value of a number option; `strtol` is given the null pointer when there is none. */
  function NumberStep(field: Number, rest: string, g: Globals): Step {
    var t := NextToken(rest, ",");
    if t.None? then Stop(g, Crashed)
    else
      var (v, clean) := Strtol(t.value.text);
      var g' := SetNumber(g, field, ToInt(v));
      if clean then Next(g', t.value.rest) else Stop(g', Rejected)
  }

  /** The value of `conf_file`. */
  function FileStep(rest: string, g: Globals): Step {
    var t := NextToken(rest, ",");
    if t.None? then Next(g.(confFiles := None), []) else Next(g.(confFiles := Some(t.value.text)), t.value.rest)
  }

  /** The options with a number. */
  function NumberNamed(next: string): Option<Number> {
    if next == "tcp_port" then Some(TcpPort)
    else if next == "size_threshold" then Some(SizeThreshold)
    else if next == "reference_chain_length" then Some(ReferenceChainLength)
    else if next == "max_fan_in" then Some(MaxFanIn)
    else None
  }

  /** The options without a value. */
  function FlagNamed(next: string, g: Globals): (g': Option<Globals>)
    ensures g'.Some? ==> g'.value.confFiles == g.confFiles
  {
    if next == "debug" then Some(g.(debug := true))
    else if next == "self_check" then Some(g.(selfCheck := true))
    else if next == "no_gc" then Some(g.(runGc := false))
    else if next == "consider_local_references" then Some(g.(considerLocal := true))
    else if next == "show_unreachables" then Some(g.(showUnreachables := true))
    else None
  }

  function OptionStep(next: string, rest: string, g: Globals): Step {
    var number, flag := NumberNamed(next), FlagNamed(next, g);
    if number.Some? then NumberStep(number.value, rest, g)
    else if flag.Some? then Next(flag.value, rest)
    else if next == "conf_file" then FileStep(rest, g)
    else Stop(g, Rejected)
  }

  lemma StepConsumes(next: string, rest: string, g: Globals)
    ensures OptionStep(next, rest, g).Next? ==> |OptionStep(next, rest, g).rest| <= |rest|
  {
  }

  /** The loop over the options. */
  function ParseFrom(s: string, g: Globals): (Globals, Outcome)
    decreases |s|
  {
    var t := NextToken(s, ",=");
    if t.None? then (g, Accepted)
    else
      StepConsumes(t.value.text, t.value.rest, g);
      match OptionStep(t.value.text, t.value.rest, g)
      case Next(g', rest) => ParseFrom(rest, g')
      case Stop(g', outcome) => (g', outcome)
  }

  /** The defaults.  `consider_local_references` is not among them: it keeps its value. */
  function Defaults(g: Globals): Globals {
    Globals(0, 500, 0, 5, false, false, true, false, g.considerLocal, None)
  }

  function ParseOptions(options: Option<string>, g: Globals): (Globals, Outcome) {
    if options.None? then (Defaults(g), Accepted) else ParseFrom(options.value, Defaults(g))
  }

  // ---- The configuration files ----

  /** All tokens, in order. */
  function Tokens(s: string, delimiters: string): seq<string>
    decreases |s|
  {
    var t := NextToken(s, delimiters);
    if t.None? then [] else [t.value.text] + Tokens(t.value.rest, delimiters)
  }

  /** The files that are loaded, up to the first one that is not there; and whether there was none such. */
  function Loaded(s: string, separator: string, unreadable: set<string>): (seq<string>, bool)
    decreases |s|
  {
    var t := NextToken(s, separator);
    if t.None? then ([], true)
    else if t.value.text in unreadable then ([], false)
    else
      var (loaded, ok) := Loaded(t.value.rest, separator, unreadable);
      ([t.value.text] + loaded, ok)
  }

  /** Loading the rest comes to `all`, after the files that were read already. */
  predicate LoadsTo(s: string, separator: string, unreadable: set<string>, before: seq<string>,
                    all: (seq<string>, bool))
  {
    all == (before + Loaded(s, separator, unreadable).0, Loaded(s, separator, unreadable).1)
  }

  lemma LoadsNext(s: string, separator: string, unreadable: set<string>, before: seq<string>, all: (seq<string>, bool))
    requires LoadsTo(s, separator, unreadable, before, all)
    ensures var t := NextToken(s, separator);
            if t.None? then all == (before, true)
            else if t.value.text in unreadable then all == (before, false)
            else LoadsTo(t.value.rest, separator, unreadable, before + [t.value.text], all)
  {
    var t := NextToken(s, separator);
    assert before + [] == before;
    if t.Some? && t.value.text !in unreadable {
      var rest := Loaded(t.value.rest, separator, unreadable).0;
      assert before + ([t.value.text] + rest) == (before + [t.value.text]) + rest;
    }
  }

  /** What `parse_agent_options` leaves: the globals, what it returns, and the files that it read. */
  datatype Parsed = Parsed(g: Globals, outcome: Outcome, loaded: seq<string>)

  /** The options, then the configuration files that they name. */
  function ParseAll(options: Option<string>, g: Globals, separator: string, unreadable: set<string>): Parsed {
    var (g', outcome) := ParseOptions(options, g);
    if outcome != Accepted || g'.confFiles.None? then Parsed(g', outcome, [])
    else
      var (loaded, ok) := Loaded(g'.confFiles.value, separator, unreadable);
      Parsed(g', if ok then Accepted else Rejected, loaded)
  }

  // ---- The launcher ----

  /** The launcher's settings, after its defaults. */
  datatype Settings = Settings(
    debug: bool, selfCheck: bool, maxFanIn: Option<int>, showUnreachables: bool, noGc: bool, considerLocal: bool,
    confFile: string, sizeThreshold: int, referenceChainLength: int, port: int)

  function Digits(n: nat): (s: string)
    ensures s != [] && forall c <- s :: IsDigit(c)
  {
    (if n < 10 then [] else Digits(n / 10)) + [(48 + n % 10) as char]
  }

  /** `Integer.toString` */
  function Decimal(v: int): string { if v < 0 then "-" + Digits(-v) else Digits(v) }

  function Flag(given: bool, name: string): string { if given then name + "," else "" }

  function NumberOption(name: string, v: int, after: string): string { name + "=" + Decimal(v) + after }

  /** The string that the agent is loaded with, from its end to its beginning. */
  function PrintedNumbers(o: Settings): string {
    NumberOption("size_threshold", o.sizeThreshold,
      "," + NumberOption("reference_chain_length", o.referenceChainLength, "," + NumberOption("tcp_port", o.port, "")))
  }

  function PrintedFile(o: Settings): string { "conf_file" + "=" + o.confFile + ("," + PrintedNumbers(o)) }

  function PrintedFlags(o: Settings): string {
    Flag(o.showUnreachables, "show_unreachables")
    + (Flag(o.noGc, "no_gc") + (Flag(o.considerLocal, "consider_local_references") + PrintedFile(o)))
  }

  function PrintedFanIn(o: Settings): string {
    if o.maxFanIn.Some? then NumberOption("max_fan_in", o.maxFanIn.value, "," + PrintedFlags(o)) else PrintedFlags(o)
  }

  function Printed(o: Settings): string {
    Flag(o.debug, "debug") + (Flag(o.selfCheck, "self_check") + PrintedFanIn(o))
  }

  // ---- Tokens of printed strings ----

  predicate Free(word: string, delimiters: string) { forall c <- word :: c !in delimiters }

  /** A word up to a delimiter or the end is one token. */
  lemma {:induction false} TokenEnds(word: string, after: string, delimiters: string)
    requires Free(word, delimiters) && (after == [] || after[0] in delimiters)
    ensures TokenLength(word + after, delimiters) == |word|
  {
    if word == [] {
      assert word + after == after;
    } else {
      assert word[0] in word && (word + after)[1..] == word[1..] + after;
      TokenEnds(word[1..], after, delimiters);
    }
  }

  lemma TokenIs(word: string, after: string, delimiters: string)
    requires word != [] && Free(word, delimiters) && (after == [] || after[0] in delimiters)
    ensures NextToken(word + after, delimiters) == Some(Token(word, if after == [] then [] else after[1..]))
  {
    assert word[0] in word;
    TokenEnds(word, after, delimiters);
  }

  lemma {:induction false} DigitsSplit(v: nat, a: string, b: string)
    requires forall c <- a :: IsDigit(c)
    ensures DigitsFrom(v, a).1 == [] && DigitsFrom(v, a + b) == DigitsFrom(DigitsFrom(v, a).0, b)
    decreases a
  {
    if a == [] {
      assert a + b == b;
    } else {
      assert a[0] in a && (a + b)[1..] == a[1..] + b;
      DigitsSplit(10 * v + Digit(a[0]), a[1..], b);
    }
  }

  lemma {:induction false} DigitsRead(n: nat)
    ensures DigitsFrom(0, Digits(n)) == (n, [])
  {
    var last := (48 + n % 10) as char;
    assert Digit(last) == n % 10;
    if n < 10 {
      assert Digits(n) == [last];
      OneDigit(0, last);
    } else {
      DigitsRead(n / 10);
      DigitsSplit(0, Digits(n / 10), [last]);
      OneDigit(n / 10, last);
    }
  }

  lemma OneDigit(v: nat, c: char)
    requires IsDigit(c)
    ensures DigitsFrom(v, [c]) == (10 * v + Digit(c), [])
  {
    assert [c][1..] == [];
  }

  /** What `Integer.toString` writes, `strtol` and the conversion to `int` read back. */
  lemma DecimalRoundTrip(v: int)
    requires IsInt(v)
    ensures Strtol(Decimal(v)) == (v, true) && ToInt(v) == v
    ensures Decimal(v) != [] && Free(Decimal(v), ",")
  {
    var n := if v < 0 then -v else v;
    DigitsRead(n);
    var d := Digits(n);
    assert d[0] in d;
    assert SkipSpace(Decimal(v)) == Decimal(v);
    if v < 0 {
      assert ("-" + d)[1..] == d;
      assert forall c <- "-" + d :: c == '-' || c in d;
    }
  }

  // ---- Parsing what was printed ----

  /** Parsing `s` comes to the same as parsing `s'`, with other globals. */
  predicate ParsesTo(s: string, g: Globals, s': string, g': Globals) { ParseFrom(s, g) == ParseFrom(s', g') }

  lemma AndThen(s: string, g: Globals, s1: string, g1: Globals, s2: string, g2: Globals)
    requires ParsesTo(s, g, s1, g1) && ParsesTo(s1, g1, s2, g2)
    ensures ParsesTo(s, g, s2, g2)
  {
  }

  lemma FlagParses(name: string, rest: string, g: Globals, g': Globals)
    requires name != [] && Free(name, ",=") && OptionStep(name, rest, g) == Next(g', rest)
    ensures ParsesTo(name + "," + rest, g, rest, g')
  {
    assert name + "," + rest == name + ("," + rest);
    assert ("," + rest)[1..] == rest;
    TokenIs(name, "," + rest, ",=");
  }

  /** A name, an equals sign, a value, and a comma or the end. */
  lemma ValueTokens(name: string, value: string, after: string)
    requires name != [] && Free(name, ",=") && value != [] && Free(value, ",") && (after == [] || after[0] == ',')
    ensures NextToken(name + "=" + value + after, ",=") == Some(Token(name, value + after))
    ensures NextToken(value + after, ",") == Some(Token(value, if after == [] then [] else after[1..]))
  {
    assert name + "=" + value + after == name + ("=" + (value + after));
    assert ("=" + (value + after))[1..] == value + after;
    TokenIs(name, "=" + (value + after), ",=");
    TokenIs(value, after, ",");
  }

  lemma NumberParses(name: string, field: Number, v: int, after: string, g: Globals)
    requires name != [] && Free(name, ",=") && IsInt(v) && (after == [] || after[0] == ',')
    requires OptionStep(name, Decimal(v) + after, g) == NumberStep(field, Decimal(v) + after, g)
    ensures ParsesTo(NumberOption(name, v, after), g, if after == [] then [] else after[1..], SetNumber(g, field, v))
  {
    DecimalRoundTrip(v);
    ValueTokens(name, Decimal(v), after);
  }

  lemma FileParses(name: string, file: string, after: string, g: Globals)
    requires name != [] && Free(name, ",=") && file != [] && Free(file, ",") && after != [] && after[0] == ','
    requires OptionStep(name, file + after, g) == FileStep(file + after, g)
    ensures ParsesTo(name + "=" + file + after, g, after[1..], g.(confFiles := Some(file)))
  {
    ValueTokens(name, file, after);
  }

  lemma FlagsAreWords()
    ensures Free("debug", ",=") && Free("self_check", ",=") && Free("show_unreachables", ",=")
    ensures Free("no_gc", ",=") && Free("consider_local_references", ",=")
  {
  }

  lemma ValuesAreWords()
    ensures Free("max_fan_in", ",=") && Free("conf_file", ",=") && Free("size_threshold", ",=")
    ensures Free("reference_chain_length", ",=") && Free("tcp_port", ",=")
  {
  }

  /** What can be printed: `int` numbers, and files without a comma in their names. */
  predicate Printable(o: Settings) {
    && o.confFile != [] && Free(o.confFile, ",")
    && IsInt(o.sizeThreshold) && IsInt(o.referenceChainLength) && IsInt(o.port)
    && (o.maxFanIn.Some? ==> IsInt(o.maxFanIn.value))
  }

  /** A number option before another option. */
  lemma NumberThen(name: string, field: Number, v: int, rest: string, g: Globals)
    requires name != [] && Free(name, ",=") && IsInt(v) && NumberNamed(name) == Some(field)
    ensures ParsesTo(NumberOption(name, v, "," + rest), g, rest, SetNumber(g, field, v))
  {
    NumberParses(name, field, v, "," + rest, g);
    assert ("," + rest)[1..] == rest;
  }

  lemma NumbersParse(o: Settings, g: Globals)
    requires Printable(o)
    ensures ParsesTo(PrintedNumbers(o), g, "",
                     g.(sizeThreshold := o.sizeThreshold, referenceChainLength := o.referenceChainLength,
                        tcpPort := o.port))
  {
    ValuesAreWords();
    NamedNumbers();
    var port := NumberOption("tcp_port", o.port, "");
    var length := NumberOption("reference_chain_length", o.referenceChainLength, "," + port);
    var g1 := g.(sizeThreshold := o.sizeThreshold);
    var g2 := g1.(referenceChainLength := o.referenceChainLength);
    var g3 := g2.(tcpPort := o.port);
    NumberThen("size_threshold", SizeThreshold, o.sizeThreshold, length, g);
    NumberThen("reference_chain_length", ReferenceChainLength, o.referenceChainLength, port, g1);
    NumberParses("tcp_port", TcpPort, o.port, "", g2);
    AndThen(PrintedNumbers(o), g, length, g1, port, g2);
    AndThen(PrintedNumbers(o), g, port, g2, "", g3);
  }

  lemma FileAndNumbersParse(o: Settings, g: Globals)
    requires Printable(o)
    ensures ParsesTo(PrintedFile(o), g, PrintedNumbers(o), g.(confFiles := Some(o.confFile)))
  {
    ValuesAreWords();
    FileParses("conf_file", o.confFile, "," + PrintedNumbers(o), g);
    assert ("," + PrintedNumbers(o))[1..] == PrintedNumbers(o);
  }

  lemma NamedNumbers()
    ensures NumberNamed("size_threshold") == Some(SizeThreshold) && NumberNamed("tcp_port") == Some(TcpPort)
    ensures NumberNamed("reference_chain_length") == Some(ReferenceChainLength)
    ensures NumberNamed("max_fan_in") == Some(MaxFanIn)
  {
  }

  lemma NamedFlags(g: Globals)
    ensures NumberNamed("debug") == NumberNamed("self_check") == NumberNamed("no_gc") == None
    ensures NumberNamed("consider_local_references") == NumberNamed("show_unreachables") == None
    ensures FlagNamed("debug", g) == Some(g.(debug := true))
    ensures FlagNamed("self_check", g) == Some(g.(selfCheck := true))
    ensures FlagNamed("no_gc", g) == Some(g.(runGc := false))
    ensures FlagNamed("consider_local_references", g) == Some(g.(considerLocal := true))
    ensures FlagNamed("show_unreachables", g) == Some(g.(showUnreachables := true))
  {
  }

  lemma FlagsParse(o: Settings, g: Globals)
    ensures ParsesTo(PrintedFlags(o), g, PrintedFile(o),
                     g.(showUnreachables := g.showUnreachables || o.showUnreachables, runGc := g.runGc && !o.noGc,
                        considerLocal := g.considerLocal || o.considerLocal))
  {
    FlagsAreWords();
    var g1 := g.(showUnreachables := g.showUnreachables || o.showUnreachables);
    NamedFlags(g);
    FlagOr("show_unreachables", o.showUnreachables, PrintedGc(o), g, g1);
    GcParses(o, g1);
    AndThen(PrintedFlags(o), g, PrintedGc(o), g1, PrintedFile(o),
            g1.(runGc := g1.runGc && !o.noGc, considerLocal := g1.considerLocal || o.considerLocal));
  }

  /** What follows the first of these flags. */
  function PrintedGc(o: Settings): string {
    Flag(o.noGc, "no_gc") + (Flag(o.considerLocal, "consider_local_references") + PrintedFile(o))
  }

  lemma GcParses(o: Settings, g: Globals)
    ensures ParsesTo(PrintedGc(o), g, PrintedFile(o),
                     g.(runGc := g.runGc && !o.noGc, considerLocal := g.considerLocal || o.considerLocal))
  {
    FlagsAreWords();
    var local := Flag(o.considerLocal, "consider_local_references") + PrintedFile(o);
    var g1 := g.(runGc := g.runGc && !o.noGc);
    var g2 := g1.(considerLocal := g1.considerLocal || o.considerLocal);
    NamedFlags(g);
    FlagOr("no_gc", o.noGc, local, g, g1);
    NamedFlags(g1);
    FlagOr("consider_local_references", o.considerLocal, PrintedFile(o), g1, g2);
    AndThen(PrintedGc(o), g, local, g1, PrintedFile(o), g2);
  }

  /** A flag that may be left out. */
  lemma FlagOr(name: string, given: bool, rest: string, g: Globals, g': Globals)
    requires name != [] && Free(name, ",=")
    requires if given then NumberNamed(name) == None && FlagNamed(name, g) == Some(g') else g' == g
    ensures ParsesTo(Flag(given, name) + rest, g, rest, g')
  {
    if given {
      FlagParses(name, rest, g, g');
    } else {
      assert "" + rest == rest;
    }
  }

  lemma FanInParses(o: Settings, g: Globals)
    requires Printable(o)
    ensures ParsesTo(PrintedFanIn(o), g, PrintedFlags(o),
                     if o.maxFanIn.Some? then g.(maxFanIn := o.maxFanIn.value) else g)
  {
    var rest := PrintedFlags(o);
    if o.maxFanIn.Some? {
      FanInThen(o.maxFanIn.value, rest, g);
    }
  }

  lemma FanInThen(v: int, rest: string, g: Globals)
    requires IsInt(v)
    ensures ParsesTo(NumberOption("max_fan_in", v, "," + rest), g, rest, g.(maxFanIn := v))
  {
    ValuesAreWords();
    NamedNumbers();
    NumberThen("max_fan_in", MaxFanIn, v, rest, g);
  }

  lemma FirstFlagsParse(o: Settings, g: Globals)
    ensures ParsesTo(Printed(o), g, PrintedFanIn(o),
                     g.(debug := g.debug || o.debug, selfCheck := g.selfCheck || o.selfCheck))
  {
    FlagsAreWords();
    var g1 := g.(debug := g.debug || o.debug);
    var g2 := g1.(selfCheck := g1.selfCheck || o.selfCheck);
    var rest := Flag(o.selfCheck, "self_check") + PrintedFanIn(o);
    NamedFlags(g);
    NamedFlags(g1);
    FlagOr("debug", o.debug, rest, g, g1);
    FlagOr("self_check", o.selfCheck, PrintedFanIn(o), g1, g2);
    AndThen(Printed(o), g, rest, g1, PrintedFanIn(o), g2);
  }

  /** What the agent should have understood: a `consider_local_references` of an earlier run stays set. */
  function Understood(o: Settings, g: Globals): Globals {
    Globals(o.port, o.sizeThreshold, o.referenceChainLength, if o.maxFanIn.Some? then o.maxFanIn.value else 5,
            o.debug, o.selfCheck, !o.noGc, o.showUnreachables, g.considerLocal || o.considerLocal, Some(o.confFile))
  }

  /** The globals after the options in front of the flags for the report. */
  function FrontRead(o: Settings, g: Globals): Globals {
    var g1 := g.(debug := g.debug || o.debug, selfCheck := g.selfCheck || o.selfCheck);
    if o.maxFanIn.Some? then g1.(maxFanIn := o.maxFanIn.value) else g1
  }

  lemma FrontParses(o: Settings, g: Globals)
    requires Printable(o)
    ensures ParsesTo(Printed(o), g, PrintedFlags(o), FrontRead(o, g))
  {
    var g1 := g.(debug := g.debug || o.debug, selfCheck := g.selfCheck || o.selfCheck);
    FirstFlagsParse(o, g);
    FanInParses(o, g1);
    AndThen(Printed(o), g, PrintedFanIn(o), g1, PrintedFlags(o), FrontRead(o, g));
  }

  /** And after all the others. */
  function BackRead(o: Settings, g: Globals): Globals {
    g.(showUnreachables := g.showUnreachables || o.showUnreachables, runGc := g.runGc && !o.noGc,
       considerLocal := g.considerLocal || o.considerLocal, confFiles := Some(o.confFile),
       sizeThreshold := o.sizeThreshold, referenceChainLength := o.referenceChainLength, tcpPort := o.port)
  }

  lemma BackParses(o: Settings, g: Globals)
    requires Printable(o)
    ensures ParsesTo(PrintedFlags(o), g, "", BackRead(o, g))
  {
    var g1 := g.(showUnreachables := g.showUnreachables || o.showUnreachables, runGc := g.runGc && !o.noGc,
                 considerLocal := g.considerLocal || o.considerLocal);
    var g2 := g1.(confFiles := Some(o.confFile));
    FlagsParse(o, g);
    FileAndNumbersParse(o, g1);
    NumbersParse(o, g2);
    AndThen(PrintedFlags(o), g, PrintedFile(o), g1, PrintedNumbers(o), g2);
    AndThen(PrintedFlags(o), g, PrintedNumbers(o), g2, "", BackRead(o, g));
  }

  /** Parsing the printed settings sets every flag and number and keeps the file list. */
  lemma OptionsRoundTrip(o: Settings, g: Globals)
    requires Printable(o)
    ensures ParseOptions(Some(Printed(o)), g) == (Understood(o, g), Accepted)
  {
    var g0 := Defaults(g);
    FrontParses(o, g0);
    BackParses(o, FrontRead(o, g0));
    AndThen(Printed(o), g0, PrintedFlags(o), FrontRead(o, g0), "", BackRead(o, FrontRead(o, g0)));
    NothingParses(BackRead(o, FrontRead(o, g0)));
  }

  lemma NothingParses(g: Globals)
    ensures ParseFrom("", g) == (g, Accepted)
  {
    assert NextToken("", ",=") == None;
  }

  lemma {:induction false} TokenIsFree(s: string, delimiters: string)
    ensures NextToken(s, delimiters).Some? ==>
              var word := NextToken(s, delimiters).value.text; word != [] && Free(word, delimiters)
  {
    var s' := Skipped(s, delimiters);
    SkippedStart(s, delimiters);
    TokenPart(s', delimiters);
  }

  lemma {:induction false} SkippedStart(s: string, delimiters: string)
    ensures Skipped(s, delimiters) != [] ==> Skipped(s, delimiters)[0] !in delimiters
  {
    if s != [] && s[0] in delimiters {
      SkippedStart(s[1..], delimiters);
    }
  }

  lemma {:induction false} TokenPart(s: string, delimiters: string)
    ensures Free(s[..TokenLength(s, delimiters)], delimiters)
  {
    if s != [] && s[0] !in delimiters {
      TokenPart(s[1..], delimiters);
      var n := TokenLength(s[1..], delimiters);
      assert s[..n + 1] == [s[0]] + s[1..][..n];
    }
  }

  predicate FilesFree(g: Globals) {
    g.confFiles.Some? ==> g.confFiles.value != [] && Free(g.confFiles.value, ",")
  }

  lemma StepFiles(next: string, rest: string, g: Globals)
    ensures var files := OptionStep(next, rest, g).g.confFiles;
            files == g.confFiles || files == FileStep(rest, g).g.confFiles
  {
    var number, flag := NumberNamed(next), FlagNamed(next, g);
    if number.Some? {
      assert NumberStep(number.value, rest, g).g.confFiles == g.confFiles;
    } else if flag.Some? {
      assert OptionStep(next, rest, g) == Next(flag.value, rest);
    }
  }

  lemma StepFilesFree(next: string, rest: string, g: Globals, g': Globals)
    requires FilesFree(g) && (g'.confFiles == g.confFiles || g'.confFiles == FileStep(rest, g).g.confFiles)
    ensures FilesFree(g')
  {
    TokenIsFree(rest, ",");
  }

  /** A file list that the parser takes is not empty and has no comma. */
  lemma {:induction false} FilesAreFree(s: string, g: Globals)
    requires FilesFree(g)
    ensures FilesFree(ParseFrom(s, g).0)
    decreases |s|
  {
    var t := NextToken(s, ",=");
    if t.Some? {
      StepConsumes(t.value.text, t.value.rest, g);
      var step := OptionStep(t.value.text, t.value.rest, g);
      StepFiles(t.value.text, t.value.rest, g);
      StepFilesFree(t.value.text, t.value.rest, g, step.g);
      if step.Next? {
        FilesAreFree(step.rest, step.g);
      }
    }
  }

  /** The round trip works exactly for nonempty file lists without a comma. */
  lemma OptionsRoundTripExactly(o: Settings, g: Globals)
    requires IsInt(o.sizeThreshold) && IsInt(o.referenceChainLength) && IsInt(o.port)
    requires o.maxFanIn.Some? ==> IsInt(o.maxFanIn.value)
    ensures ParseOptions(Some(Printed(o)), g) == (Understood(o, g), Accepted) <==>
            o.confFile != [] && Free(o.confFile, ",")
  {
    if Printable(o) {
      OptionsRoundTrip(o, g);
    }
    FilesAreFree(Printed(o), Defaults(g));
  }

  // ---- The code ----

  /** The hidden cursor of `strtok`. */
  class Strtok {
    var cursor: string

    /** `strtok(s, …)` starts on a new string. */
    constructor (s: string)
      ensures cursor == s
    {
      cursor := s;
    }

    method Next(delimiters: string) returns (token: Option<string>)
      modifies this
      ensures var t := NextToken(old(cursor), delimiters);
              if t.None? then token == None && cursor == []
              else token == Some(t.value.text) && cursor == t.value.rest
    {
      var s := cursor;
      var i := 0;
      while i < |s| && s[i] in delimiters
        invariant i <= |s| && Skipped(s[i..], delimiters) == Skipped(s, delimiters)
      {
        i := i + 1;
      }
      var word := s[i..];
      var n := 0;
      while n < |word| && word[n] !in delimiters
        invariant n <= |word| && n + TokenLength(word[n..], delimiters) == TokenLength(word, delimiters)
      {
        n := n + 1;
      }
      cursor := if n < |word| then word[n + 1..] else [];
      return if word == [] then None else Some(word[..n]);
    }
  }

  /** The part of `GlobalData` that the options set. */
  class GlobalData {
    var tcpPort: int
    var sizeThreshold: int
    var referenceChainLength: int
    var maxFanIn: int
    var debug: bool
    var selfCheck: bool
    var runGc: bool
    var showUnreachables: bool
    var considerLocal: bool
    var confFiles: Option<string>

    function View(): Globals
      reads this
    {
      Globals(tcpPort, sizeThreshold, referenceChainLength, maxFanIn, debug, selfCheck, runGc, showUnreachables,
              considerLocal, confFiles)
    }

    /** `parse_agent_options`.  `unreadable` holds the names for which `fopen` fails; every other file is parsed
        (`IniParser.IniParseFile`), and what is in it makes no difference to the result. */
    method ParseAgentOptions(options: Option<string>, separator: string, unreadable: set<string>)
      returns (outcome: Outcome, loaded: seq<string>)
      modifies this
      ensures Parsed(View(), outcome, loaded) == old(ParseAll(options, View(), separator, unreadable))
    {
      outcome := ParseOptionString(options);
      loaded := [];
      if outcome != Accepted || confFiles.None? {
        return;
      }
      var ok;
      loaded, ok := LoadFiles(confFiles.value, separator, unreadable);
      if !ok {
        outcome := Rejected;
      }
    }

    /** The loop over the configuration files. */
    method LoadFiles(files: string, separator: string, unreadable: set<string>) returns (loaded: seq<string>, ok: bool)
      ensures (loaded, ok) == Loaded(files, separator, unreadable)
    {
      ghost var all, before := Loaded(files, separator, unreadable), files;
      loaded := [];
      assert loaded + all.0 == all.0;
      var strtok := new Strtok(files);
      var next := strtok.Next(separator);
      while next.Some?
        invariant fresh(strtok)
        invariant var t := NextToken(before, separator);
                  if t.None? then next == None else next == Some(t.value.text) && strtok.cursor == t.value.rest
        invariant LoadsTo(before, separator, unreadable, loaded, all)
        decreases |before|
      {
        LoadsNext(before, separator, unreadable, loaded, all);
        if next.value in unreadable {
          return loaded, false;
        }
        loaded := loaded + [next.value];
        before := strtok.cursor;
        next := strtok.Next(separator);
      }
      LoadsNext(before, separator, unreadable, loaded, all);
      return loaded, true;
    }

    /** The loop over the options. */
    method ParseOptionString(options: Option<string>) returns (outcome: Outcome)
      modifies this
      ensures (View(), outcome) == old(ParseOptions(options, View()))
    {
      tcpPort, sizeThreshold, referenceChainLength, maxFanIn := 0, 500, 0, 5;
      debug, selfCheck, runGc, showUnreachables, confFiles := false, false, true, false, None;
      if options.None? {
        return Accepted;
      }
      ghost var all := ParseFrom(options.value, View());
      var strtok := new Strtok(options.value);
      var next := strtok.Next(",=");
      ghost var before := options.value;
      while next.Some?
        invariant fresh(strtok) && all == ParseFrom(before, View())
        invariant var t := NextToken(before, ",=");
                  if t.None? then next == None else next == Some(t.value.text) && strtok.cursor == t.value.rest
        decreases |before|
      {
        StepConsumes(next.value, strtok.cursor, View());
        var stopped := HandleOption(next.value, strtok);
        if stopped.Some? {
          return stopped.value;
        }
        before := strtok.cursor;
        next := strtok.Next(",=");
      }
      return Accepted;
    }

    /** One turn of the loop: an outcome if it returns. */
    method HandleOption(next: string, strtok: Strtok) returns (stopped: Option<Outcome>)
      modifies this, strtok
      ensures var step := old(OptionStep(next, strtok.cursor, View()));
              View() == step.g && if step.Next? then stopped == None && strtok.cursor == step.rest
                                  else stopped == Some(step.outcome)
    {
      stopped := None;
      if next == "tcp_port" {
        stopped := ReadNumber(TcpPort, strtok);
      } else if next == "size_threshold" {
        stopped := ReadNumber(SizeThreshold, strtok);
      } else if next == "reference_chain_length" {
        stopped := ReadNumber(ReferenceChainLength, strtok);
      } else if next == "max_fan_in" {
        stopped := ReadNumber(MaxFanIn, strtok);
      } else if next == "debug" {
        debug := true;
      } else if next == "self_check" {
        selfCheck := true;
      } else if next == "no_gc" {
        runGc := false;
      } else if next == "consider_local_references" {
        considerLocal := true;
      } else if next == "conf_file" {
        confFiles := strtok.Next(",");
      } else if next == "show_unreachables" {
        showUnreachables := true;
      } else {
        stopped := Some(Rejected);
      }
    }

    /** The value of a number option. */
    method ReadNumber(field: Number, strtok: Strtok) returns (stopped: Option<Outcome>)
      modifies this, strtok
      ensures var step := old(NumberStep(field, strtok.cursor, View()));
              View() == step.g && if step.Next? then stopped == None && strtok.cursor == step.rest
                                  else stopped == Some(step.outcome)
    {
      var next := strtok.Next(",");
      if next.None? {
        return Some(Crashed);
      }
      var (v, clean) := Strtol(next.value);
      match field {
        case TcpPort => tcpPort := ToInt(v);
        case SizeThreshold => sizeThreshold := ToInt(v);
        case ReferenceChainLength => referenceChainLength := ToInt(v);
        case MaxFanIn => maxFanIn := ToInt(v);
      }
      return if clean then None else Some(Rejected);
    }
  }

  /** `JLeaker` */
  class JLeaker {
    var moreOptions: string

    constructor ()
      ensures moreOptions == ""
    {
      moreOptions := "";
    }

    method AppendFlag(given: bool, name: string, ghost rest: string)
      modifies this
      ensures moreOptions + rest == old(moreOptions) + (Flag(given, name) + rest)
    {
      ghost var before := moreOptions;
      if given {
        moreOptions := moreOptions + (name + ",");
        assert moreOptions + rest == before + (Flag(given, name) + rest);
      } else {
        assert Flag(given, name) + rest == rest;
      }
    }

    method AppendNumber(name: string, v: int, ghost rest: string)
      modifies this
      ensures moreOptions + rest == old(moreOptions) + NumberOption(name, v, "," + rest)
    {
      moreOptions := Number(moreOptions, name, v, rest);
    }

    /** The end of `parse`: the options that the agent gets before the numbers. */
    method Parse(o: Settings)
      modifies this
      ensures moreOptions + PrintedNumbers(o) == old(moreOptions) + Printed(o)
    {
      AppendFlag(o.debug, "debug", Flag(o.selfCheck, "self_check") + PrintedFanIn(o));
      AppendFlag(o.selfCheck, "self_check", PrintedFanIn(o));
      if o.maxFanIn.Some? {
        AppendNumber("max_fan_in", o.maxFanIn.value, PrintedFlags(o));
      }
      AppendFlags(o);
      AppendFile(o);
    }

    method AppendFlags(o: Settings)
      modifies this
      ensures moreOptions + PrintedFile(o) == old(moreOptions) + PrintedFlags(o)
    {
      ghost var local := Flag(o.considerLocal, "consider_local_references") + PrintedFile(o);
      AppendFlag(o.showUnreachables, "show_unreachables", Flag(o.noGc, "no_gc") + local);
      AppendFlag(o.noGc, "no_gc", local);
      AppendFlag(o.considerLocal, "consider_local_references", PrintedFile(o));
    }

    method AppendFile(o: Settings)
      modifies this
      ensures moreOptions + PrintedNumbers(o) == old(moreOptions) + PrintedFile(o)
    {
      moreOptions := Value(moreOptions, "conf_file", o.confFile, PrintedNumbers(o));
    }

    /** The argument of `loadAgentPath` in `execute`. */
    method Execute(o: Settings) returns (options: string)
      requires moreOptions == ""
      modifies this
      ensures options == Printed(o)
    {
      Parse(o);
      ghost var port := NumberOption("tcp_port", o.port, "");
      ghost var length := NumberOption("reference_chain_length", o.referenceChainLength, "," + port);
      options := moreOptions;
      options := Number(options, "size_threshold", o.sizeThreshold, length);
      options := Number(options, "reference_chain_length", o.referenceChainLength, port);
      ghost var before := options;
      options := options + ("tcp_port" + "=" + Decimal(o.port));
      assert options == before + port;
      assert "" + Printed(o) == Printed(o);
    }

    static method Number(s: string, name: string, v: int, ghost rest: string) returns (r: string)
      ensures r + rest == s + NumberOption(name, v, "," + rest)
    {
      r := Value(s, name, Decimal(v), rest);
    }

    static method Value(s: string, name: string, value: string, ghost rest: string) returns (r: string)
      ensures r + rest == s + (name + "=" + value + ("," + rest))
    {
      r := s + (name + "=" + value + ",");
      assert r + rest == s + (name + "=" + value + ("," + rest));
    }
  }
}
