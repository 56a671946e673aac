/** What each option of the agent means, word by word, and what the launcher writes. */
module OptionLaws {
  import opened Wrappers
  import opened AgentOptions
  import Launch

  // ---- Numbers ----

  /** The value of a string of decimal digits. */
  function Value(s: string): nat
    requires forall c <- s :: '0' <= c <= '9'
  {
    if s == [] then 0
    else
      var last := |s| - 1;
      assert s[last] in s;
      assert forall c <- s[..last] :: c in s;
      10 * Value(s[..last]) + (s[last] as int - '0' as int)
  }

  predicate DigitsOnly(s: string) { s != [] && forall c <- s :: '0' <= c <= '9' }

  /** The nearest number that a 64-bit `long` can hold. */
  function Nearest(v: int): int {
    if v > 0x7fff_ffff_ffff_ffff then 0x7fff_ffff_ffff_ffff
    else if v < -0x8000_0000_0000_0000 then -0x8000_0000_0000_0000
    else v
  }

  lemma ValueNext(s: string, c: char)
    requires (forall d <- s :: '0' <= d <= '9') && '0' <= c <= '9'
    ensures (forall d <- s + [c] :: '0' <= d <= '9') && Value(s + [c]) == 10 * Value(s) + (c as int - '0' as int)
  {
    assert (s + [c])[..|s|] == s;
  }

  lemma {:induction false} DigitsAsRead(s: string)
    requires forall c <- s :: '0' <= c <= '9'
    ensures DigitsFrom(0, s) == (Value(s), "")
  {
    if s != [] {
      var n := |s| - 1;
      assert s == s[..n] + [s[n]] && s[n] in s;
      assert forall c <- s[..n] :: c in s;
      DigitsAsRead(s[..n]);
      ValueNext(s[..n], s[n]);
      DigitsSplit(0, s[..n], [s[n]]);
      OneDigit(Value(s[..n]), s[n]);
    }
  }

  /** Digits with an optional sign are read as the number that they are, if a `long` can hold it. */
  lemma NumberIsRead(sign: string, s: string)
    requires (sign == "" || sign == "+" || sign == "-") && DigitsOnly(s)
    ensures Strtol(sign + s) == (Nearest(if sign == "-" then 0 - Value(s) else Value(s)), true)
  {
    DigitsAsRead(s);
    var t := sign + s;
    assert s[0] in s;
    assert t[0] == if sign == "" then s[0] else sign[0];
    assert SkipSpace(t) == t;
    assert (if t[0] == '-' || t[0] == '+' then t[1..] else t) == s;
  }

  /** What follows the digits makes the number unclean, but it counts. */
  lemma JunkBehind(sign: string, s: string, junk: string)
    requires (sign == "" || sign == "+" || sign == "-") && DigitsOnly(s)
    requires junk != [] && !('0' <= junk[0] <= '9')
    ensures Strtol(sign + s + junk) == (Nearest(if sign == "-" then 0 - Value(s) else Value(s)), false)
  {
    DigitsAsRead(s);
    DigitsSplit(0, s, junk);
    var t := sign + s + junk;
    assert s[0] in s;
    assert t[0] == if sign == "" then s[0] else sign[0];
    assert SkipSpace(t) == t;
    assert (if t[0] == '-' || t[0] == '+' then t[1..] else t) == s + junk;
  }

  /** Without a digit there is no number. */
  lemma NoDigits(sign: string, junk: string)
    requires sign == "" || sign == "+" || sign == "-"
    requires junk == [] || !('0' <= junk[0] <= '9')
    requires sign == "" && junk != [] ==> junk[0] != '+' && junk[0] != '-' && !IsBlank(junk[0])
    ensures Strtol(sign + junk) == (0, false)
  {
    var t := sign + junk;
    assert t != [] ==> t[0] == if sign == "" then junk[0] else sign[0];
    assert SkipSpace(t) == t;
    assert sign != "" ==> t[1..] == junk;
  }

  predicate IsBlank(c: char) { c == ' ' || c == '\t' || c == '\n' || c == '\r' || c as int == 11 || c as int == 12 }

  lemma {:induction false} BlanksInFront(blank: string, s: string)
    requires forall c <- blank :: IsBlank(c)
    ensures Strtol(blank + s) == Strtol(s)
  {
    SpaceSkipped(blank, s);
  }

  lemma {:induction false} SpaceSkipped(blank: string, s: string)
    requires forall c <- blank :: IsBlank(c)
    ensures SkipSpace(blank + s) == SkipSpace(s)
  {
    if blank == [] {
      assert blank + s == s;
    } else {
      assert blank[0] in blank && (blank + s)[1..] == blank[1..] + s;
      SpaceSkipped(blank[1..], s);
    }
  }

  /** The conversion to `int` keeps the lowest 32 bits. */
  lemma ConversionExactly(v: int)
    ensures -0x8000_0000 <= ToInt(v) < 0x8000_0000 && (ToInt(v) - v) % 0x1_0000_0000 == 0
  {
    var q := v / 0x1_0000_0000;
    assert v == q * 0x1_0000_0000 + v % 0x1_0000_0000;
    assert ToInt(v) - v == (if v % 0x1_0000_0000 >= 0x8000_0000 then -q - 1 else -q) * 0x1_0000_0000;
    Multiple(if v % 0x1_0000_0000 >= 0x8000_0000 then -q - 1 else -q);
  }

  lemma Multiple(q: int)
    ensures (q * 0x1_0000_0000) % 0x1_0000_0000 == 0
  {
  }

  /** What the launcher writes for a number: its digits, without a zero in front, and a minus sign if it is negative. */
  lemma {:induction false} DigitsExactly(n: nat)
    ensures Value(Digits(n)) == n && (Digits(n)[0] == '0' ==> n == 0 && |Digits(n)| == 1)
  {
    var last := (48 + n % 10) as char;
    if n >= 10 {
      DigitsExactly(n / 10);
      ValueNext(Digits(n / 10), last);
      assert Digits(n) == Digits(n / 10) + [last];
    } else {
      ValueNext([], last);
      assert Digits(n) == [] + [last];
    }
  }

  lemma DecimalExactly(v: int)
    ensures v >= 0 ==> DigitsOnly(Decimal(v)) && Value(Decimal(v)) == v
    ensures v < 0 ==> Decimal(v)[0] == '-' && DigitsOnly(Decimal(v)[1..]) && Value(Decimal(v)[1..]) == -v
  {
    DigitsExactly(if v < 0 then -v else v);
  }

  // ---- Tokens ----

  /** A delimiter in front makes no difference, and a word is a token. */
  lemma TokensExactly(word: string, d: char, rest: string, delimiters: string)
    requires d in delimiters && word != [] && forall c <- word :: c !in delimiters
    ensures Tokens([], delimiters) == []
    ensures Tokens([d] + rest, delimiters) == Tokens(rest, delimiters)
    ensures Tokens(word, delimiters) == [word]
    ensures Tokens(word + ([d] + rest), delimiters) == [word] + Tokens(rest, delimiters)
  {
    assert NextToken([], delimiters) == None;
    assert ([d] + rest)[1..] == rest;
    assert NextToken([d] + rest, delimiters) == NextToken(rest, delimiters);
    TokenIs(word, [d] + rest, delimiters);
    assert word + [] == word;
    TokenIs(word, [], delimiters);
  }

  // ---- Options ----

  /** The settings of the agent when no option is given. */
  lemma DefaultsExactly(g: Globals, options: string)
    ensures var d := Globals(0, 500, 0, 5, false, false, true, false, g.considerLocal, None);
            && ParseOptions(None, g) == (d, Accepted)
            && ParseOptions(Some(options), g) == ParseFrom(options, d)
  {
  }

  predicate Plain(word: string) { word != [] && forall c <- word :: c != ',' && c != '=' }

  lemma PlainIsFree(word: string)
    ensures Plain(word) <==> word != [] && Free(word, ",=")
  {
  }

  /** A word that is no option is rejected, whatever follows. */
  lemma UnknownOption(word: string, after: string, g: Globals)
    requires Plain(word) && (after == [] || after[0] == ',' || after[0] == '=')
    requires word !in {"tcp_port", "size_threshold", "reference_chain_length", "max_fan_in", "debug", "self_check",
                       "no_gc", "consider_local_references", "conf_file", "show_unreachables"}
    ensures ParseFrom(word + after, g) == (g, Rejected)
  {
    PlainIsFree(word);
    TokenIs(word, after, ",=");
  }

  /** The words without a value. */
  function AfterFlag(word: string, g: Globals): Option<Globals> {
    match word
    case "debug" => Some(g.(debug := true))
    case "self_check" => Some(g.(selfCheck := true))
    case "no_gc" => Some(g.(runGc := false))
    case "consider_local_references" => Some(g.(considerLocal := true))
    case "show_unreachables" => Some(g.(showUnreachables := true))
    case _ => None
  }

  lemma FlagWord(word: string, g: Globals)
    requires AfterFlag(word, g).Some?
    ensures word != [] && Free(word, ",=") && NumberNamed(word).None? && FlagNamed(word, g) == AfterFlag(word, g)
  {
    FlagsAreWords();
    NamedFlags(g);
  }

  lemma FlagOption(word: string, rest: string, g: Globals)
    requires AfterFlag(word, g).Some?
    ensures ParseFrom(word + ("," + rest), g) == ParseFrom(rest, AfterFlag(word, g).value)
    ensures ParseFrom(word, g) == (AfterFlag(word, g).value, Accepted)
  {
    FlagWord(word, g);
    FlagTokens(word, rest, g, AfterFlag(word, g).value);
  }

  lemma FlagTokens(word: string, rest: string, g: Globals, g': Globals)
    requires word != [] && Free(word, ",=") && NumberNamed(word).None? && FlagNamed(word, g) == Some(g')
    ensures ParseFrom(word + ("," + rest), g) == ParseFrom(rest, g') && ParseFrom(word, g) == (g', Accepted)
  {
    assert ("," + rest)[1..] == rest;
    TokenIs(word, "," + rest, ",=");
    assert word + [] == word;
    TokenIs(word, [], ",=");
    NothingParses(g');
  }

  /** The words with a number. */
  function AfterNumber(word: string, v: int, g: Globals): Option<Globals> {
    match word
    case "tcp_port" => Some(g.(tcpPort := v))
    case "size_threshold" => Some(g.(sizeThreshold := v))
    case "reference_chain_length" => Some(g.(referenceChainLength := v))
    case "max_fan_in" => Some(g.(maxFanIn := v))
    case _ => None
  }

  lemma NumberWord(word: string, v: int, g: Globals)
    requires AfterNumber(word, v, g).Some?
    ensures word != [] && Free(word, ",=") && NumberNamed(word).Some?
    ensures SetNumber(g, NumberNamed(word).value, v) == AfterNumber(word, v, g).value
  {
    ValuesAreWords();
  }

  /** A clean number sets its field, and the rest of the string is parsed; an unclean one sets it and is rejected. */
  lemma NumberOptionExactly(word: string, value: string, rest: string, g: Globals, v: int, clean: bool)
    requires AfterNumber(word, ToInt(v), g).Some? && value != [] && ',' !in value && Strtol(value) == (v, clean)
    ensures var g' := AfterNumber(word, ToInt(v), g).value;
            && ParseFrom(word + "=" + value + ("," + rest), g) ==
               (if clean then ParseFrom(rest, g') else (g', Rejected))
            && ParseFrom(word + "=" + value + "", g) == (g', if clean then Accepted else Rejected)
  {
    var g' := AfterNumber(word, ToInt(v), g).value;
    NumberWord(word, ToInt(v), g);
    assert ("," + rest)[1..] == rest;
    ValueTokens(word, value, "," + rest);
    ValueTokens(word, value, "");
    NothingParses(g');
  }

  /** Without a value, the agent dereferences the null pointer. */
  lemma MissingNumber(word: string, g: Globals)
    requires AfterNumber(word, 0, g).Some?
    ensures ParseFrom(word, g) == (g, Crashed)
  {
    NumberWord(word, 0, g);
    assert word + [] == word;
    TokenIs(word, [], ",=");
    assert NextToken([], ",") == None;
  }

  /** The list of configuration files reaches to the next comma. */
  lemma FileOption(files: string, rest: string, g: Globals)
    requires files != [] && ',' !in files
    ensures ParseFrom("conf_file" + "=" + files + ("," + rest), g) == ParseFrom(rest, g.(confFiles := Some(files)))
    ensures ParseFrom("conf_file", g) == (g.(confFiles := None), Accepted)
  {
    FileWord(g, files + ("," + rest));
    FileWord(g, []);
    assert ("," + rest)[1..] == rest;
    ValueTokens("conf_file", files, "," + rest);
    MissingFile("conf_file", g);
  }

  lemma FileWord(g: Globals, rest: string)
    ensures Free("conf_file", ",=") && OptionStep("conf_file", rest, g) == FileStep(rest, g)
  {
    ValuesAreWords();
  }

  lemma MissingFile(word: string, g: Globals)
    requires word != [] && Free(word, ",=") && OptionStep(word, [], g) == FileStep([], g)
    ensures ParseFrom(word, g) == (g.(confFiles := None), Accepted)
  {
    assert word + [] == word;
    TokenIs(word, [], ",=");
    assert NextToken([], ",") == None;
    NothingParses(g.(confFiles := None));
  }

  /** All options are accepted if each of them is and every configuration file can be opened.  The files are read in
      order, up to the first one that cannot. */
  lemma AcceptedExactly(options: Option<string>, g: Globals, separator: string, unreadable: set<string>)
    ensures var parsed := ParseAll(options, g, separator, unreadable);
            var files := if ParseOptions(options, g).1 == Accepted && parsed.g.confFiles.Some?
                         then Tokens(parsed.g.confFiles.value, separator) else [];
            && parsed.g == ParseOptions(options, g).0
            && (ParseOptions(options, g).1 != Accepted ==> parsed.outcome == ParseOptions(options, g).1)
            && |parsed.loaded| <= |files| && parsed.loaded == files[..|parsed.loaded|]
            && (forall f <- parsed.loaded :: f !in unreadable)
            && (ParseOptions(options, g).1 == Accepted ==>
                  if parsed.loaded == files then parsed.outcome == Accepted
                  else parsed.outcome == Rejected && files[|parsed.loaded|] in unreadable)
  {
    var g' := ParseOptions(options, g).0;
    if g'.confFiles.Some? {
      Launch.LoadedExactly(g'.confFiles.value, separator, unreadable);
    }
  }

  // ---- What the launcher writes ----

  /** The string that the launcher loads the agent with: an option for each setting, with a comma behind all but the
      last. */
  lemma PrintedExactly(o: Settings)
    ensures var back :=
              (if o.showUnreachables then "show_unreachables" + "," else "") +
              ((if o.noGc then "no_gc" + "," else "") +
               ((if o.considerLocal then "consider_local_references" + "," else "") +
                ("conf_file" + "=" + o.confFile + ("," +
                 ("size_threshold" + "=" + Decimal(o.sizeThreshold) + ("," +
                  ("reference_chain_length" + "=" + Decimal(o.referenceChainLength) + ("," +
                   ("tcp_port" + "=" + Decimal(o.port) + "")))))))));
            Printed(o) ==
            (if o.debug then "debug" + "," else "") +
            ((if o.selfCheck then "self_check" + "," else "") +
             (if o.maxFanIn.Some? then "max_fan_in" + "=" + Decimal(o.maxFanIn.value) + ("," + back) else back))
  {
  }

  /** The launcher gives up exactly if a named file cannot be read; otherwise the list has the named files, where
      they were found, and then the default one. */
  lemma ListExactly(names: seq<string>, separator: char, defaultConf: string, fs: Launch.FileSystem)
    requires names != [] && forall f <- names :: f != [] && separator !in f
    ensures var given := Some(Launch.Joined(names, separator));
            var paths := seq(|names|, i requires 0 <= i < |names| =>
                           if names[i] in fs.paths then fs.paths[names[i]] else names[i]);
            Launch.FileList(given, separator, defaultConf, fs) ==
            if exists f <- paths :: f !in fs.readable then None
            else Some(Launch.Joined(paths + [defaultConf], separator))
  {
    Launch.JoinedTokens(names, separator);
    Launch.PrefixIsJoined(Launch.Paths(fs, names), separator, defaultConf);
    assert Launch.Paths(fs, names) == seq(|names|, i requires 0 <= i < |names| =>
                                            if names[i] in fs.paths then fs.paths[names[i]] else names[i]);
  }

  /** Without a list, the default file is the only one; a list of no names is passed on as it is. */
  lemma ListWithoutNames(given: string, separator: char, defaultConf: string, fs: Launch.FileSystem)
    ensures Launch.FileList(None, separator, defaultConf, fs) == Some(defaultConf)
    ensures Tokens(given, [separator]) == [] ==>
              Launch.FileList(Some(given), separator, defaultConf, fs) == Some(given)
  {
  }
}
