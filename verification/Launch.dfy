/** From the launcher's command line to the files that the agent reads: how `JLeaker.java` makes up the list of
    configuration files, and what becomes of it in the agent. */
module Launch {
  import opened Wrappers
  import opened AgentOptions

  // ---- Lists of files ----

  /** The files with the separator between them. */
  function Joined(files: seq<string>, separator: char): string
    requires files != []
  {
    if |files| == 1 then files[0] else files[0] + ([separator] + Joined(files[1..], separator))
  }

  predicate Listable(files: seq<string>, separator: char) {
    forall f <- files :: f != [] && separator !in f
  }

  lemma {:induction false} JoinedTokens(files: seq<string>, separator: char)
    requires files != [] && Listable(files, separator)
    ensures Tokens(Joined(files, separator), [separator]) == files
  {
    assert files[0] in files;
    if |files| == 1 {
      assert files[0] + [] == files[0];
      TokenIs(files[0], [], [separator]);
      assert Tokens([], [separator]) == [];
    } else {
      var after := [separator] + Joined(files[1..], separator);
      assert after[1..] == Joined(files[1..], separator);
      TokenIs(files[0], after, [separator]);
      JoinedTokens(files[1..], separator);
    }
  }

  lemma {:induction false} TokensAreFree(s: string, delimiters: string)
    ensures forall word <- Tokens(s, delimiters) :: word != [] && Free(word, delimiters)
    decreases |s|
  {
    var t := NextToken(s, delimiters);
    if t.Some? {
      TokenIsFree(s, delimiters);
      TokensAreFree(t.value.rest, delimiters);
    }
  }

  /** Taking a joined list apart gives the files back exactly if none is empty or has the separator in it. */
  lemma FilesRoundTripExactly(files: seq<string>, separator: char)
    requires files != []
    ensures Tokens(Joined(files, separator), [separator]) == files <==> Listable(files, separator)
  {
    if Listable(files, separator) {
      JoinedTokens(files, separator);
    }
    TokensAreFree(Joined(files, separator), [separator]);
  }

  /** The agent opens the tokens up to the first unreadable one. */
  lemma {:induction false} LoadedExactly(s: string, separator: string, unreadable: set<string>)
    ensures var (loaded, ok) := Loaded(s, separator, unreadable);
            var files := Tokens(s, separator);
            && |loaded| <= |files| && loaded == files[..|loaded|]
            && (forall f <- loaded :: f !in unreadable)
            && (ok <==> loaded == files) && (!ok ==> |loaded| < |files| && files[|loaded|] in unreadable)
    decreases |s|
  {
    var t := NextToken(s, separator);
    if t.Some? && t.value.text !in unreadable {
      LoadedExactly(t.value.rest, separator, unreadable);
    }
  }

  // ---- The launcher's list ----

  /** How the launcher sees the file system: the path that a name stands for, seen from the configuration directory, and
      whether the file there can be read. */
  datatype FileSystem = FileSystem(paths: map<string, string>, readable: set<string>)

  function PathOf(fs: FileSystem, name: string): string { if name in fs.paths then fs.paths[name] else name }

  function Paths(fs: FileSystem, names: seq<string>): seq<string> {
    seq(|names|, i requires 0 <= i < |names| => PathOf(fs, names[i]))
  }

  /** The files in front of the default one, each with a separator after it. */
  function Prefix(files: seq<string>, separator: char): string {
    if files == [] then [] else Prefix(files[..|files| - 1], separator) + files[|files| - 1] + [separator]
  }

  /** The value of `conf_file`; none if the launcher throws an exception. */
  function FileList(given: Option<string>, separator: char, defaultConf: string, fs: FileSystem): Option<string> {
    if given.None? then Some(defaultConf)
    else
      var names := Tokens(given.value, [separator]);
      if names == [] then given
      else if exists f <- Paths(fs, names) :: f !in fs.readable then None
      else Some(Prefix(Paths(fs, names), separator) + defaultConf)
  }

  lemma {:induction false} PrefixIsJoined(files: seq<string>, separator: char, last: string)
    ensures Prefix(files, separator) + last == Joined(files + [last], separator)
  {
    if files == [] {
      assert [last] == files + [last];
      assert [] + last == last;
    } else {
      var k := |files| - 1;
      PrefixIsJoined(files[..k], separator, files[k] + ([separator] + last));
      assert Prefix(files, separator) + last == Prefix(files[..k], separator) + (files[k] + ([separator] + last));
      LastTwo(files[..k], files[k], last, separator);
      assert files[..k] + [files[k], last] == files + [last];
    }
  }

  lemma {:induction false} LastTwo(files: seq<string>, a: string, b: string, separator: char)
    ensures Joined(files + [a + ([separator] + b)], separator) == Joined(files + [a, b], separator)
  {
    if files == [] {
      assert Joined([a, b], separator) == a + ([separator] + Joined([a, b][1..], separator));
      assert [a, b][1..] == [b];
    } else {
      LastTwo(files[1..], a, b, separator);
      assert (files + [a + ([separator] + b)])[1..] == files[1..] + [a + ([separator] + b)];
      assert (files + [a, b])[1..] == files[1..] + [a, b];
    }
  }

  /** The names from the `k`-th on are still to be read from `rest`. */
  predicate Left(names: seq<string>, k: nat, rest: string, separator: char) {
    k <= |names| && Tokens(rest, [separator]) == names[k..]
  }

  lemma LeftNext(names: seq<string>, k: nat, rest: string, separator: char)
    requires Left(names, k, rest, separator)
    ensures var t := NextToken(rest, [separator]);
            if t.None? then k == |names|
            else k < |names| && names[k] == t.value.text && Left(names, k + 1, t.value.rest, separator)
  {
  }

  lemma PrefixNext(files: seq<string>, k: nat, separator: char)
    requires k < |files|
    ensures Prefix(files[..k + 1], separator) == Prefix(files[..k], separator) + files[k] + [separator]
  {
    assert files[..k + 1][..k] == files[..k];
  }

  /** The end of `JLeaker.parse`: the value of `conf_file`, or an exception. */
  method NormalizeFiles(given: Option<string>, separator: char, defaultConf: string, fs: FileSystem)
    returns (confFile: Option<string>)
    ensures confFile == FileList(given, separator, defaultConf, fs)
  {
    if given.None? {
      return Some(defaultConf);
    }
    ghost var names := Tokens(given.value, [separator]);
    ghost var before, k := given.value, 0;
    ghost var paths := Paths(fs, names);
    var tokens := new Strtok(given.value);
    var next := tokens.Next([separator]);
    if next.None? {
      return given;
    }
    var normalized := "";
    while next.Some?
      invariant fresh(tokens) && Left(names, k, before, separator)
      invariant var t := NextToken(before, [separator]);
                if t.None? then next == None else next == Some(t.value.text) && tokens.cursor == t.value.rest
      invariant forall i | 0 <= i < k :: paths[i] in fs.readable
      invariant normalized == Prefix(paths[..k], separator)
      decreases |before|
    {
      LeftNext(names, k, before, separator);
      var path := PathOf(fs, next.value);
      assert paths[k] == path;
      if path !in fs.readable {
        return None;
      }
      PrefixNext(paths, k, separator);
      normalized := normalized + path + [separator];
      before, k := tokens.cursor, k + 1;
      next := tokens.Next([separator]);
    }
    LeftNext(names, k, before, separator);
    assert paths[..k] == paths;
    return Some(normalized + defaultConf);
  }

  // ---- From the launcher to the agent ----

  /** The files that the agent should read: those given, where the launcher found them, and the default one. */
  function Wanted(given: Option<string>, separator: char, defaultConf: string, fs: FileSystem): seq<string> {
    (if given.None? then [] else Paths(fs, Tokens(given.value, [separator]))) + [defaultConf]
  }

  /** A list that names no file at all: empty, or nothing but separators. */
  predicate NamesNothing(given: Option<string>, separator: char) {
    given.Some? && Tokens(given.value, [separator]) == []
  }

  lemma FileListIsJoined(given: Option<string>, separator: char, defaultConf: string, fs: FileSystem)
    requires !NamesNothing(given, separator) && FileList(given, separator, defaultConf, fs).Some?
    ensures FileList(given, separator, defaultConf, fs).value ==
            Joined(Wanted(given, separator, defaultConf, fs), separator)
  {
    if given.Some? {
      PrefixIsJoined(Paths(fs, Tokens(given.value, [separator])), separator, defaultConf);
    }
  }

  lemma {:induction false} JoinedFree(files: seq<string>, separator: char, delimiters: string)
    requires files != [] && separator !in delimiters
    ensures Free(Joined(files, separator), delimiters) <==> forall f <- files :: Free(f, delimiters)
  {
    assert files[0] in files;
    if |files| > 1 {
      var rest := Joined(files[1..], separator);
      JoinedFree(files[1..], separator, delimiters);
      var all := files[0] + ([separator] + rest);
      assert Joined(files, separator) == all;
      assert forall c: char :: c in all <==> c in files[0] || c == separator || c in rest;
      assert forall f: string :: f in files <==> f == files[0] || f in files[1..];
    }
  }

  /** What the agent makes of the launcher's options when every file is still there. */
  predicate Understands(o: Settings, g: Globals, files: seq<string>, separator: char) {
    ParseAll(Some(Printed(o)), g, [separator], {}) == Parsed(Understood(o, g), Accepted, files)
  }

  lemma UnderstandsExactly(o: Settings, g: Globals, files: seq<string>, separator: char)
    requires IsInt(o.sizeThreshold) && IsInt(o.referenceChainLength) && IsInt(o.port)
    requires o.maxFanIn.Some? ==> IsInt(o.maxFanIn.value)
    ensures Understands(o, g, files, separator) <==>
            o.confFile != [] && Free(o.confFile, ",") && Tokens(o.confFile, [separator]) == files
  {
    OptionsRoundTripExactly(o, g);
    LoadedExactly(o.confFile, [separator], {});
  }

  /** The agent reads exactly the files that it should, in that order, and takes over all other settings, if and only if
      no path is empty or contains a comma or the separator. */
  lemma LaunchExactly(o: Settings, g: Globals, given: Option<string>, separator: char, defaultConf: string,
                      fs: FileSystem)
    requires IsInt(o.sizeThreshold) && IsInt(o.referenceChainLength) && IsInt(o.port)
    requires o.maxFanIn.Some? ==> IsInt(o.maxFanIn.value)
    requires !NamesNothing(given, separator) && separator != ','
    requires FileList(given, separator, defaultConf, fs) == Some(o.confFile)
    ensures Understands(o, g, Wanted(given, separator, defaultConf, fs), separator) <==>
            forall f <- Wanted(given, separator, defaultConf, fs) :: f != [] && separator !in f && ',' !in f
  {
    var files := Wanted(given, separator, defaultConf, fs);
    FileListIsJoined(given, separator, defaultConf, fs);
    UnderstandsExactly(o, g, files, separator);
    JoinedFree(files, separator, ",");
    FilesRoundTripExactly(files, separator);
    assert forall f: string :: Free(f, ",") <==> ',' !in f;
  }

  /** A list of nothing but separators leaves the agent without any file, even the default one; an empty one is not even
      understood. */
  lemma NothingIsRead(o: Settings, g: Globals, given: string, separator: char, defaultConf: string, fs: FileSystem)
    requires IsInt(o.sizeThreshold) && IsInt(o.referenceChainLength) && IsInt(o.port)
    requires o.maxFanIn.Some? ==> IsInt(o.maxFanIn.value)
    requires NamesNothing(Some(given), separator) && separator != ',' && o.confFile == given
    ensures FileList(Some(given), separator, defaultConf, fs) == Some(o.confFile)
    ensures Understands(o, g, [], separator) <==> given != []
  {
    UnderstandsExactly(o, g, [], separator);
    OnlySeparators(given, separator);
  }

  lemma {:induction false} OnlySeparators(s: string, separator: char)
    requires Tokens(s, [separator]) == []
    ensures forall c <- s :: c == separator
  {
    assert s != [] && s[0] != separator ==> NextToken(s, [separator]).Some?;
    if s != [] {
      assert NextToken(s, [separator]) == NextToken(s[1..], [separator]);
      OnlySeparators(s[1..], separator);
      assert s == [s[0]] + s[1..];
    }
  }
}
