/** The state in which the passes of a run begin, in terms of the settings and of what the JVM answers. */
module StartOfRun {
  import opened Wrappers
  import opened LeakBits
  import opened DataStruct
  import opened Recording
  import opened FieldIndex
  import opened Callback
  import opened Session

  // ---- The leaks ----

  /** The places of the candidates that are too large, among the first `k`. */
  function TooLarge(candidates: seq<Candidate>, threshold: int, k: nat): set<nat>
    requires k <= |candidates|
  {
    set i: nat | i < k && candidates[i].size > threshold
  }

  lemma TooLargeNext(candidates: seq<Candidate>, threshold: int, k: nat)
    requires 0 < k <= |candidates|
    ensures TooLarge(candidates, threshold, k) ==
            TooLarge(candidates, threshold, k - 1) + if candidates[k - 1].size > threshold then {k - 1} else {}
  {
  }

  lemma {:induction false} LeakCount(candidates: seq<Candidate>, threshold: int, k: nat)
    requires k <= |candidates|
    ensures |Leaking(candidates, threshold, k)| == |TooLarge(candidates, threshold, k)|
  {
    if k > 0 {
      LeakCount(candidates, threshold, k - 1);
      TooLargeNext(candidates, threshold, k);
    } else {
      assert TooLarge(candidates, threshold, k) == {};
    }
  }

  lemma {:induction false} LeakAt(candidates: seq<Candidate>, threshold: int, k: nat, i: nat)
    requires i < k <= |candidates| && candidates[i].size > threshold
    ensures var n := |TooLarge(candidates, threshold, i)|;
            n < |Leaking(candidates, threshold, k)| && Leaking(candidates, threshold, k)[n] == candidates[i]
  {
    if i < k - 1 {
      LeakAt(candidates, threshold, k - 1, i);
    } else {
      LeakCount(candidates, threshold, i);
    }
  }

  /** A collection over the threshold is a leak; its number is that of such collections before it, and its node has its
      size and its own bit, with room for the leaks up to it. */
  lemma LeakNodeExactly(settings: Settings, jvm: Jvm, lists: map<string, seq<IgnoreRule>>, i: nat)
    requires Answers(settings, jvm) && i < |jvm.candidates| && jvm.candidates[i].size > settings.sizeThreshold
    ensures var k, s := |TooLarge(jvm.candidates, settings.sizeThreshold, i)|, Begun(settings, jvm, lists);
            && k < |TooLarge(jvm.candidates, settings.sizeThreshold, |jvm.candidates|)| == |Leaks(settings, jvm)|
            && Leaks(settings, jvm)[k] == jvm.candidates[i]
            && k < |s.nodes| == |s.owner| && s.owner[k] == jvm.candidates[i].obj
            && s.nodes[k] == Node(false, false, false, Some(jvm.candidates[i].obj), jvm.candidates[i].size,
                                  Bits(k + 1, {k}), [], 1, [], [])
  {
    LeakCount(jvm.candidates, settings.sizeThreshold, |jvm.candidates|);
    LeakAt(jvm.candidates, settings.sizeThreshold, |jvm.candidates|, i);
  }

  // ---- The classes ----

  /** A class that takes the ignore list of its name, if there is one. */
  predicate Takes(c: LoadedClass, name: string) { !c.isClassClass && c.ready && c.name == name }

  /** No class before the `m`-th takes the list of the name. */
  predicate FirstToTake(classes: seq<LoadedClass>, m: nat, name: string)
    requires m <= |classes|
  {
    forall i: nat | i < m :: !Takes(classes[i], name)
  }

  lemma {:induction false} ListsLeft(h: seq<Klass>, leaks: nat, classes: seq<LoadedClass>,
                                     lists: map<string, seq<IgnoreRule>>, m: nat, name: string)
    requires InHierarchy(h, classes) && m <= |classes|
    ensures var left := TaggedClasses(h, leaks, classes, lists, m).lists;
            && (name in left <==> name in lists)
            && (name in left ==> left[name] == if FirstToTake(classes, m, name) then lists[name] else [])
  {
    if m > 0 {
      ListsLeft(h, leaks, classes, lists, m - 1, name);
      assert FirstToTake(classes, m, name) <==>
             FirstToTake(classes, m - 1, name) && !Takes(classes[m - 1], name);
    }
  }

  /** The rules that the `m`-th class gets. */
  function RulesOf(classes: seq<LoadedClass>, lists: map<string, seq<IgnoreRule>>, m: nat): seq<IgnoreRule>
    requires m < |classes|
  {
    var name := classes[m].name;
    if Takes(classes[m], name) && name in lists && FirstToTake(classes, m, name) then lists[name] else []
  }

  /** The entries of a node are rules with field numbers. */
  ghost predicate Entries(h: seq<Klass>, c: LoadedClass, rules: seq<IgnoreRule>, ignore: seq<IgnoreField>)
    requires Loaded(h) && c.id < |h|
  {
    && |ignore| == |rules|
    && forall i: nat | i < |rules| ::
         ignore[i].field == OffsetOf(h, c.id, rules[i].fieldName) && ignore[i].threshold == rules[i].threshold
  }

  lemma {:induction false} ClassNodeAt(h: seq<Klass>, leaks: nat, classes: seq<LoadedClass>,
                                       lists: map<string, seq<IgnoreRule>>, k: nat, m: nat) returns (p: nat)
    requires InHierarchy(h, classes) && m < k <= |classes| && !classes[m].isClassClass
    ensures var t := TaggedClasses(h, leaks, classes, lists, k);
            && p < |t.nodes| && t.objects[p] == classes[m].obj && t.nodes[p].isClass
            && Entries(h, classes[m], RulesOf(classes, lists, m), t.nodes[p].ignore)
  {
    if m < k - 1 {
      p := ClassNodeAt(h, leaks, classes, lists, k - 1, m);
    } else {
      p := |TaggedClasses(h, leaks, classes, lists, m).nodes|;
      ListsLeft(h, leaks, classes, lists, m, classes[m].name);
    }
  }

  /** Every listed class but `java.lang.Class` has a class node, whose entries are those of its ignore list. */
  lemma ClassNodeExactly(settings: Settings, jvm: Jvm, lists: map<string, seq<IgnoreRule>>, m: nat)
    requires Answers(settings, jvm) && m < |jvm.classes| && !jvm.classes[m].isClassClass
    ensures var s, c := Begun(settings, jvm, lists), jvm.classes[m];
            && c.obj in s.tags && s.tags[c.obj] < |s.nodes| && s.nodes[s.tags[c.obj]].isClass
            && Entries(jvm.hierarchy, c, RulesOf(jvm.classes, lists, m), s.nodes[s.tags[c.obj]].ignore)
  {
    var s, n := Begun(settings, jvm, lists), |Leaks(settings, jvm)|;
    AnswersStart(settings, jvm, lists);
    var p := ClassNodeAt(jvm.hierarchy, n, jvm.classes, lists, |jvm.classes|, m);
    assert s.owner[n + p] == jvm.classes[m].obj;
  }

  // ---- Ignored fields ----

  /** A rule of the class forbids a reference to a collection of this size: its list is the one of its name, which
      no other class took before, and it names the field with the number of the reference, with a threshold above
      the size. */
  ghost predicate RuleForbids(jvm: Jvm, lists: map<string, seq<IgnoreRule>>, m: nat, field: int, size: int)
    requires m < |jvm.classes| && InHierarchy(jvm.hierarchy, jvm.classes)
  {
    var c := jvm.classes[m];
    && c.ready && c.name in lists
    && (forall i: nat | i < m && jvm.classes[i].name == c.name :: jvm.classes[i].isClassClass || !jvm.classes[i].ready)
    && exists rule <- lists[c.name] ::
         OffsetOf(jvm.hierarchy, c.id, rule.fieldName) == field && size < rule.threshold
  }

  lemma EntriesForbid(jvm: Jvm, lists: map<string, seq<IgnoreRule>>, m: nat, field: int, size: int,
                      ignore: seq<IgnoreField>)
    requires InHierarchy(jvm.hierarchy, jvm.classes) && m < |jvm.classes| && !jvm.classes[m].isClassClass
    requires Entries(jvm.hierarchy, jvm.classes[m], RulesOf(jvm.classes, lists, m), ignore)
    ensures (exists g <- ignore :: g.field == field && size < g.threshold) <==>
            RuleForbids(jvm, lists, m, field, size)
  {
    var c, rules := jvm.classes[m], RulesOf(jvm.classes, lists, m);
    if g :| g in ignore && g.field == field && size < g.threshold {
      var i: nat :| i < |ignore| && ignore[i] == g;
      assert rules[i] in lists[c.name];
    }
    if RuleForbids(jvm, lists, m, field, size) {
      assert rules == lists[c.name];
      var rule :| rule in rules && OffsetOf(jvm.hierarchy, c.id, rule.fieldName) == field && size < rule.threshold;
      var i: nat :| i < |rules| && rules[i] == rule;
      assert ignore[i] in ignore;
    }
  }

  /** The entries that count are those of the one class. */
  lemma ForbidsByClass(cfg: Config, s: State, r: HeapRef, o: Obj)
    requires TagsOk(s) && r.target in s.tags && s.tags[r.target] < |s.nodes| && o in s.tags
    requires r.info.Some? && r.referrer.Some?
    requires || (r.kind == Field && r.referrer.value in cfg.classOf && cfg.classOf[r.referrer.value] == o)
             || (r.kind == StaticField && r.referrer.value == o)
    ensures Forbids(cfg, s, r) <==>
            exists g <- s.nodes[s.tags[o]].ignore ::
              g.field == r.info.value.index && s.nodes[s.tags[r.target]].size < g.threshold
  {
  }

  /** When the passes begin, a reference to a collection from the `m`-th class (for a static field) or from an
      instance of it (for a field) is ignored exactly if a rule of that class forbids it for the size that `size()`
      returned. */
  lemma IgnoredExactly(settings: Settings, jvm: Jvm, lists: map<string, seq<IgnoreRule>>, r: HeapRef, i: nat, m: nat)
    requires Answers(settings, jvm) && WellShaped(r)
    requires i < |jvm.candidates| && jvm.candidates[i].size > settings.sizeThreshold
    requires r.target == jvm.candidates[i].obj
    requires m < |jvm.classes| && !jvm.classes[m].isClassClass && r.referrer.Some?
    requires || (r.kind == Field && r.referrer.value in jvm.classOf
                 && jvm.classOf[r.referrer.value] == jvm.classes[m].obj)
             || (r.kind == StaticField && r.referrer.value == jvm.classes[m].obj)
    ensures var s := Begun(settings, jvm, lists);
            && TagsOk(s) && r.target in s.tags && s.tags[r.target] < |s.nodes|
            && (Forbids(ConfigOf(settings, jvm), s, r) <==>
                RuleForbids(jvm, lists, m, r.info.value.index, jvm.candidates[i].size))
  {
    var s := Begun(settings, jvm, lists);
    AnswersStart(settings, jvm, lists);
    LeakNodeExactly(settings, jvm, lists, i);
    assert s.tags[s.owner[|TooLarge(jvm.candidates, settings.sizeThreshold, i)|]] ==
           |TooLarge(jvm.candidates, settings.sizeThreshold, i)|;
    ClassNodeExactly(settings, jvm, lists, m);
    ForbidsByClass(ConfigOf(settings, jvm), s, r, jvm.classes[m].obj);
    EntriesForbid(jvm, lists, m, r.info.value.index, jvm.candidates[i].size,
                  s.nodes[s.tags[jvm.classes[m].obj]].ignore);
  }
}
