/** What the finished map holds, and what converting with it does. */
module Conversion {
  import opened Wrappers
  import opened Versions
  import opened Converters
  import opened Registration

  // ---------- which pairs are registered ----------

  /** A non-empty sequence of listed converters from `s` to `t`, each starting where the one
      before it ends, and all going in one direction. */
  ghost predicate Leads(list: seq<Converter>, chain: seq<Converter>, s: Version, t: Version, up: bool) {
    && chain != []
    && chain[0].tuple.source == s
    && chain[|chain| - 1].tuple.target == t
    && (forall i :: 0 <= i < |chain| ==> chain[i] in list && chain[i].tuple.IsUp() == up)
    && (forall i :: 0 < i < |chain| ==> chain[i - 1].tuple.target == chain[i].tuple.source)
  }

  lemma {:induction false} LeadsPrefix(list: seq<Converter>, chain: seq<Converter>, s: Version, t: Version, up: bool)
    requires Leads(list, chain, s, t, up) && |chain| > 1
    ensures Leads(list, chain[..|chain| - 1], s, chain[|chain| - 1].tuple.source, up)
  {
  }

  lemma {:induction false} LeadsDirection(list: seq<Converter>, chain: seq<Converter>, s: Version, t: Version, up: bool)
    requires Leads(list, chain, s, t, up)
    ensures Tuple(s, t).IsUp() == up
  {
    var c := chain[|chain| - 1];
    assert c.tuple == Tuple(c.tuple.source, t);
    if |chain| > 1 {
      LeadsPrefix(list, chain, s, t, up);
      LeadsDirection(list, chain[..|chain| - 1], s, c.tuple.source, up);
      SameDirection(s, c.tuple.source, t);
    }
  }

  lemma {:induction false} SearchesAreTrees(g: Graph, done: set<Version>)
    requires Grouped(g)
    ensures Tree(g, Searched(g, done))
  {
    var m := Searched(g, done);
    forall k | k in m ensures TreeNode(g, m, k) {
      WalkKeepsTree(g, map[], k.source, None, 0);
      assert TreeNode(g, WalkFrom(g, k.source), k);
    }
  }

  /** Taking the last converter off a registered chain of more than one leaves exactly the chain
      registered for that converter's source. */
  lemma {:induction false} RegisteredIsTree(list: seq<Converter>)
    ensures Grouped(Group(list))
    ensures Tree(Group(list), Registered(list))
  {
    GroupKeepsConverters(list);
    SearchesAreTrees(Group(list), Group(list).Keys);
  }

  lemma {:induction false} ChainLeads(list: seq<Converter>, m: Paths, k: Tuple)
    requires Tree(Group(list), m) && k in m
    ensures Leads(list, m[k], k.source, k.target, k.IsUp())
    decreases |m[k]|
  {
    GroupKeepsConverters(list);
    var chain := m[k];
    assert TreeNode(Group(list), m, k);
    var c := chain[|chain| - 1];
    assert c in list;
    if |chain| > 1 {
      var p := Tuple(k.source, c.tuple.source);
      var init := chain[..|chain| - 1];
      ChainLeads(list, m, p);
      assert chain == init + [c];
      forall i | 0 < i < |chain| ensures chain[i - 1].tuple.target == chain[i].tuple.source {
        if i < |init| {
          assert init[i - 1].tuple.target == init[i].tuple.source;
        }
      }
    }
  }

  lemma {:induction false} LeadsIsRegistered(list: seq<Converter>, chain: seq<Converter>, s: Version, t: Version, up: bool)
    requires Leads(list, chain, s, t, up)
    ensures s in Group(list) && Tuple(s, t) in WalkFrom(Group(list), s)
    decreases |chain|
  {
    var g := Group(list);
    var n := |chain| - 1;
    var c := chain[n];
    GroupKeepsConverters(list);
    assert c in list;
    WalkCloses(g, map[], s, None, 0);
    if n == 0 {
      var j :| 0 <= j < |g[s]| && g[s][j] == c;
      assert Continue(s, None, g[s][j]).Some?;
    } else {
      var v := c.tuple.source;
      LeadsPrefix(list, chain, s, t, up);
      LeadsIsRegistered(list, chain[..n], s, v, up);
      LeadsDirection(list, chain[..n], s, v, up);
      assert Closed(g, WalkFrom(g, s), Tuple(s, v));
      var j :| 0 <= j < |g[v]| && g[v][j] == c;
      assert c.tuple == Tuple(v, g[v][j].tuple.target);
    }
  }

  ghost predicate Reachable(list: seq<Converter>, s: Version, t: Version) {
    exists chain, up :: Leads(list, chain, s, t, up)
  }

  /** A pair is registered exactly when some one-directional sequence of listed converters leads
      from its source to its target, whatever cycles the list has. */
  lemma {:induction false} RegisteredExactly(list: seq<Converter>, k: Tuple)
    ensures k in Registered(list) <==> Reachable(list, k.source, k.target)
  {
    if k in Registered(list) {
      RegisteredIsTree(list);
      ChainLeads(list, Registered(list), k);
    }
    if chain, up :| Leads(list, chain, k.source, k.target, up) {
      LeadsIsRegistered(list, chain, k.source, k.target, up);
    }
  }

  lemma {:induction false} LeadsExtends(list: seq<Converter>, chain: seq<Converter>, s: Version, c: Converter, up: bool)
    requires Leads(list, chain, s, c.tuple.source, up) && c in list && c.tuple.IsUp() == up
    ensures Leads(list, chain + [c], s, c.tuple.target, up)
  {
  }

  /** The registered pairs are closed under listed converters that go on in their direction. */
  lemma {:induction false} RegisteredExtends(list: seq<Converter>, s: Version, c: Converter)
    requires c in list && c.tuple.IsUp() == Tuple(s, c.tuple.source).IsUp()
    ensures Tuple(s, c.tuple.source) in Registered(list) ==> Tuple(s, c.tuple.target) in Registered(list)
  {
    var k := Tuple(s, c.tuple.source);
    RegisteredExactly(list, k);
    RegisteredExactly(list, Tuple(s, c.tuple.target));
    if chain, up :| Leads(list, chain, s, k.target, up) {
      LeadsDirection(list, chain, s, k.target, up);
      LeadsExtends(list, chain, s, c, up);
    }
  }

  // ---------- the shape of a registered chain ----------

  lemma {:induction false} PrefixInTree(g: Graph, m: Paths, k: Tuple, n: nat)
    requires Tree(g, m) && k in m && 0 < n <= |m[k]|
    ensures var p := Tuple(k.source, m[k][n - 1].tuple.target); p in m && m[p] == m[k][..n]
    decreases |m[k]|
  {
    assert TreeNode(g, m, k);
    var chain := m[k];
    if n == |chain| {
      assert chain[..n] == chain;
    } else {
      var p := Tuple(k.source, chain[|chain| - 1].tuple.source);
      PrefixInTree(g, m, p, n);
      assert m[p][..n] == chain[..n];
    }
  }

  /** Every prefix of a registered chain is the chain registered for where it ends. */
  lemma {:induction false} PrefixIsRegistered(list: seq<Converter>, k: Tuple, n: nat)
    requires k in Registered(list) && 0 < n <= |Registered(list)[k]|
    ensures var chain := Registered(list)[k];
            var p := Tuple(k.source, chain[n - 1].tuple.target);
            p in Registered(list) && Registered(list)[p] == chain[..n]
  {
    RegisteredIsTree(list);
    PrefixInTree(Group(list), Registered(list), k, n);
  }

  lemma {:induction false} PrefixesDiffer(g: Graph, m: Paths, k: Tuple, i: nat, j: nat)
    requires Tree(g, m) && k in m && i < j < |m[k]|
    ensures m[k][i].tuple.target != m[k][j].tuple.target
  {
    PrefixInTree(g, m, k, i + 1);
    PrefixInTree(g, m, k, j + 1);
    assert |m[k][..i + 1]| != |m[k][..j + 1]|;
  }

  lemma {:induction false} TargetsDiffer(g: Graph, m: Paths, k: Tuple)
    requires Tree(g, m) && k in m
    ensures forall i, j :: 0 <= i < j < |m[k]| ==> m[k][i].tuple.target != m[k][j].tuple.target
  {
    forall i, j | 0 <= i < j < |m[k]| ensures m[k][i].tuple.target != m[k][j].tuple.target {
      PrefixesDiffer(g, m, k, i, j);
    }
  }

  /** The first listed converter from a version is the whole chain to its target. */
  lemma {:induction false} FirstListedIsDirect(list: seq<Converter>, s: Version)
    requires From(list, s) != []
    ensures var c := From(list, s)[0];
            c.tuple.source == s && c.tuple in Registered(list) && Registered(list)[c.tuple] == [c]
  {
    var g := Group(list);
    GroupInListOrder(list, s);
    GroupKeepsConverters(list);
    var c: Converter := g[s][0];
    assert c.tuple == Tuple(s, c.tuple.target);
    WalkStep(g, map[], s, None, 0);
  }

  ghost function Endpoints(list: seq<Converter>): (r: set<Version>) {
    (set i | 0 <= i < |list| :: list[i].tuple.source) + (set i | 0 <= i < |list| :: list[i].tuple.target)
  }

  /** A registered chain reaches no version twice, so it is no longer than there are versions. */
  lemma {:induction false} ChainTargetsDistinct(list: seq<Converter>, k: Tuple)
    requires k in Registered(list)
    ensures var chain := Registered(list)[k];
            && (forall i, j :: 0 <= i < j < |chain| ==> chain[i].tuple.target != chain[j].tuple.target)
            && |chain| <= |Endpoints(list)|
  {
    var chain := Registered(list)[k];
    RegisteredIsTree(list);
    TargetsDiffer(Group(list), Registered(list), k);
    ChainLeads(list, Registered(list), k);
    FitsVersions(list, chain);
  }

  lemma {:induction false} FitsVersions(list: seq<Converter>, chain: seq<Converter>)
    requires forall i :: 0 <= i < |chain| ==> chain[i] in list
    requires forall i, j :: 0 <= i < j < |chain| ==> chain[i].tuple.target != chain[j].tuple.target
    ensures |chain| <= |Endpoints(list)|
  {
    var targets := seq(|chain|, i requires 0 <= i < |chain| => chain[i].tuple.target);
    forall i | 0 <= i < |chain| ensures targets[i] in Endpoints(list) {
      assert chain[i] in list;
    }
    DistinctFit(targets, Endpoints(list));
  }

  lemma {:induction false} DistinctFit(vs: seq<Version>, within: set<Version>)
    requires forall i :: 0 <= i < |vs| ==> vs[i] in within
    requires forall i, j :: 0 <= i < j < |vs| ==> vs[i] != vs[j]
    ensures |vs| <= |within|
  {
    if vs != [] {
      var n := |vs| - 1;
      DistinctFit(vs[..n], within - {vs[n]});
    }
  }

  // ---------- converting ----------

  /** Equal versions need no conversion; an unregistered pair is unsupported; a registered one
      runs its chain. */
  function ConvertWith(paths: Paths, source: Value, s: Version, t: Version): (r: Outcome) {
    if s == t then Outcome(source, None)
    else if Tuple(s, t) !in paths then Outcome(Nil, Some(Unsupported(Tuple(s, t))))
    else RunChain(paths[Tuple(s, t)], source)
  }

  /** Each version has one Go type, and the listed converters are declared for those types. */
  ghost predicate WellTyped(list: seq<Converter>, typeOf: Version -> GoType) {
    forall c :: c in list ==>
      c.sourceType == typeOf(c.tuple.source) && c.targetType == typeOf(c.tuple.target)
  }

  lemma {:induction false} ChainKeepsTypes(list: seq<Converter>, typeOf: Version -> GoType, chain: seq<Converter>,
                                           s: Version, t: Version, up: bool, body: string)
    requires WellTyped(list, typeOf) && Leads(list, chain, s, t, up)
    ensures var o := RunChain(chain, Config(typeOf(s), body));
            && o.value.Config?
            && (o.err.None? ==> o.value.goType == typeOf(t))
            && (o.err.Some? ==> o.err.value.TranslationFailed?)
  {
    var c := chain[|chain| - 1];
    assert c in list;
    if |chain| > 1 {
      LeadsPrefix(list, chain, s, t, up);
      ChainKeepsTypes(list, typeOf, chain[..|chain| - 1], s, c.tuple.source, up, body);
    } else {
      assert RunChain(chain[..0], Config(typeOf(s), body)) == Outcome(Config(typeOf(s), body), None);
    }
  }

  /** Converting a configuration of the source version's type never meets the wrong-source-type
      error. It is unsupported exactly when the versions differ and no one-directional sequence of
      converters joins them; otherwise a success has the target version's type, and the only
      failures are the translators' own. */
  lemma {:induction false} ConvertIsTypeSafe(list: seq<Converter>, typeOf: Version -> GoType, s: Version,
                                             t: Version, body: string)
    requires WellTyped(list, typeOf)
    ensures var o := ConvertWith(Registered(list), Config(typeOf(s), body), s, t);
            && (o.err == Some(Unsupported(Tuple(s, t)))
                <==> s != t && !Reachable(list, s, t))
            && (o.err.None? ==> o.value.Config? && o.value.goType == typeOf(t))
            && (o.err.Some? ==> o.err == Some(Unsupported(Tuple(s, t))) || o.err.value.TranslationFailed?)
  {
    RegisteredExactly(list, Tuple(s, t));
    if s != t && Tuple(s, t) in Registered(list) {
      RegisteredIsTree(list);
      ChainLeads(list, Registered(list), Tuple(s, t));
      ChainKeepsTypes(list, typeOf, Registered(list)[Tuple(s, t)], s, t, Tuple(s, t).IsUp(), body);
    }
  }

  /** The body after the first `i` translators of a chain. */
  function BodyAfter(chain: seq<Converter>, body: string, i: nat): (r: string)
    requires i <= |chain|
  {
    if i == 0 then body else chain[i - 1].translate(BodyAfter(chain, body, i - 1)).body
  }

  /** The `i`-th translator does not fail on what the ones before it make. */
  predicate Translates(chain: seq<Converter>, body: string, i: nat)
    requires i < |chain|
  {
    chain[i].translate(BodyAfter(chain, body, i)).failure.None?
  }

  predicate FailsFirstAt(chain: seq<Converter>, body: string, i: nat) {
    i < |chain| && !Translates(chain, body, i) && forall j :: 0 <= j < i ==> Translates(chain, body, j)
  }

  lemma {:induction false} ChainFits(list: seq<Converter>, typeOf: Version -> GoType, chain: seq<Converter>,
                                     s: Version, t: Version, up: bool, body: string, i: nat)
    requires WellTyped(list, typeOf) && Leads(list, chain, s, t, up) && i <= |chain|
    ensures var at := if i == 0 then s else chain[i - 1].tuple.target;
            ValueAt(chain, Config(typeOf(s), body), i) == Config(typeOf(at), BodyAfter(chain, body, i))
    ensures i < |chain| ==> Takes(chain[i], ValueAt(chain, Config(typeOf(s), body), i))
  {
    if i > 0 {
      ChainFits(list, typeOf, chain, s, t, up, body, i - 1);
      assert chain[i - 1] in list;
    }
    if i < |chain| {
      assert chain[i] in list;
      assert i > 0 ==> chain[i - 1].tuple.target == chain[i].tuple.source;
    }
  }

  lemma {:induction false} SucceedsExactly(list: seq<Converter>, typeOf: Version -> GoType, chain: seq<Converter>,
                                           s: Version, t: Version, up: bool, body: string)
    requires WellTyped(list, typeOf) && Leads(list, chain, s, t, up)
    ensures forall i :: 0 <= i < |chain| ==>
              (Succeeds(chain, Config(typeOf(s), body), i) <==> Translates(chain, body, i))
  {
    forall i | 0 <= i < |chain| ensures Succeeds(chain, Config(typeOf(s), body), i) <==> Translates(chain, body, i) {
      ChainFits(list, typeOf, chain, s, t, up, body, i);
    }
  }

  lemma {:induction false} FailureExactly(list: seq<Converter>, typeOf: Version -> GoType, chain: seq<Converter>,
                                          s: Version, t: Version, up: bool, body: string, i: nat)
    requires WellTyped(list, typeOf) && Leads(list, chain, s, t, up) && FailsFirstAt(chain, body, i)
    ensures FailsFirst(chain, Config(typeOf(s), body), i)
    ensures var failed := chain[i].translate(BodyAfter(chain, body, i));
            FailureAt(chain, Config(typeOf(s), body), i)
            == Outcome(Config(typeOf(chain[i].tuple.target), failed.body), Some(TranslationFailed(failed.failure.value)))
  {
    SucceedsExactly(list, typeOf, chain, s, t, up, body);
    ChainFits(list, typeOf, chain, s, t, up, body, i);
    assert chain[i] in list;
  }

  /** The outcome of a supported conversion of a configuration of the right type. It has no error if and
      only if no translator of the chain fails, and then has the target version's type and the body that
      they make one after the other; otherwise it gives the reason of the first that fails, beside what
      that one made. */
  lemma {:induction false} ConversionExactly(list: seq<Converter>, typeOf: Version -> GoType, k: Tuple, body: string)
    requires WellTyped(list, typeOf) && k in Registered(list) && k.source != k.target
    ensures var chain := Registered(list)[k];
            var o := ConvertWith(Registered(list), Config(typeOf(k.source), body), k.source, k.target);
            && (o.err.None? <==> forall i :: 0 <= i < |chain| ==> Translates(chain, body, i))
            && (o.err.None? ==> o.value == Config(typeOf(k.target), BodyAfter(chain, body, |chain|)))
            && (forall i: nat :: FailsFirstAt(chain, body, i) ==>
                  var failed := chain[i].translate(BodyAfter(chain, body, i));
                  o == Outcome(Config(typeOf(chain[i].tuple.target), failed.body),
                               Some(TranslationFailed(failed.failure.value))))
  {
    var chain, source := Registered(list)[k], Config(typeOf(k.source), body);
    RegisteredIsTree(list);
    ChainLeads(list, Registered(list), k);
    RunChainExactly(chain, source);
    SucceedsExactly(list, typeOf, chain, k.source, k.target, k.IsUp(), body);
    ChainFits(list, typeOf, chain, k.source, k.target, k.IsUp(), body, |chain|);
    forall i: nat | FailsFirstAt(chain, body, i)
      ensures var failed := chain[i].translate(BodyAfter(chain, body, i));
              RunChain(chain, source)
              == Outcome(Config(typeOf(chain[i].tuple.target), failed.body), Some(TranslationFailed(failed.failure.value)))
    {
      FailureExactly(list, typeOf, chain, k.source, k.target, k.IsUp(), body, i);
    }
  }

  /** A supported conversion of anything else than the first converter's source type. */
  lemma {:induction false} WrongTypeRefused(list: seq<Converter>, k: Tuple, source: Value)
    requires k in Registered(list) && k.source != k.target
    ensures var chain := Registered(list)[k];
            && chain != []
            && (!(source.Config? && source.goType == chain[0].sourceType) ==>
                  ConvertWith(Registered(list), source, k.source, k.target)
                  == Outcome(Config(chain[0].targetType, ""), Some(WrongSourceType(chain[0].tuple))))
  {
    var chain := Registered(list)[k];
    RegisteredIsTree(list);
    ChainLeads(list, Registered(list), k);
    RunChainExactly(chain, source);
    assert !Takes(chain[0], source) ==> FailsFirst(chain, source, 0);
  }

  /** Equal versions give back any value at all, and a pair that no one-directional sequence joins is
      unsupported. */
  lemma {:induction false} NothingToRun(list: seq<Converter>, source: Value, s: Version, t: Version)
    ensures s == t ==> ConvertWith(Registered(list), source, s, t) == Outcome(source, None)
    ensures s != t && !Reachable(list, s, t) ==>
              ConvertWith(Registered(list), source, s, t) == Outcome(Nil, Some(Unsupported(Tuple(s, t))))
  {
    RegisteredExactly(list, Tuple(s, t));
  }

  /** What comes out of one conversion handed to one more converter. */
  function Then(o: Outcome, c: Converter): (r: Outcome) {
    if o.err.Some? then o else c.Convert(o.value)
  }

  /** The converters a conversion runs. */
  function ChainRun(paths: Paths, s: Version, t: Version): (r: seq<Converter>)
    requires s == t || Tuple(s, t) in paths
  {
    if s == t then [] else paths[Tuple(s, t)]
  }

  lemma {:induction false} BeforeLast(g: Graph, m: Paths, k: Tuple)
    requires Tree(g, m) && k in m && |m[k]| > 1
    ensures var p := Tuple(k.source, m[k][|m[k]| - 1].tuple.source);
            p in m && m[k] == m[p] + [m[k][|m[k]| - 1]] && m[p] != []
  {
    assert TreeNode(g, m, k);
    assert TreeNode(g, m, Tuple(k.source, m[k][|m[k]| - 1].tuple.source));
  }

  /** Converting to `t` runs what converting to the version before it runs, and then the last
      converter, if and only if that version is not the source again: a conversion from a version
      to itself runs nothing, while the chain behind it does have a converter. */
  lemma {:induction false} PenultimateExactly(list: seq<Converter>, k: Tuple)
    requires k in Registered(list) && k.source != k.target && |Registered(list)[k]| > 1
    ensures var m := Registered(list);
            var last := m[k][|m[k]| - 1];
            var u := last.tuple.source;
            && Tuple(k.source, u) in m
            && (ChainRun(m, k.source, k.target) == ChainRun(m, k.source, u) + [last] <==> u != k.source)
  {
    RegisteredIsTree(list);
    BeforeLast(Group(list), Registered(list), k);
  }

  lemma {:induction false} SameVersionOneStep(g: Graph, m: Paths, v: Version)
    requires Tree(g, m) && Tuple(v, v) in m
    ensures |m[Tuple(v, v)]| == 1
    decreases |m[Tuple(v, v)]|
  {
    var k := Tuple(v, v);
    assert TreeNode(g, m, k);
    if |m[k]| > 1 {
      // All steps go up, from v and back to v, so the one before the last ended at v as well.
      var u := m[k][|m[k]| - 1].tuple.source;
      assert Tuple(v, u).IsUp() && Tuple(u, v).IsUp();
      DirectionsOpposed(u, v);
      assert false;
    }
  }

  /** A chain of more than one converter comes back to its source exactly when it is a converter from
      that version to itself and one more. */
  lemma {:induction false} ReturnsExactly(list: seq<Converter>, k: Tuple)
    requires k in Registered(list) && |Registered(list)[k]| > 1
    ensures var chain := Registered(list)[k];
            chain[|chain| - 1].tuple.source == k.source
            <==> |chain| == 2 && chain[0].tuple.source == chain[0].tuple.target
  {
    var m := Registered(list);
    RegisteredIsTree(list);
    BeforeLast(Group(list), m, k);
    ChainLeads(list, m, k);
    var chain := m[k];
    var last := chain[|chain| - 1];
    assert chain[0 + 1 - 1].tuple.target == chain[1].tuple.source;
    if last.tuple.source == k.source {
      SameVersionOneStep(Group(list), m, k.source);
      assert |m[Tuple(k.source, k.source)]| == |chain| - 1;
    }
  }

  /** So then a conversion factors through that version for every value. */
  lemma {:induction false} ConvertToPenultimate(list: seq<Converter>, k: Tuple, source: Value)
    requires k in Registered(list) && k.source != k.target && |Registered(list)[k]| > 1
    requires var chain := Registered(list)[k]; chain[|chain| - 1].tuple.source != k.source
    ensures var m := Registered(list);
            var last := m[k][|m[k]| - 1];
            && Tuple(k.source, last.tuple.source) in m
            && ConvertWith(m, source, k.source, k.target)
               == Then(ConvertWith(m, source, k.source, last.tuple.source), last)
  {
    var m := Registered(list);
    RegisteredIsTree(list);
    BeforeLast(Group(list), m, k);
    assert m[k][..|m[k]| - 1] == m[Tuple(k.source, m[k][|m[k]| - 1].tuple.source)];
  }

  /** No chain comes back to its source when no listed converter goes from a version to itself. */
  lemma {:induction false} NoSelfStepNoReturn(list: seq<Converter>, k: Tuple)
    requires forall c :: c in list ==> c.tuple.source != c.tuple.target
    requires k in Registered(list) && |Registered(list)[k]| > 1
    ensures var chain := Registered(list)[k]; chain[|chain| - 1].tuple.source != k.source
  {
    ReturnsExactly(list, k);
    RegisteredIsTree(list);
    ChainLeads(list, Registered(list), k);
    assert Registered(list)[k][0] in list;
  }

  /** Adds a mark to a configuration without changing its version. */
  const MARK: Converter :=
    Converter(Tuple(Version(1, 0, 0), Version(1, 0, 0)), "v1", "v1", body => Translation(body + "*", None))

  const LIFT: Converter :=
    Converter(Tuple(Version(1, 0, 0), Version(2, 0, 0)), "v1", "v2", body => Translation(body, None))

  lemma {:induction false} SelfStepGroup()
    ensures Group([MARK, LIFT]) == map[Version(1, 0, 0) := [MARK, LIFT]]
  {
    var one, mark, lift := Version(1, 0, 0), MARK, LIFT;
    assert [mark, lift][..1] == [mark] && [mark][..0] == [];
    assert [] + [mark] == [mark] && [mark] + [lift] == [mark, lift];
    assert AddToGroup(map[], mark) == map[one := [mark]];
    assert Group([mark]) == AddToGroup(Group([mark][..0]), mark);
  }

  lemma {:induction false} SelfStepPath()
    ensures var k := Tuple(Version(1, 0, 0), Version(2, 0, 0));
            k in Registered([MARK, LIFT]) && Registered([MARK, LIFT])[k] == [MARK, LIFT]
  {
    var one, two := Version(1, 0, 0), Version(2, 0, 0);
    var mark, lift := MARK, LIFT;
    var g := Group([mark, lift]);
    SelfStepGroup();
    var self, both := Tuple(one, one), Tuple(one, two);
    var m0: Paths := map[self := [mark]];
    var p := Some(Path(self, [mark]));
    var m1 := m0[both := [mark, lift]];
    WalkStep(g, m0, one, p, 0);
    WalkStep(g, m0, one, p, 1);
    assert [mark] + [lift] == [mark, lift];
    assert Visited(g, m0, one, p, 1) == m1;
    assert Walk(g, m0, one, p, 0) == m1;
    WalkStep(g, map[], one, None, 0);
    WalkStep(g, m1, one, None, 1);
    assert WalkFrom(g, one) == m1;
  }

  /** The path from 1.0.0 to 2.0.0 is found through the converter from 1.0.0 to itself: converting
      to 2.0.0 adds the mark, converting to 1.0.0 first does not. */
  lemma {:induction false} SelfStepChangesConversion(body: string)
    ensures var one, two := Version(1, 0, 0), Version(2, 0, 0);
            var m := Registered([MARK, LIFT]);
            && ConvertWith(m, Config("v1", body), one, two) == Outcome(Config("v2", body + "*"), None)
            && Then(ConvertWith(m, Config("v1", body), one, one), LIFT) == Outcome(Config("v2", body), None)
  {
    SelfStepPath();
    assert [MARK, LIFT][..1] == [MARK];
    assert RunChain([MARK], Config("v1", body)) == MARK.Convert(Config("v1", body)) by {
      assert [MARK][..0] == [];
    }
  }
}
