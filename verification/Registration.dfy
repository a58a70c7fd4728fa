/** The depth-first registration of conversion paths, as a function on finite maps.

    A walk starts at one source version and may only keep going in the direction it set out in;
    the registered pairs double as its visited set. */
module Registration {
  import opened Wrappers
  import opened Versions
  import opened Converters

  /** Converters grouped by source version. */
  type Graph = map<Version, seq<Converter>>

  /** Registered version pairs, each with its chain of converters. */
  type Paths = map<Tuple, seq<Converter>>

  /** The path a walk has taken so far. */
  datatype Path = Path(tuple: Tuple, chain: seq<Converter>)

  ghost predicate Grouped(g: Graph) {
    forall v, i :: v in g && 0 <= i < |g[v]| ==> g[v][i].tuple.source == v
  }

  ghost predicate IsEdge(g: Graph, c: Converter) {
    c.tuple.source in g && c in g[c.tuple.source]
  }

  function Group(list: seq<Converter>): (r: Graph) {
    if list == [] then map[]
    else AddToGroup(Group(list[..|list| - 1]), list[|list| - 1])
  }

  function AddToGroup(g: Graph, c: Converter): (r: Graph) {
    var v := c.tuple.source;
    g[v := (if v in g then g[v] else []) + [c]]
  }

  /** Grouping loses and invents nothing: the edges of the graph are the listed converters. */
  lemma {:induction false} GroupKeepsConverters(list: seq<Converter>)
    ensures Grouped(Group(list))
    ensures forall c :: c in list <==> IsEdge(Group(list), c)
  {
    if list != [] {
      var init, last := list[..|list| - 1], list[|list| - 1];
      GroupKeepsConverters(init);
      var g, g' := Group(init), Group(list);
      forall c ensures c in list <==> IsEdge(g', c) {
        assert list == init + [last];
        assert c in list <==> c in init || c == last;
        if c.tuple.source == last.tuple.source {
          assert c in g'[c.tuple.source] <==> (c.tuple.source in g && c in g[c.tuple.source]) || c == last;
        }
      }
    }
  }

  /** The converters from one version, in list order. */
  function From(list: seq<Converter>, v: Version): (r: seq<Converter>) {
    if list == [] then []
    else (if list[0].tuple.source == v then [list[0]] else []) + From(list[1..], v)
  }

  lemma {:induction false} FromLast(list: seq<Converter>, c: Converter, v: Version)
    ensures From(list + [c], v) == From(list, v) + (if c.tuple.source == v then [c] else [])
  {
    if list == [] {
      assert [c][1..] == [];
    } else {
      FromLast(list[1..], c, v);
      assert (list + [c])[1..] == list[1..] + [c];
    }
  }

  /** Each group has its converters in the order they are listed. */
  lemma {:induction false} GroupInListOrder(list: seq<Converter>, v: Version)
    ensures From(list, v) == if v in Group(list) then Group(list)[v] else []
  {
    if list != [] {
      var init, last := list[..|list| - 1], list[|list| - 1];
      assert list == init + [last];
      GroupInListOrder(init, v);
      FromLast(init, last, v);
    }
  }

  // ---------- the walk ----------

  function Source(v: Version, path: Option<Path>): (r: Version) {
    if path.Some? then path.value.tuple.source else v
  }

  /** The path that one more converter makes of a path to `v`: a new one, a longer one in the
      same direction, or none. */
  function Continue(v: Version, path: Option<Path>, c: Converter): (r: Option<Path>) {
    var step := Tuple(v, c.tuple.target);
    match path
    case None => Some(Path(step, [c]))
    case Some(p) =>
      if p.tuple.IsUp() == step.IsUp() then Some(Path(Tuple(p.tuple.source, step.target), p.chain + [c]))
      else None
  }

  ghost function Targets(g: Graph): (r: set<Version>) {
    set v, i | v in g && 0 <= i < |g[v]| :: g[v][i].tuple.target
  }

  /** The versions a walk from `s` may still register. */
  ghost function Pending(g: Graph, s: Version, registered: set<Tuple>): (r: set<Version>) {
    set t | t in Targets(g) && Tuple(s, t) !in registered
  }

  lemma {:induction false} PendingShrinks(g: Graph, s: Version, a: set<Tuple>, b: set<Tuple>)
    requires a <= b
    ensures |Pending(g, s, b)| <= |Pending(g, s, a)|
    ensures forall t :: t in Targets(g) && Tuple(s, t) in b - a ==> |Pending(g, s, b)| < |Pending(g, s, a)|
  {
    var p, q := Pending(g, s, a), Pending(g, s, b);
    assert q <= p;
    assert p == q + (p - q);
    assert |p| == |q| + |p - q|;
    forall t | t in Targets(g) && Tuple(s, t) in b - a ensures |q| < |p| {
      assert t in p - q;
    }
  }

  /** Walks the converters of `v` from the `i`-th on. A path is followed only when its pair is
      new, so every descent uses up one pending version. */
  ghost function Walk(g: Graph, m: Paths, v: Version, path: Option<Path>, i: nat): (r: Paths)
    requires v in g ==> i <= |g[v]|
    ensures forall k :: k in m ==> k in r && r[k] == m[k]
    ensures forall k :: k in r && k !in m ==> k.source == Source(v, path)
    decreases |Pending(g, Source(v, path), m.Keys)|, if v in g then |g[v]| - i else 0
  {
    if v !in g || i == |g[v]| then m
    else
      var c := g[v][i];
      var next := Continue(v, path, c);
      var m' :=
        if next.Some? && next.value.tuple !in m then
          var m1 := m[next.value.tuple := next.value.chain];
          PendingShrinks(g, Source(v, path), m.Keys, m1.Keys);
          Walk(g, m1, c.tuple.target, next, 0)
        else m;
      PendingShrinks(g, Source(v, path), m.Keys, m'.Keys);
      Walk(g, m', v, path, i + 1)
  }

  /** All a search from `s` registers, started on an empty map. */
  ghost function WalkFrom(g: Graph, s: Version): (r: Paths) {
    Walk(g, map[], s, None, 0)
  }

  /** The registrations of the searches from every version in `done`. */
  ghost function Searched(g: Graph, done: set<Version>): (r: Paths) {
    map s, k | s in done && k in WalkFrom(g, s) :: k := WalkFrom(g, k.source)[k]
  }

  /** The finished map: no order of the source versions is mentioned. */
  ghost function Registered(list: seq<Converter>): (r: Paths) {
    Searched(Group(list), Group(list).Keys)
  }

  // ---------- searches from different sources do not meet ----------

  /** Two maps that hold the same registrations for `s`. */
  ghost predicate AgreeOn(a: Paths, b: Paths, s: Version) {
    forall k: Tuple {:trigger AgreesAt(a, b, k)} :: k.source == s ==> AgreesAt(a, b, k)
  }

  ghost predicate AgreesAt(a: Paths, b: Paths, k: Tuple) {
    (k in a <==> k in b) && (k in a && k in b ==> a[k] == b[k])
  }

  lemma {:induction false} AgreeAfterUpdate(a: Paths, b: Paths, s: Version, k: Tuple, chain: seq<Converter>)
    requires AgreeOn(a, b, s)
    ensures AgreeOn(a[k := chain], b[k := chain], s)
  {
    forall l: Tuple | l.source == s ensures AgreesAt(a[k := chain], b[k := chain], l) {
      assert AgreesAt(a, b, l);
    }
  }

  /** The map after a path has been followed: a known pair changes nothing. */
  ghost function Entered(g: Graph, m: Paths, p: Path): (r: Paths) {
    if p.tuple in m then m
    else Walk(g, m[p.tuple := p.chain], p.tuple.target, Some(p), 0)
  }

  /** The map after the `i`-th converter of `v` has been dealt with. */
  ghost function Visited(g: Graph, m: Paths, v: Version, path: Option<Path>, i: nat): (r: Paths)
    requires v in g && i < |g[v]|
  {
    var next := Continue(v, path, g[v][i]);
    if next.Some? then Entered(g, m, next.value) else m
  }

  lemma {:induction false} WalkStep(g: Graph, m: Paths, v: Version, path: Option<Path>, i: nat)
    requires v in g && i < |g[v]|
    ensures Walk(g, m, v, path, i) == Walk(g, Visited(g, m, v, path, i), v, path, i + 1)
    ensures m.Keys <= Visited(g, m, v, path, i).Keys
    ensures |Pending(g, Source(v, path), Visited(g, m, v, path, i).Keys)|
         <= |Pending(g, Source(v, path), m.Keys)|
  {
    PendingShrinks(g, Source(v, path), m.Keys, Visited(g, m, v, path, i).Keys);
  }

  lemma {:induction false} EnteredIsLocal(g: Graph, a: Paths, b: Paths, p: Path)
    requires AgreeOn(a, b, p.tuple.source) && p.tuple.target in Targets(g)
    ensures AgreeOn(Entered(g, a, p), Entered(g, b, p), p.tuple.source)
    decreases |Pending(g, p.tuple.source, a.Keys)|, 0, 0
  {
    assert AgreesAt(a, b, p.tuple);
    if p.tuple !in a {
      PendingShrinks(g, p.tuple.source, a.Keys, a[p.tuple := p.chain].Keys);
      AgreeAfterUpdate(a, b, p.tuple.source, p.tuple, p.chain);
      WalkIsLocal(g, a[p.tuple := p.chain], b[p.tuple := p.chain], p.tuple.target, Some(p), 0);
    }
  }

  /** A search from `s` reads only the pairs whose source is `s`: on two maps that agree there it
      registers the same chains. (That it writes only those pairs is in the contract of Walk.) */
  lemma {:induction false} WalkIsLocal(g: Graph, a: Paths, b: Paths, v: Version, path: Option<Path>, i: nat)
    requires v in g ==> i <= |g[v]|
    requires AgreeOn(a, b, Source(v, path))
    ensures AgreeOn(Walk(g, a, v, path, i), Walk(g, b, v, path, i), Source(v, path))
    decreases |Pending(g, Source(v, path), a.Keys)|, 1, if v in g then |g[v]| - i else 0
  {
    if v in g && i < |g[v]| {
      WalkStep(g, a, v, path, i);
      WalkStep(g, b, v, path, i);
      var next := Continue(v, path, g[v][i]);
      if next.Some? {
        EnteredIsLocal(g, a, b, next.value);
      }
      WalkIsLocal(g, Visited(g, a, v, path, i), Visited(g, b, v, path, i), v, path, i + 1);
    }
  }

  /** One more search adds its own registrations to those of the searches before it, whichever
      these were: the map after all of them does not depend on their order. */
  lemma {:induction false} SearchesCommute(g: Graph, done: set<Version>, s: Version)
    requires s !in done
    ensures Walk(g, Searched(g, done), s, None, 0) == Searched(g, done + {s})
  {
    var m := Searched(g, done);
    var r, r' := Walk(g, m, s, None, 0), Searched(g, done + {s});
    forall k: Tuple | k.source == s ensures AgreesAt(m, map[], k) {
    }
    WalkIsLocal(g, m, map[], s, None, 0);
    forall k: Tuple ensures k in r <==> k in r' {
      if k.source == s {
        assert AgreesAt(r, WalkFrom(g, s), k);
      } else {
        assert k in r <==> k in m;
      }
    }
    forall k | k in r ensures r[k] == r'[k] {
      if k.source == s {
        assert AgreesAt(r, WalkFrom(g, s), k);
      } else {
        assert k in m;
      }
    }
    assert r.Keys == r'.Keys;
  }

  // ---------- soundness: the registered chains form a search tree ----------

  /** The chain registered for `k` ends in a converter into k's target, in k's direction; it is
      that converter alone, or extends the chain registered for the converter's source. */
  ghost predicate TreeNode(g: Graph, m: Paths, k: Tuple)
    requires k in m
  {
    var chain := m[k];
    && chain != []
    && var c := chain[|chain| - 1];
    && IsEdge(g, c)
    && c.tuple.target == k.target
    && c.tuple.IsUp() == k.IsUp()
    && if |chain| == 1 then c.tuple.source == k.source
       else
         var p := Tuple(k.source, c.tuple.source);
         p in m && p.IsUp() == k.IsUp() && m[p] == chain[..|chain| - 1]
  }

  ghost predicate Tree(g: Graph, m: Paths) {
    forall k {:trigger TreeNode(g, m, k)} :: k in m ==> TreeNode(g, m, k)
  }

  ghost predicate PathRegistered(m: Paths, v: Version, path: Option<Path>) {
    path.Some? ==>
      path.value.tuple in m && m[path.value.tuple] == path.value.chain && path.value.tuple.target == v
  }

  lemma {:induction false} TreeGrows(g: Graph, m: Paths, v: Version, path: Option<Path>, c: Converter)
    requires Tree(g, m) && PathRegistered(m, v, path)
    requires IsEdge(g, c) && c.tuple.source == v
    requires Continue(v, path, c).Some? && Continue(v, path, c).value.tuple !in m
    ensures var next := Continue(v, path, c).value;
            Tree(g, m[next.tuple := next.chain])
            && PathRegistered(m[next.tuple := next.chain], c.tuple.target, Some(next))
  {
    var next := Continue(v, path, c).value;
    var m' := m[next.tuple := next.chain];
    if path.Some? {
      var p := path.value.tuple;
      SameDirection(p.source, v, c.tuple.target);
      assert TreeNode(g, m, p);
      assert next.chain[..|next.chain| - 1] == path.value.chain;
      assert c.tuple == Tuple(v, c.tuple.target);
      assert Tuple(next.tuple.source, c.tuple.source) == p;
    }
    assert TreeNode(g, m', next.tuple);
    forall k | k in m ensures TreeNode(g, m', k) {
      assert TreeNode(g, m, k);
    }
  }

  lemma {:induction false} WalkKeepsTree(g: Graph, m: Paths, v: Version, path: Option<Path>, i: nat)
    requires v in g ==> i <= |g[v]|
    requires Grouped(g) && Tree(g, m) && PathRegistered(m, v, path)
    ensures Tree(g, Walk(g, m, v, path, i))
    decreases |Pending(g, Source(v, path), m.Keys)|, if v in g then |g[v]| - i else 0
  {
    if v in g && i < |g[v]| {
      var c := g[v][i];
      var next := Continue(v, path, c);
      var m' := m;
      if next.Some? && next.value.tuple !in m {
        var m1 := m[next.value.tuple := next.value.chain];
        TreeGrows(g, m, v, path, c);
        PendingShrinks(g, Source(v, path), m.Keys, m1.Keys);
        WalkKeepsTree(g, m1, c.tuple.target, next, 0);
        m' := Walk(g, m1, c.tuple.target, next, 0);
      }
      PendingShrinks(g, Source(v, path), m.Keys, m'.Keys);
      WalkKeepsTree(g, m', v, path, i + 1);
    }
  }

  // ---------- completeness: what is registered is closed under its own direction ----------

  /** From the `i`-th converter of `v` on, every one that continues the walk has its pair. */
  ghost predicate ClosedFrom(g: Graph, m: Paths, v: Version, path: Option<Path>, i: nat) {
    v in g ==> forall j :: i <= j < |g[v]| ==>
      var next := Continue(v, path, g[v][j]);
      next.Some? ==> next.value.tuple in m
  }

  /** Every converter leaving k's target in k's direction leads to a registered pair. */
  ghost predicate Closed(g: Graph, m: Paths, k: Tuple) {
    k.target in g ==> forall j :: 0 <= j < |g[k.target]| ==>
      var step := Tuple(k.target, g[k.target][j].tuple.target);
      step.IsUp() == k.IsUp() ==> Tuple(k.source, step.target) in m
  }

  ghost predicate NewClosed(g: Graph, before: Paths, after: Paths) {
    forall k {:trigger Closed(g, after, k)} :: k in after && k !in before ==> Closed(g, after, k)
  }

  lemma {:induction false} ClosedStaysClosed(g: Graph, a: Paths, b: Paths, c: Paths)
    requires b.Keys <= c.Keys
    requires NewClosed(g, a, b) && NewClosed(g, b, c)
    ensures NewClosed(g, a, c)
  {
    forall k | k in c && k !in a ensures Closed(g, c, k) {
      if k in b {
        assert Closed(g, b, k);
      }
    }
  }

  lemma {:induction false} EnteredCloses(g: Graph, m: Paths, p: Path)
    requires p.tuple.target in Targets(g)
    ensures p.tuple in Entered(g, m, p) && NewClosed(g, m, Entered(g, m, p))
    decreases |Pending(g, p.tuple.source, m.Keys)|, 0, 0
  {
    if p.tuple !in m {
      var m1 := m[p.tuple := p.chain];
      PendingShrinks(g, p.tuple.source, m.Keys, m1.Keys);
      WalkCloses(g, m1, p.tuple.target, Some(p), 0);
      OwnSuccessorsClose(g, Entered(g, m, p), p);
    }
  }

  /** When a walk returns, every pair it added is closed: the pairs that were still waiting for
      their successors are those it was entered with. */
  lemma {:induction false} WalkCloses(g: Graph, m: Paths, v: Version, path: Option<Path>, i: nat)
    requires v in g ==> i <= |g[v]|
    ensures ClosedFrom(g, Walk(g, m, v, path, i), v, path, i)
    ensures NewClosed(g, m, Walk(g, m, v, path, i))
    decreases |Pending(g, Source(v, path), m.Keys)|, 1, if v in g then |g[v]| - i else 0
  {
    if v in g && i < |g[v]| {
      WalkStep(g, m, v, path, i);
      var next := Continue(v, path, g[v][i]);
      var m' := Visited(g, m, v, path, i);
      if next.Some? {
        EnteredCloses(g, m, next.value);
      }
      WalkCloses(g, m', v, path, i + 1);
      ClosedStaysClosed(g, m, m', Walk(g, m', v, path, i + 1));
    }
  }

  lemma {:induction false} OwnSuccessorsClose(g: Graph, m: Paths, p: Path)
    requires ClosedFrom(g, m, p.tuple.target, Some(p), 0)
    ensures Closed(g, m, p.tuple)
  {
  }
}
