/** Which chain a pair gets, read off the converter list: at each version the first that leads to the target. */
module FirstConverters {
  import opened Wrappers
  import opened Versions
  import opened Converters
  import opened Registration
  import opened Conversion

  // ---------- when a pair is added ----------

  ghost predicate Starts(a: seq<Converter>, b: seq<Converter>) {
    |a| <= |b| && b[..|a|] == a
  }

  ghost predicate NewStart(chain: seq<Converter>, before: Paths, after: Paths) {
    forall k :: k in after && k !in before ==> Starts(chain, after[k])
  }

  lemma {:induction false} StartsFurther(a: seq<Converter>, b: seq<Converter>, before: Paths, after: Paths)
    requires Starts(a, b) && NewStart(b, before, after)
    ensures NewStart(a, before, after)
  {
    forall k | k in after && k !in before ensures Starts(a, after[k]) {
      assert after[k][..|b|][..|a|] == after[k][..|a|];
    }
  }

  lemma {:induction false} EnteredStarts(g: Graph, m: Paths, p: Path)
    requires p.tuple.target in Targets(g)
    ensures NewStart(p.chain, m, Entered(g, m, p))
    decreases |Pending(g, p.tuple.source, m.Keys)|, 0, 0
  {
    if p.tuple !in m {
      var m1 := m[p.tuple := p.chain];
      PendingShrinks(g, p.tuple.source, m.Keys, m1.Keys);
      WalkStarts(g, m1, p.tuple.target, p, 0);
    }
  }

  /** The chains that following a path adds all start with it. */
  lemma {:induction false} WalkStarts(g: Graph, m: Paths, v: Version, p: Path, i: nat)
    requires v in g ==> i <= |g[v]|
    ensures NewStart(p.chain, m, Walk(g, m, v, Some(p), i))
    decreases |Pending(g, p.tuple.source, m.Keys)|, 1, if v in g then |g[v]| - i else 0
  {
    if v in g && i < |g[v]| {
      WalkStep(g, m, v, Some(p), i);
      var next := Continue(v, Some(p), g[v][i]);
      var m' := Visited(g, m, v, Some(p), i);
      if next.Some? {
        EnteredStarts(g, m, next.value);
        StartsFurther(p.chain, next.value.chain, m, m');
      }
      WalkStarts(g, m', v, p, i + 1);
    }
  }

  /** A walk comes through its `j`-th converter when the map is `before`: each converter in front of it
      has its pair, and all that was added is closed. */
  ghost predicate ComesThrough(g: Graph, m: Paths, v: Version, path: Option<Path>, i: nat, j: nat, before: Paths) {
    && v in g && i <= j < |g[v]| && Continue(v, path, g[v][j]).Some?
    && m.Keys <= before.Keys && NewClosed(g, m, before)
    && forall l :: i <= l < j && Continue(v, path, g[v][l]).Some? ==> Continue(v, path, g[v][l]).value.tuple in before
  }

  /** Following the path adds the pair, with this chain. */
  ghost predicate Adds(g: Graph, before: Paths, next: Path, k: Tuple, chain: seq<Converter>) {
    var entered := Entered(g, before, next);
    k !in before && k in entered && entered[k] == chain
  }

  lemma {:induction false} ComesLater(g: Graph, m: Paths, v: Version, path: Option<Path>, i: nat, j: nat, before: Paths)
    requires v in g && i < |g[v]|
    requires ComesThrough(g, Visited(g, m, v, path, i), v, path, i + 1, j, before)
    ensures ComesThrough(g, m, v, path, i, j, before)
  {
    WalkStep(g, m, v, path, i);
    var m' := Visited(g, m, v, path, i);
    var next := Continue(v, path, g[v][i]);
    if next.Some? {
      EnteredCloses(g, m, next.value);
      ClosedStaysClosed(g, m, m', before);
    }
  }

  lemma {:induction false} ComesHere(g: Graph, m: Paths, v: Version, path: Option<Path>, i: nat, k: Tuple)
    requires v in g && i < |g[v]|
    requires k in Visited(g, m, v, path, i) && k !in m
    ensures ComesThrough(g, m, v, path, i, i, m)
    ensures Adds(g, m, Continue(v, path, g[v][i]).value, k, Visited(g, m, v, path, i)[k])
  {
  }

  /** Every pair a walk adds is added through one of its converters. */
  lemma {:induction false} AddedThrough(g: Graph, m: Paths, v: Version, path: Option<Path>, i: nat, k: Tuple)
    returns (j: nat, before: Paths)
    requires v in g && i <= |g[v]|
    requires k in Walk(g, m, v, path, i) && k !in m
    ensures ComesThrough(g, m, v, path, i, j, before)
    ensures Adds(g, before, Continue(v, path, g[v][j]).value, k, Walk(g, m, v, path, i)[k])
    decreases |g[v]| - i
  {
    WalkStep(g, m, v, path, i);
    var m' := Visited(g, m, v, path, i);
    if k in m' {
      ComesHere(g, m, v, path, i, k);
      j, before := i, m;
    } else {
      j, before := AddedThrough(g, m', v, path, i + 1, k);
      ComesLater(g, m, v, path, i, j, before);
    }
  }

  // ---------- the first converter ----------

  ghost predicate Through(list: seq<Converter>, chain: seq<Converter>, c: Converter, t: Version) {
    Leads(list, chain, c.tuple.source, t, c.tuple.IsUp()) && chain[0] == c
  }

  /** Some one-directional sequence of listed converters starts with `c` and leads to `t`. */
  ghost predicate LeadsTo(list: seq<Converter>, c: Converter, t: Version) {
    exists chain :: Through(list, chain, c, t)
  }

  lemma {:induction false} LeadsSlice(list: seq<Converter>, chain: seq<Converter>, s: Version, t: Version,
                                      up: bool, a: nat, b: nat)
    requires Leads(list, chain, s, t, up) && a < b <= |chain|
    ensures Leads(list, chain[a..b], if a == 0 then s else chain[a - 1].tuple.target, chain[b - 1].tuple.target, up)
  {
  }

  /** No direction leads back to where it started. */
  lemma {:induction false} NoWayBack(list: seq<Converter>, chain: seq<Converter>, s: Version, t: Version, up: bool)
    requires Leads(list, chain, s, t, up) && chain[0].tuple.target != s
    ensures t != s
  {
    if |chain| > 1 {
      var u := chain[0].tuple.target;
      assert chain[0].tuple == Tuple(s, u);
      LeadsSlice(list, chain, s, t, up, 1, |chain|);
      LeadsDirection(list, chain[1..|chain|], u, t, up);
      DirectionsOpposed(s, u);
    }
  }

  lemma {:induction false} LeadsOn(list: seq<Converter>, a: seq<Converter>, b: seq<Converter>, s: Version,
                                   v: Version, t: Version, up: bool)
    requires Leads(list, a, s, v, up) && Leads(list, b, v, t, up)
    ensures Leads(list, a + b, s, t, up)
  {
  }

  /** Nothing behind a converter that leaves a version comes back to that version. */
  lemma {:induction false} NeverBack(list: seq<Converter>, chain: seq<Converter>, s: Version, t: Version,
                                     up: bool, j: nat, i: nat)
    requires Leads(list, chain, s, t, up) && j < i < |chain| && chain[j + 1].tuple.target != chain[j].tuple.target
    ensures chain[i].tuple.target != chain[j].tuple.target
  {
    LeadsSlice(list, chain, s, t, up, j + 1, i + 1);
    NoWayBack(list, chain[j + 1..i + 1], chain[j].tuple.target, chain[i].tuple.target, up);
  }

  /** The pairs from `s` to the versions that the chain reaches from its `n`-th converter on, before
      its end, are closed where they are registered. */
  ghost predicate ClosedAlong(list: seq<Converter>, m: Paths, chain: seq<Converter>, s: Version, n: nat) {
    forall i :: n <= i < |chain| - 1 && Tuple(s, chain[i].tuple.target) in m ==>
      Closed(Group(list), m, Tuple(s, chain[i].tuple.target))
  }

  /** A map that is closed along the rest of a chain, and has the pair where that starts, has that of
      its end. */
  lemma {:induction false} ClosedLeads(list: seq<Converter>, m: Paths, chain: seq<Converter>, s: Version,
                                       t: Version, up: bool, n: nat)
    requires Leads(list, chain, s, t, up) && ClosedAlong(list, m, chain, s, n)
    requires n < |chain| && Tuple(s, chain[n].tuple.target) in m
    ensures Tuple(s, t) in m
    decreases |chain|
  {
    var last := |chain| - 1;
    if n < last {
      var g, c, v := Group(list), chain[last], chain[last].tuple.source;
      LeadsPrefix(list, chain, s, t, up);
      ClosedLeads(list, m, chain[..last], s, v, up, n);
      LeadsDirection(list, chain[..last], s, v, up);
      GroupKeepsConverters(list);
      assert Tuple(s, chain[last - 1].tuple.target) == Tuple(s, v);
      assert IsEdge(g, c) && Closed(g, m, Tuple(s, v));
      var j :| 0 <= j < |g[v]| && g[v][j] == c;
      assert c.tuple == Tuple(v, g[v][j].tuple.target);
    }
  }

  /** The first of the converters that leads to the target. */
  ghost predicate FirstToLead(list: seq<Converter>, cs: seq<Converter>, t: Version, i: int) {
    && 0 <= i < |cs| && LeadsTo(list, cs[i], t)
    && forall l :: 0 <= l < i ==> !LeadsTo(list, cs[l], t)
  }

  /** The first of the converters going elsewhere than back to `s` that leads to the target. */
  ghost predicate FirstOtherToLead(list: seq<Converter>, cs: seq<Converter>, s: Version, t: Version, i: int) {
    && 0 <= i < |cs| && cs[i].tuple.target != s && LeadsTo(list, cs[i], t)
    && forall l :: 0 <= l < i && cs[l].tuple.target != s ==> !LeadsTo(list, cs[l], t)
  }

  lemma {:induction false} ChainLeadsTo(list: seq<Converter>, k: Tuple)
    requires k in Registered(list)
    ensures var chain := Registered(list)[k];
            && Leads(list, chain, k.source, k.target, k.IsUp())
            && LeadsTo(list, chain[0], k.target)
  {
    RegisteredIsTree(list);
    ChainLeads(list, Registered(list), k);
    assert Through(list, Registered(list)[k], Registered(list)[k][0], k.target);
  }

  /** How the search from a source comes to a pair: through its `j`-th converter, when `before` is
      registered. */
  ghost predicate EnteredThrough(list: seq<Converter>, k: Tuple, j: nat, before: Paths) {
    var cs := From(list, k.source);
    && j < |cs| && k in Registered(list) && k !in before && NewClosed(Group(list), map[], before)
    && (forall l :: 0 <= l < j ==> Tuple(k.source, cs[l].tuple.target) in before)
    && Adds(Group(list), before, Path(Tuple(k.source, cs[j].tuple.target), [cs[j]]), k, Registered(list)[k])
  }

  lemma {:induction false} IsEntered(list: seq<Converter>, k: Tuple) returns (j: nat, before: Paths)
    requires k in Registered(list)
    ensures EnteredThrough(list, k, j, before)
  {
    var g, s := Group(list), k.source;
    GroupInListOrder(list, s);
    j, before := AddedThrough(g, map[], s, None, 0, k);
    forall l | 0 <= l < j ensures Tuple(s, g[s][l].tuple.target) in before {
      assert Continue(s, None, g[s][l]).Some?;
    }
  }

  lemma {:induction false} FromHere(list: seq<Converter>, s: Version, l: nat)
    requires l < |From(list, s)|
    ensures var c := From(list, s)[l];
            c.tuple == Tuple(s, c.tuple.target) && c.tuple.target in Targets(Group(list))
  {
    GroupInListOrder(list, s);
    GroupKeepsConverters(list);
    assert Group(list)[s][l].tuple.target in Targets(Group(list));
  }

  lemma {:induction false} EnteredStartsAt(g: Graph, m: Paths, p: Path, k: Tuple, n: nat)
    requires p.tuple.target in Targets(g) && k in Entered(g, m, p) && k !in m && n < |p.chain|
    ensures p.tuple !in m && |Entered(g, m, p)[k]| >= |p.chain| && Entered(g, m, p)[k][n] == p.chain[n]
  {
    EnteredStarts(g, m, p);
    assert Starts(p.chain, Entered(g, m, p)[k]);
    assert Entered(g, m, p)[k][n] == Entered(g, m, p)[k][..|p.chain|][n];
  }

  lemma {:induction false} EnteredFirst(list: seq<Converter>, k: Tuple, j: nat, before: Paths)
    requires EnteredThrough(list, k, j, before)
    ensures Registered(list)[k] != [] && Registered(list)[k][0] == From(list, k.source)[j]
  {
    var c := From(list, k.source)[j];
    FromHere(list, k.source, j);
    EnteredStartsAt(Group(list), before, Path(c.tuple, [c]), k, 0);
  }

  /** A registered chain starts with the first converter, among those listed from its source, that
      leads to its target. */
  lemma {:induction false} FirstConverterExactly(list: seq<Converter>, k: Tuple) returns (i: nat)
    requires k in Registered(list)
    ensures Registered(list)[k] != [] && FirstToLead(list, From(list, k.source), k.target, i)
    ensures Registered(list)[k][0] == From(list, k.source)[i]
  {
    var cs := From(list, k.source);
    var before;
    i, before := IsEntered(list, k);
    EnteredFirst(list, k, i, before);
    ChainLeadsTo(list, k);
    forall l | 0 <= l < i ensures !LeadsTo(list, cs[l], k.target) {
      FromHere(list, k.source, l);
      if chain :| Through(list, chain, cs[l], k.target) {
        ClosedLeads(list, before, chain, k.source, k.target, cs[l].tuple.IsUp(), 0);
        assert false;
      }
    }
  }

  // ---------- the converters behind it ----------

  /** The pair belongs to a version that the first `n` converters of the chain reach. */
  ghost predicate OnPath(chain: seq<Converter>, s: Version, n: nat, k: Tuple) {
    exists j :: 0 <= j < n && j < |chain| && k == Tuple(s, chain[j].tuple.target)
  }

  /** All pairs are closed except those on the path, which still wait for their successors. */
  ghost predicate ClosedBut(list: seq<Converter>, m: Paths, chain: seq<Converter>, s: Version, n: nat) {
    forall k {:trigger Closed(Group(list), m, k)} :: k in m && !OnPath(chain, s, n, k) ==> Closed(Group(list), m, k)
  }

  /** The search has followed the first `n` converters of the chain of `k`, and what it registers from
      here on includes `k`. */
  ghost predicate Arrived(list: seq<Converter>, k: Tuple, n: nat, m: Paths) {
    && k in Registered(list) && k !in m
    && var chain := Registered(list)[k];
    && 0 < n < |chain|
    && ClosedBut(list, m, chain, k.source, n)
    && var v := chain[n - 1].tuple.target;
       var walked := Walk(Group(list), m, v, Some(Path(Tuple(k.source, v), chain[..n])), 0);
       k in walked && walked[k] == chain
  }

  lemma {:induction false} BeforeTheEnd(list: seq<Converter>, k: Tuple, n: nat)
    requires k in Registered(list) && n < |Registered(list)[k]|
    ensures var chain := Registered(list)[k];
            && (n == |chain| - 1 <==> chain[n].tuple.target == k.target)
            && (n > 0 ==> chain[n].tuple == Tuple(chain[n - 1].tuple.target, chain[n].tuple.target)
                          && chain[n].tuple.source != chain[n].tuple.target)
  {
    ChainLeadsTo(list, k);
    ChainTargetsDistinct(list, k);
  }

  lemma {:induction false} StaysClosedBut(list: seq<Converter>, m: Paths, chain: seq<Converter>, s: Version,
                                          n: nat, after: Paths)
    requires ClosedBut(list, m, chain, s, n) && NewClosed(Group(list), m, after) && m.Keys <= after.Keys
    ensures ClosedBut(list, after, chain, s, n)
  {
    forall k | k in after && !OnPath(chain, s, n, k) ensures Closed(Group(list), after, k) {
      if k in m {
        assert Closed(Group(list), m, k);
      }
    }
  }

  lemma {:induction false} ClosedButNext(list: seq<Converter>, m: Paths, chain: seq<Converter>, s: Version,
                                         n: nat, here: seq<Converter>)
    requires ClosedBut(list, m, chain, s, n) && n < |chain|
    ensures ClosedBut(list, m[Tuple(s, chain[n].tuple.target) := here], chain, s, n + 1)
  {
    var g, added := Group(list), Tuple(s, chain[n].tuple.target);
    var m' := m[added := here];
    assert OnPath(chain, s, n + 1, added);
    forall k | k in m' && !OnPath(chain, s, n + 1, k) ensures Closed(g, m', k) {
      assert !OnPath(chain, s, n, k);
      assert Closed(g, m, k);
    }
  }

  /** Where the search takes the path of a chain one converter further: at `v`, through the `j`-th of
      its converters, when `before` is registered. */
  ghost predicate Onwards(list: seq<Converter>, k: Tuple, n: nat, v: Version, j: nat, before: Paths, next: Path) {
    && k in Registered(list) && k !in before
    && var s, chain, cs := k.source, Registered(list)[k], From(list, v);
    && 0 < n < |chain| && v == chain[n - 1].tuple.target
    && ClosedBut(list, before, chain, s, n)
    && j < |cs| && cs[j] == chain[n] && Tuple(s, chain[n].tuple.target) !in before
    && DealtWith(k, v, cs, j, before)
    && next == Path(Tuple(s, chain[n].tuple.target), chain[..n + 1])
  }

  /** The pairs of those in front of the `j`-th that go on in the direction of `k` are registered. */
  ghost predicate DealtWith(k: Tuple, v: Version, cs: seq<Converter>, j: nat, before: Paths) {
    forall l :: 0 <= l < j <= |cs| && Tuple(v, cs[l].tuple.target).IsUp() == k.IsUp() ==>
      Tuple(k.source, cs[l].tuple.target) in before
  }

  lemma {:induction false} PathDirection(list: seq<Converter>, k: Tuple, n: nat)
    requires k in Registered(list) && 0 < n <= |Registered(list)[k]|
    ensures Tuple(k.source, Registered(list)[k][n - 1].tuple.target).IsUp() == k.IsUp()
  {
    ChainLeadsTo(list, k);
    LeadsSlice(list, Registered(list)[k], k.source, k.target, k.IsUp(), 0, n);
    LeadsDirection(list, Registered(list)[k][0..n], k.source, Registered(list)[k][n - 1].tuple.target, k.IsUp());
  }

  /** The converter through which a walk adds a pair is the next one of the pair's chain. */
  lemma {:induction false} AddsNext(g: Graph, v: Version, s: Version, n: nat, j: nat, before: Paths,
                                    next: Path, k: Tuple, chain: seq<Converter>)
    requires v in g && j < |g[v]| && n <= |chain|
    requires Continue(v, Some(Path(Tuple(s, v), chain[..n])), g[v][j]) == Some(next)
    requires Adds(g, before, next, k, chain)
    ensures n < |chain| && chain[n] == g[v][j] && next.tuple !in before
    ensures next == Path(Tuple(s, chain[n].tuple.target), chain[..n + 1])
  {
    assert g[v][j].tuple.target in Targets(g);
    EnteredStartsAt(g, before, next, k, n);
    assert chain[..n + 1] == chain[..n] + [chain[n]];
  }

  lemma {:induction false} AllDealtWith(list: seq<Converter>, k: Tuple, n: nat, m: Paths, v: Version, j: nat, before: Paths)
    requires k in Registered(list) && 0 < n < |Registered(list)[k]| && v == Registered(list)[k][n - 1].tuple.target
    requires ComesThrough(Group(list), m, v, Some(Path(Tuple(k.source, v), Registered(list)[k][..n])), 0, j, before)
    ensures DealtWith(k, v, From(list, v), j, before)
  {
    var path := Some(Path(Tuple(k.source, v), Registered(list)[k][..n]));
    PathDirection(list, k, n);
    GroupInListOrder(list, v);
    forall l | 0 <= l < j <= |From(list, v)| && Tuple(v, From(list, v)[l].tuple.target).IsUp() == k.IsUp()
      ensures Tuple(k.source, From(list, v)[l].tuple.target) in before
    {
      assert Continue(v, path, Group(list)[v][l]).Some?;
    }
  }

  lemma {:induction false} GoesOn(list: seq<Converter>, k: Tuple, n: nat, m: Paths)
    returns (j: nat, before: Paths, next: Path)
    requires Arrived(list, k, n, m)
    ensures Onwards(list, k, n, Registered(list)[k][n - 1].tuple.target, j, before, next)
    ensures Adds(Group(list), before, next, k, Registered(list)[k])
  {
    var g, s, chain := Group(list), k.source, Registered(list)[k];
    var v := chain[n - 1].tuple.target;
    var path := Some(Path(Tuple(s, v), chain[..n]));
    assert v in g;
    j, before := AddedThrough(g, m, v, path, 0, k);
    next := Continue(v, path, g[v][j]).value;
    StaysClosedBut(list, m, chain, s, n, before);
    AllDealtWith(list, k, n, m, v, j, before);
    AddsNext(g, v, s, n, j, before, next, k, chain);
    GroupInListOrder(list, v);
  }

  lemma {:induction false} ArrivesNext(list: seq<Converter>, k: Tuple, n: nat, v: Version, j: nat, before: Paths, next: Path)
    returns (m: Paths)
    requires Onwards(list, k, n, v, j, before, next) && n + 1 < |Registered(list)[k]|
    requires Adds(Group(list), before, next, k, Registered(list)[k])
    ensures Arrived(list, k, n + 1, m)
  {
    m := before[next.tuple := next.chain];
    BeforeTheEnd(list, k, n);
    ClosedButNext(list, before, Registered(list)[k], k.source, n, next.chain);
  }

  lemma {:induction false} ArrivesFirst(list: seq<Converter>, k: Tuple) returns (m: Paths)
    requires k in Registered(list) && |Registered(list)[k]| > 1
    ensures Arrived(list, k, 1, m)
  {
    var s, chain := k.source, Registered(list)[k];
    var j, before := IsEntered(list, k);
    EnteredFirst(list, k, j, before);
    m := before[Tuple(s, chain[0].tuple.target) := [chain[0]]];
    BeforeTheEnd(list, k, 0);
    assert chain[..1] == [chain[0]];
    ClosedButNext(list, before, chain, s, 0, [chain[0]]);
  }

  lemma {:induction false} Arrives(list: seq<Converter>, k: Tuple, n: nat) returns (m: Paths)
    requires k in Registered(list) && 0 < n < |Registered(list)[k]|
    ensures Arrived(list, k, n, m)
  {
    if n == 1 {
      m := ArrivesFirst(list, k);
    } else {
      m := Arrives(list, k, n - 1);
      var j, before, next := GoesOn(list, k, n - 1, m);
      m := ArrivesNext(list, k, n - 1, Registered(list)[k][n - 2].tuple.target, j, before, next);
    }
  }

  /** No way that leaves the end of the path comes to a version on the path again, so along it the map
      is closed. */
  lemma {:induction false} ClosedBeyond(list: seq<Converter>, m: Paths, chain: seq<Converter>, s: Version,
                                        t: Version, up: bool, n: nat)
    requires Leads(list, chain, s, t, up) && 0 < n < |chain| && ClosedBut(list, m, chain, s, n)
    requires forall j :: 0 <= j < n ==> chain[j + 1].tuple.target != chain[j].tuple.target
    ensures ClosedAlong(list, m, chain, s, n)
  {
    forall i | n <= i < |chain| - 1 && Tuple(s, chain[i].tuple.target) in m
      ensures Closed(Group(list), m, Tuple(s, chain[i].tuple.target))
    {
      forall j | 0 <= j < n ensures chain[i].tuple.target != chain[j].tuple.target {
        NeverBack(list, chain, s, t, up, j, i);
      }
      assert !OnPath(chain, s, n, Tuple(s, chain[i].tuple.target));
    }
  }

  lemma {:induction false} ClosedButSamePath(list: seq<Converter>, m: Paths, a: seq<Converter>,
                                             b: seq<Converter>, s: Version, n: nat)
    requires ClosedBut(list, m, a, s, n) && n <= |a| && n <= |b| && a[..n] == b[..n]
    ensures ClosedBut(list, m, b, s, n)
  {
    assert forall j :: 0 <= j < n ==> a[j] == a[..n][j] == b[j];
    assert forall k :: OnPath(a, s, n, k) ==> OnPath(b, s, n, k);
  }

  lemma {:induction false} LeadsFrom(list: seq<Converter>, chain: seq<Converter>, s: Version, t: Version, up: bool, n: nat)
    requires Leads(list, chain, s, t, up) && n < |chain|
    ensures Leads(list, chain[n..|chain|], chain[n].tuple.source, t, up)
  {
    LeadsSlice(list, chain, s, t, up, n, |chain|);
  }

  lemma {:induction false} RestLeads(list: seq<Converter>, k: Tuple, n: nat)
    requires k in Registered(list) && n < |Registered(list)[k]|
    ensures var chain := Registered(list)[k];
            Leads(list, chain[n..|chain|], chain[n].tuple.source, k.target, k.IsUp())
  {
    ChainLeadsTo(list, k);
    LeadsFrom(list, Registered(list)[k], k.source, k.target, k.IsUp(), n);
  }

  lemma {:induction false} SameWays(list: seq<Converter>, a: seq<Converter>, b: seq<Converter>, v: Version,
                                    t: Version, up: bool, up': bool)
    requires Leads(list, a, v, t, up) && Leads(list, b, v, t, up')
    ensures up == up'
  {
    LeadsDirection(list, a, v, t, up);
    LeadsDirection(list, b, v, t, up');
  }

  lemma {:induction false} SameWay(list: seq<Converter>, k: Tuple, n: nat, rest: seq<Converter>, c: Converter)
    requires k in Registered(list) && n < |Registered(list)[k]|
    requires c.tuple.source == Registered(list)[k][n].tuple.source && Through(list, rest, c, k.target)
    ensures c.tuple.IsUp() == k.IsUp()
  {
    var chain := Registered(list)[k];
    RestLeads(list, k, n);
    SameWays(list, chain[n..|chain|], rest, c.tuple.source, k.target, k.IsUp(), c.tuple.IsUp());
  }

  /** Each of the first `n` steps of the chain, and one more that leaves where they end, goes to
      another version. */
  lemma {:induction false} StepsLeave(chain: seq<Converter>, n: nat, rest: seq<Converter>)
    requires 0 < n <= |chain| && rest != [] && rest[0].tuple.target != chain[n - 1].tuple.target
    requires forall i, j :: 0 <= i < j < |chain| ==> chain[i].tuple.target != chain[j].tuple.target
    ensures var whole := chain[..n] + rest;
            forall j :: 0 <= j < n ==> whole[j + 1].tuple.target != whole[j].tuple.target
  {
    var whole := chain[..n] + rest;
    forall j | 0 <= j < n ensures whole[j + 1].tuple.target != whole[j].tuple.target {
      assert whole[j] == chain[j];
      assert whole[j + 1] == if j + 1 < n then chain[j + 1] else rest[0];
    }
  }

  /** Another way to the target, from the version reached, would be closed, so its end registered. */
  lemma {:induction false} NoOtherWay(list: seq<Converter>, k: Tuple, n: nat, v: Version, j: nat, before: Paths,
                                      next: Path, rest: seq<Converter>)
    requires Onwards(list, k, n, v, j, before, next)
    requires Leads(list, rest, v, k.target, k.IsUp()) && rest[0].tuple.target != v
    ensures Tuple(k.source, rest[0].tuple.target) !in before
  {
    var s, t, up, chain := k.source, k.target, k.IsUp(), Registered(list)[k];
    var whole := chain[..n] + rest;
    ChainLeadsTo(list, k);
    LeadsSlice(list, chain, s, t, up, 0, n);
    LeadsOn(list, chain[..n], rest, s, v, t, up);
    ChainTargetsDistinct(list, k);
    StepsLeave(chain, n, rest);
    ClosedButSamePath(list, before, chain, whole, s, n);
    ClosedBeyond(list, before, whole, s, t, up, n);
    if Tuple(s, rest[0].tuple.target) in before {
      assert whole[n] == rest[0];
      ClosedLeads(list, before, whole, s, t, up, n);
      assert false;
    }
  }

  /** What comes before the next converter does not lead to the target, or only back to where it starts. */
  lemma {:induction false} PassedOver(list: seq<Converter>, k: Tuple, n: nat, v: Version, j: nat, before: Paths,
                                      next: Path, l: nat)
    requires Onwards(list, k, n, v, j, before, next) && l < j < |From(list, v)|
    ensures From(list, v)[l].tuple.target == v || !LeadsTo(list, From(list, v)[l], k.target)
  {
    var c := From(list, v)[l];
    FromHere(list, v, l);
    BeforeTheEnd(list, k, n);
    if c.tuple.target != v && LeadsTo(list, c, k.target) {
      var rest :| Through(list, rest, c, k.target);
      SameWay(list, k, n, rest, c);
      NoOtherWay(list, k, n, v, j, before, next, rest);
      assert false;
    }
  }

  lemma {:induction false} RestLeadsTo(list: seq<Converter>, k: Tuple, n: nat)
    requires k in Registered(list) && n < |Registered(list)[k]|
    ensures LeadsTo(list, Registered(list)[k][n], k.target)
  {
    var chain := Registered(list)[k];
    RestLeads(list, k, n);
    ChainLeadsTo(list, k);
    assert Through(list, chain[n..|chain|], chain[n], k.target);
  }

  /** Behind its first converter, each further one of a registered chain is the first, among those
      listed from the version reached, that leads to the target and not back to that version. */
  lemma {:induction false} NextConverterExactly(list: seq<Converter>, k: Tuple, n: nat) returns (i: nat)
    requires k in Registered(list) && 0 < n < |Registered(list)[k]|
    ensures var c := Registered(list)[k][n];
            && FirstOtherToLead(list, From(list, c.tuple.source), c.tuple.source, k.target, i)
            && From(list, c.tuple.source)[i] == c
  {
    var v := Registered(list)[k][n].tuple.source;
    var m := Arrives(list, k, n);
    var before, next;
    BeforeTheEnd(list, k, n);
    i, before, next := GoesOn(list, k, n, m);
    RestLeadsTo(list, k, n);
    forall l | 0 <= l < i && From(list, v)[l].tuple.target != v ensures !LeadsTo(list, From(list, v)[l], k.target) {
      PassedOver(list, k, n, v, i, before, next, l);
    }
  }

  /** In particular behind a converter from its source to itself. */
  lemma {:induction false} SecondConverterExactly(list: seq<Converter>, k: Tuple) returns (i: nat)
    requires k in Registered(list) && k.source != k.target
    requires Registered(list)[k] != [] && Registered(list)[k][0].tuple.target == k.source
    ensures var cs := From(list, k.source);
            && |Registered(list)[k]| > 1 && FirstOtherToLead(list, cs, k.source, k.target, i)
            && Registered(list)[k][1] == cs[i]
  {
    BeforeTheEnd(list, k, 0);
    BeforeTheEnd(list, k, 1);
    i := NextConverterExactly(list, k, 1);
  }

  // ---------- the whole chain, without a search ----------

  ghost predicate FirstIn(list: seq<Converter>, c: Converter, t: Version) {
    exists i :: FirstToLead(list, From(list, c.tuple.source), t, i) && From(list, c.tuple.source)[i] == c
  }

  ghost predicate FirstOtherIn(list: seq<Converter>, c: Converter, t: Version) {
    exists i :: FirstOtherToLead(list, From(list, c.tuple.source), c.tuple.source, t, i) && From(list, c.tuple.source)[i] == c
  }

  /** The chain takes at its source the first listed converter that leads to the target, at every
      later version the first that leads there and not back to that version, and stops at the target. */
  ghost predicate Greedy(list: seq<Converter>, k: Tuple, chain: seq<Converter>) {
    && Leads(list, chain, k.source, k.target, k.IsUp())
    && FirstIn(list, chain[0], k.target)
    && (forall n :: 0 < n < |chain| ==> FirstOtherIn(list, chain[n], k.target))
    && (forall n :: 0 <= n < |chain| - 1 ==> chain[n].tuple.target != k.target)
  }

  lemma {:induction false} RegisteredIsGreedy(list: seq<Converter>, k: Tuple)
    requires k in Registered(list)
    ensures Greedy(list, k, Registered(list)[k])
  {
    var chain := Registered(list)[k];
    ChainLeadsTo(list, k);
    var first := FirstConverterExactly(list, k);
    forall n | 0 < n < |chain| ensures FirstOtherIn(list, chain[n], k.target) {
      var i := NextConverterExactly(list, k, n);
    }
    forall n | 0 <= n < |chain| - 1 ensures chain[n].tuple.target != k.target {
      BeforeTheEnd(list, k, n);
    }
  }

  lemma {:induction false} FirstUnique(list: seq<Converter>, a: Converter, b: Converter, t: Version)
    requires a.tuple.source == b.tuple.source
    ensures FirstIn(list, a, t) && FirstIn(list, b, t) ==> a == b
    ensures FirstOtherIn(list, a, t) && FirstOtherIn(list, b, t) ==> a == b
  {
  }

  lemma {:induction false} GreedyStep(list: seq<Converter>, k: Tuple, a: seq<Converter>, b: seq<Converter>, n: nat)
    requires Greedy(list, k, a) && Greedy(list, k, b) && n < |a| && n < |b| && a[..n] == b[..n]
    ensures a[n] == b[n]
  {
    assert n > 0 ==> a[n - 1] == a[..n][n - 1] == b[n - 1];
    FirstUnique(list, a[n], b[n], k.target);
  }

  /** Chains that go on alike wherever they have been alike start alike. */
  lemma {:induction false} AgreeStepwise(a: seq<Converter>, b: seq<Converter>, n: nat)
    requires forall j :: 0 <= j < n && j < |a| && j < |b| && a[..j] == b[..j] ==> a[j] == b[j]
    requires n <= |a| && n <= |b|
    ensures a[..n] == b[..n]
  {
    if n > 0 {
      AgreeStepwise(a, b, n - 1);
      assert a[..n] == a[..n - 1] + [a[n - 1]] && b[..n] == b[..n - 1] + [b[n - 1]];
    }
  }

  lemma {:induction false} GreedyUnique(list: seq<Converter>, k: Tuple, a: seq<Converter>, b: seq<Converter>)
    requires Greedy(list, k, a) && Greedy(list, k, b) && |a| <= |b|
    ensures a == b
  {
    forall j | 0 <= j < |a| && a[..j] == b[..j] ensures a[j] == b[j] {
      GreedyStep(list, k, a, b, j);
    }
    AgreeStepwise(a, b, |a|);
    assert a == a[..|a|] == b[..|a|];
    GreedyStops(list, k, a, b);
  }

  lemma {:induction false} GreedyStops(list: seq<Converter>, k: Tuple, a: seq<Converter>, b: seq<Converter>)
    requires Greedy(list, k, a) && Greedy(list, k, b) && |a| <= |b| && a == b[..|a|]
    ensures a == b
  {
    assert b[|a| - 1] == a[|a| - 1];
    assert b == b[..|b|];
  }

  /** Which chain a pair gets, without a search: a chain is the registered one if and only if it is
      greedy. */
  lemma {:induction false} RegisteredChainExactly(list: seq<Converter>, k: Tuple, chain: seq<Converter>)
    ensures k in Registered(list) && Registered(list)[k] == chain <==> Greedy(list, k, chain)
  {
    if k in Registered(list) {
      RegisteredIsGreedy(list, k);
    }
    if Greedy(list, k, chain) {
      RegisteredExactly(list, k);
      var registered := Registered(list)[k];
      if |chain| <= |registered| {
        GreedyUnique(list, k, chain, registered);
      } else {
        GreedyUnique(list, k, registered, chain);
      }
    }
  }

  // ---------- when a chain comes back to its source ----------

  /** Of the converters listed from `s` that lead to `t`, the first are converters from `s` to itself,
      at least one, and the next goes to `t` at once. */
  ghost predicate SelfThenDirect(list: seq<Converter>, s: Version, t: Version, j: int, i: int) {
    var cs := From(list, s);
    && 0 <= j < i < |cs| && cs[j].tuple.target == s
    && cs[i].tuple.target == t && cs[i].tuple.IsUp()
    && forall l :: 0 <= l < i && LeadsTo(list, cs[l], t) ==> cs[l].tuple.target == s
  }

  lemma {:induction false} SelfUp(s: Version)
    ensures Tuple(s, s).IsUp()
  {
  }

  lemma {:induction false} OneLeadsTo(list: seq<Converter>, s: Version, i: nat)
    requires i < |From(list, s)|
    ensures From(list, s)[i] in list && LeadsTo(list, From(list, s)[i], From(list, s)[i].tuple.target)
  {
    var c := From(list, s)[i];
    FromHere(list, s, i);
    GroupInListOrder(list, s);
    GroupKeepsConverters(list);
    assert IsEdge(Group(list), c);
    assert Through(list, [c], c, c.tuple.target);
  }

  lemma {:induction false} TwoLeadTo(list: seq<Converter>, s: Version, j: nat, i: nat)
    requires j < |From(list, s)| && i < |From(list, s)|
    requires From(list, s)[j].tuple.target == s && From(list, s)[i].tuple.IsUp()
    ensures LeadsTo(list, From(list, s)[j], From(list, s)[i].tuple.target)
  {
    var a, b := From(list, s)[j], From(list, s)[i];
    FromHere(list, s, j);
    FromHere(list, s, i);
    OneLeadsTo(list, s, j);
    OneLeadsTo(list, s, i);
    SelfUp(s);
    assert Through(list, [a, b], a, b.tuple.target);
  }

  lemma {:induction false} TwoLong(list: seq<Converter>, k: Tuple)
    requires k in Registered(list) && |Registered(list)[k]| > 1 && Registered(list)[k][1].tuple.target == k.target
    ensures |Registered(list)[k]| == 2
  {
    ChainLeadsTo(list, k);
    ChainTargetsDistinct(list, k);
  }

  /** The registered chain comes back to its source before its last converter if and only if the
      list has a converter from the source to itself, then a direct one to the target, and no other
      that leads there in front of it. */
  lemma {:induction false} ReturnsByList(list: seq<Converter>, k: Tuple)
    requires k in Registered(list) && k.source != k.target
    ensures Returns(list, k) <==> exists j, i :: SelfThenDirect(list, k.source, k.target, j, i)
  {
    if Returns(list, k) {
      ReturnIsListed(list, k);
    }
    if j, i :| SelfThenDirect(list, k.source, k.target, j, i) {
      ListedReturns(list, k, j, i);
    }
  }

  /** The registered chain is longer than one converter and its last starts at the source again. */
  ghost predicate Returns(list: seq<Converter>, k: Tuple)
    requires k in Registered(list)
  {
    var chain := Registered(list)[k];
    |chain| > 1 && chain[|chain| - 1].tuple.source == k.source
  }

  lemma {:induction false} ReturnIsListed(list: seq<Converter>, k: Tuple)
    requires k in Registered(list) && k.source != k.target && Returns(list, k)
    ensures exists j, i :: SelfThenDirect(list, k.source, k.target, j, i)
  {
    ReturnShape(list, k);
    var j := FirstConverterExactly(list, k);
    var i := SecondConverterExactly(list, k);
    OneLeadsTo(list, k.source, i);
    assert SelfThenDirect(list, k.source, k.target, j, i);
  }

  lemma {:induction false} ReturnShape(list: seq<Converter>, k: Tuple)
    requires k in Registered(list) && Returns(list, k)
    ensures var chain := Registered(list)[k];
            && |chain| == 2 && chain[0].tuple.target == k.source
            && chain[1].tuple.target == k.target && chain[1].tuple.IsUp()
  {
    ReturnsExactly(list, k);
    ChainLeadsTo(list, k);
    ShapeOfTwo(list, Registered(list)[k], k.source, k.target, k.IsUp());
  }

  lemma {:induction false} ShapeOfTwo(list: seq<Converter>, chain: seq<Converter>, s: Version, t: Version, up: bool)
    requires Leads(list, chain, s, t, up) && |chain| == 2 && chain[0].tuple.source == chain[0].tuple.target
    ensures chain[0].tuple.target == s && chain[1].tuple.target == t && chain[1].tuple.IsUp()
  {
    SelfUp(s);
    assert chain[0].tuple == Tuple(s, s);
  }

  lemma {:induction false} ListedReturns(list: seq<Converter>, k: Tuple, j: nat, i: nat)
    requires k in Registered(list) && k.source != k.target && SelfThenDirect(list, k.source, k.target, j, i)
    ensures Returns(list, k)
  {
    TwoLeadTo(list, k.source, j, i);
    OneLeadsTo(list, k.source, i);
    var first := FirstConverterExactly(list, k);
    assert first < i;
    var second := SecondConverterExactly(list, k);
    assert second == i;
    TwoLong(list, k);
    ChainLeadsTo(list, k);
    ReturnsExactly(list, k);
  }

  /** Converting to `t` runs what converting to the version before it runs, and then the last
      converter, except exactly for the lists described. */
  lemma {:induction false} PenultimateByList(list: seq<Converter>, k: Tuple)
    requires k in Registered(list) && k.source != k.target && |Registered(list)[k]| > 1
    ensures var m := Registered(list);
            var last := m[k][|m[k]| - 1];
            && Tuple(k.source, last.tuple.source) in m
            && (ChainRun(m, k.source, k.target) == ChainRun(m, k.source, last.tuple.source) + [last]
                <==> !exists j, i :: SelfThenDirect(list, k.source, k.target, j, i))
  {
    PenultimateExactly(list, k);
    ReturnsByList(list, k);
  }
}
