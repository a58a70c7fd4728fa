/** Removing units that share a name: the last one listed stays, and takes over the drop-ins of
    the earlier ones whose names it does not have yet. */
module DuplicateUnits {
  import opened Occurrences

  datatype Dropin = Dropin(name: string, contents: string)

  /** A unit of a version 2 configuration: its name, its drop-ins, its own contents (empty for none),
      and everything else, such as its enablement, in `rest`. */
  datatype Unit = Unit(name: string, dropins: seq<Dropin>, contents: string, rest: string)

  function DropinNames(ds: seq<Dropin>): (r: set<string>) {
    set d | d in ds :: d.name
  }

  function UnitNames(units: seq<Unit>): (r: set<string>) {
    set u | u in units :: u.name
  }

  /** The drop-ins of `ds` that are the first of their name, names in `known` left out. */
  function FirstNew(known: set<string>, ds: seq<Dropin>): (r: seq<Dropin>) {
    if ds == [] then []
    else
      var n := |ds| - 1;
      FirstNew(known, ds[..n]) + (if ds[n].name in known + DropinNames(ds[..n]) then [] else [ds[n]])
  }

  /** `existing` followed by the new drop-ins of `ds`. */
  function Merge(existing: seq<Dropin>, ds: seq<Dropin>): (r: seq<Dropin>) {
    existing + FirstNew(DropinNames(existing), ds)
  }

  function Position(units: seq<Unit>, name: string): (j: nat)
    requires name in UnitNames(units)
    ensures j < |units| && units[j].name == name
  {
    if units[0].name == name then 0 else Position(units[1..], name) + 1
  }

  /** The later units with the drop-ins of `u` merged into the one of its name. */
  function MergedInto(later: seq<Unit>, u: Unit): (r: seq<Unit>)
    requires u.name in UnitNames(later)
  {
    var j := Position(later, u.name);
    later[j := later[j].(dropins := Merge(later[j].dropins, u.dropins))]
  }

  /** What the backward scan has put out when it has seen all of `units`. */
  function KeepLast(units: seq<Unit>): (out: seq<Unit>)
  {
    if units == [] then []
    else
      var u, later := units[0], KeepLast(units[1..]);
      if u.name in UnitNames(later) then MergedInto(later, u) else later + [u]
  }

  // ---------- facts about drop-ins ----------

  lemma {:induction false} FirstNewLast(known: set<string>, ds: seq<Dropin>, d: Dropin)
    ensures FirstNew(known, ds + [d])
         == FirstNew(known, ds) + (if d.name in known || d.name in DropinNames(ds) then [] else [d])
  {
  }

  lemma {:induction false} FirstNewNames(known: set<string>, ds: seq<Dropin>)
    ensures DropinNames(FirstNew(known, ds)) == DropinNames(ds) - known
    ensures DistinctDropins(FirstNew(known, ds))
  {
    if ds != [] {
      var init, d := ds[..|ds| - 1], ds[|ds| - 1];
      var f := FirstNew(known, init);
      FirstNewNames(known, init);
      assert ds == init + [d];
      FirstNewLast(known, init, d);
      NamesAppend(init, d);
      if d.name in known || d.name in DropinNames(init) {
        assert f + [] == f;
        assert DropinNames(init) + {d.name} - known == DropinNames(init) - known;
      } else {
        NamesAppend(f, d);
        DistinctAppend(f, d);
        assert DropinNames(init) + {d.name} - known == DropinNames(init) - known + {d.name};
      }
    }
  }

  ghost predicate IsNew(known: set<string>, ds: seq<Dropin>, k: int) {
    0 <= k < |ds| && ds[k].name !in known && ds[k].name !in DropinNames(ds[..k])
  }

  /** `at` are the positions of the new drop-ins of `ds`, in order. */
  ghost predicate NewAt(known: set<string>, ds: seq<Dropin>, at: seq<nat>) {
    && (forall i :: 0 <= i < |at| ==> IsNew(known, ds, at[i]))
    && (forall i, j :: 0 <= i < j < |at| ==> at[i] < at[j])
    && (forall k :: IsNew(known, ds, k) ==> k in at)
  }

  lemma {:induction false} StaysNew(known: set<string>, ds: seq<Dropin>, d: Dropin, k: nat)
    requires k < |ds|
    ensures IsNew(known, ds + [d], k) <==> IsNew(known, ds, k)
  {
    assert (ds + [d])[..k] == ds[..k];
  }

  lemma {:induction false} NewAtLast(known: set<string>, ds: seq<Dropin>, d: Dropin, at: seq<nat>)
    requires NewAt(known, ds, at)
    ensures NewAt(known, ds + [d], if IsNew(known, ds + [d], |ds|) then at + [|ds|] else at)
  {
    var longer, at' := ds + [d], if IsNew(known, ds + [d], |ds|) then at + [|ds|] else at;
    forall i | 0 <= i < |at'| ensures IsNew(known, longer, at'[i]) {
      if i < |at| {
        assert IsNew(known, ds, at[i]);
        StaysNew(known, ds, d, at[i]);
      }
    }
    forall k | IsNew(known, longer, k) ensures k in at' {
      if k < |ds| {
        StaysNew(known, ds, d, k);
      }
    }
  }

  ghost predicate Picks(ds: seq<Dropin>, at: seq<nat>, out: seq<Dropin>) {
    |out| == |at| && forall i :: 0 <= i < |at| ==> at[i] < |ds| && out[i] == ds[at[i]]
  }

  lemma {:induction false} PicksLast(ds: seq<Dropin>, d: Dropin, at: seq<nat>, out: seq<Dropin>)
    requires Picks(ds, at, out)
    ensures Picks(ds + [d], at, out) && Picks(ds + [d], at + [|ds|], out + [d])
  {
  }

  /** The drop-ins come in their original order: exactly those whose name is neither known nor the
      name of an earlier one. */
  lemma {:induction false} FirstNewInOrder(known: set<string>, ds: seq<Dropin>) returns (at: seq<nat>)
    ensures NewAt(known, ds, at) && Picks(ds, at, FirstNew(known, ds))
  {
    if ds == [] {
      at := [];
    } else {
      var init, d := ds[..|ds| - 1], ds[|ds| - 1];
      at := FirstNewInOrder(known, init);
      assert ds == init + [d];
      NewAtLast(known, init, d, at);
      FirstNewLast(known, init, d);
      PicksLast(init, d, at, FirstNew(known, init));
      assert (init + [d])[..|init|] == init;
      if IsNew(known, init + [d], |init|) {
        at := at + [|init|];
      } else {
        assert FirstNew(known, init) + [] == FirstNew(known, init);
      }
    }
  }

  ghost predicate DistinctDropins(ds: seq<Dropin>) {
    forall i, j :: 0 <= i < j < |ds| ==> ds[i].name != ds[j].name
  }

  lemma {:induction false} DistinctAppend(ds: seq<Dropin>, d: Dropin)
    requires DistinctDropins(ds)
    ensures d.name !in DropinNames(ds) ==> DistinctDropins(ds + [d])
  {
  }

  lemma {:induction false} NamesAppend(ds: seq<Dropin>, d: Dropin)
    ensures DropinNames(ds + [d]) == DropinNames(ds) + {d.name}
  {
  }

  lemma {:induction false} NamesConcat(a: seq<Dropin>, b: seq<Dropin>)
    ensures DropinNames(a + b) == DropinNames(a) + DropinNames(b)
  {
  }

  lemma {:induction false} FirstNewConcat(known: set<string>, a: seq<Dropin>, b: seq<Dropin>)
    ensures FirstNew(known, a + b) == FirstNew(known, a) + FirstNew(known + DropinNames(a), b)
  {
    if b == [] {
      assert a + b == a;
    } else {
      var init, d := b[..|b| - 1], b[|b| - 1];
      FirstNewConcat(known, a, init);
      assert b == init + [d];
      Associative(a, init, [d]);
      FirstNewLast(known, a + init, d);
      FirstNewLast(known + DropinNames(a), init, d);
      NamesConcat(a, init);
      Associative(FirstNew(known, a), FirstNew(known + DropinNames(a), init),
                  if d.name in known + DropinNames(a + init) then [] else [d]);
    }
  }

  /** Merging in two portions is merging their concatenation. */
  lemma {:induction false} MergeTwice(existing: seq<Dropin>, a: seq<Dropin>, b: seq<Dropin>)
    ensures Merge(Merge(existing, a), b) == Merge(existing, a + b)
  {
    var known := DropinNames(existing);
    FirstNewConcat(known, a, b);
    FirstNewNames(known, a);
    NamesConcat(existing, FirstNew(known, a));
    assert known + (DropinNames(a) - known) == known + DropinNames(a);
  }

  lemma {:induction false} MergeNames(existing: seq<Dropin>, ds: seq<Dropin>)
    ensures DropinNames(Merge(existing, ds)) == DropinNames(existing) + DropinNames(ds)
  {
    FirstNewNames(DropinNames(existing), ds);
    NamesConcat(existing, FirstNew(DropinNames(existing), ds));
  }

  // ---------- the scan ----------

  ghost predicate DistinctNames(units: seq<Unit>) {
    forall i, j :: 0 <= i < j < |units| ==> units[i].name != units[j].name
  }

  lemma {:induction false} KeepLastNames(units: seq<Unit>)
    ensures UnitNames(KeepLast(units)) == UnitNames(units) && DistinctNames(KeepLast(units))
  {
    if units != [] {
      var u, later, out := units[0], KeepLast(units[1..]), KeepLast(units);
      KeepLastNames(units[1..]);
      assert units == [u] + units[1..];
      assert UnitNames(units) == {u.name} + UnitNames(units[1..]);
      if u.name in UnitNames(later) {
        SameNames(later, out);
      } else {
        assert UnitNames(later + [u]) == UnitNames(later) + {u.name};
        forall i | 0 <= i < |later| ensures later[i].name in UnitNames(later) {
          assert later[i] in later;
        }
      }
    }
  }

  lemma {:induction false} SameNames(a: seq<Unit>, b: seq<Unit>)
    requires |a| == |b| && forall i :: 0 <= i < |a| ==> a[i].name == b[i].name
    ensures UnitNames(a) == UnitNames(b)
  {
  }

  lemma {:induction false} PositionUnique(units: seq<Unit>, j: nat)
    requires DistinctNames(units) && j < |units|
    ensures units[j].name in UnitNames(units) && Position(units, units[j].name) == j
  {
  }

  /** Appends to `existing` each drop-in of `newDropins` whose name it does not have yet. */
  method AppendDropins(existing: seq<Dropin>, newDropins: seq<Dropin>) returns (dropins: seq<Dropin>)
    ensures dropins == Merge(existing, newDropins)
  {
    dropins := existing;
    for k := 0 to |newDropins|
      invariant dropins == Merge(existing, newDropins[..k])
    {
      var newDropin := newDropins[k];
      var hasExistingDropin := false;
      for l := 0 to |dropins|
        invariant !hasExistingDropin && forall m :: 0 <= m < l ==> dropins[m].name != newDropin.name
      {
        if dropins[l].name == newDropin.name {
          hasExistingDropin := true;
          assert dropins[l] in dropins;
          break;
        }
      }
      MergeNames(existing, newDropins[..k]);
      assert hasExistingDropin <==> newDropin.name in DropinNames(dropins);
      assert newDropins[..k + 1][..k] == newDropins[..k];
      if !hasExistingDropin {
        dropins := dropins + [newDropin];
      }
    }
    assert newDropins[..|newDropins|] == newDropins;
  }

  /** Looks for the unit of `u`'s name among all of `later` and merges the drop-ins there. */
  method MergeDropins(later: seq<Unit>, u: Unit) returns (outUnits: seq<Unit>)
    requires DistinctNames(later) && u.name in UnitNames(later)
    ensures outUnits == MergedInto(later, u)
  {
    outUnits := later;
    ghost var at := Position(later, u.name);
    for j := 0 to |outUnits|
      invariant outUnits == if j <= at then later else MergedInto(later, u)
    {
      if outUnits[j].name == u.name {
        PositionUnique(later, j);
        var dropins := AppendDropins(outUnits[j].dropins, u.dropins);
        outUnits := outUnits[j := outUnits[j].(dropins := dropins)];
      }
    }
  }

  lemma {:induction false} MergedIntoKeeps(later: seq<Unit>, u: Unit)
    requires u.name in UnitNames(later)
    ensures UnitNames(MergedInto(later, u)) == UnitNames(later)
    ensures u.dropins == [] ==> MergedInto(later, u) == later
  {
    SameNames(later, MergedInto(later, u));
    assert u.dropins == [] ==> Merge(later[Position(later, u.name)].dropins, u.dropins)
                               == later[Position(later, u.name)].dropins;
  }

  method RemoveDuplicateUnits(units: seq<Unit>) returns (outUnits: seq<Unit>)
    ensures outUnits == KeepLast(units)
  {
    var unitNameMap: set<string> := {};
    outUnits := [];
    for i := |units| downto 0
      invariant outUnits == KeepLast(units[i..]) && unitNameMap == UnitNames(outUnits)
    {
      KeepLastNames(units[i + 1..]);
      assert units[i..][1..] == units[i + 1..];
      if units[i].name in unitNameMap {
        MergedIntoKeeps(outUnits, units[i]);
        if |units[i].dropins| > 0 {
          outUnits := MergeDropins(outUnits, units[i]);
        }
      } else {
        outUnits := outUnits + [units[i]];
        unitNameMap := unitNameMap + {units[i].name};
      }
    }
    assert units[0..] == units;
  }

  // ---------- which units, in which order, with which drop-ins ----------

  function LastIndex(units: seq<Unit>, name: string): (i: nat)
    requires name in UnitNames(units)
    ensures i < |units| && units[i].name == name
    ensures forall j :: i < j < |units| ==> units[j].name != name
  {
    assert units == [units[0]] + units[1..];
    if name in UnitNames(units[1..]) then LastIndex(units[1..], name) + 1
    else
      assert forall j :: 0 < j < |units| ==> units[j] in units[1..];
      0
  }

  /** The drop-ins of the units called `name` from the `i`-th up to, not including, the `hi`-th:
      those of later units first, and each unit's in its own order. */
  function Earlier(units: seq<Unit>, name: string, i: nat, hi: nat): (r: seq<Dropin>)
    requires i <= hi <= |units|
    decreases hi - i
  {
    if i == hi then []
    else Earlier(units, name, i + 1, hi) + (if units[i].name == name then units[i].dropins else [])
  }

  lemma {:induction false} EarlierShift(units: seq<Unit>, name: string, i: nat, hi: nat)
    requires units != [] && i <= hi < |units|
    ensures Earlier(units, name, i + 1, hi + 1) == Earlier(units[1..], name, i, hi)
    decreases hi - i
  {
    if i < hi {
      EarlierShift(units, name, i + 1, hi);
    }
  }

  /** What the output unit of a name must be: the last unit of that name, with its own drop-ins
      followed by the first of each further name among those of the earlier units. */
  ghost function Merged(units: seq<Unit>, name: string): (r: Unit)
    requires name in UnitNames(units)
  {
    var i := LastIndex(units, name);
    units[i].(dropins := units[i].dropins + FirstNew(DropinNames(units[i].dropins), Earlier(units, name, 0, i)))
  }

  lemma {:induction false} LastIndexStep(units: seq<Unit>, name: string)
    requires units != [] && name in UnitNames(units[1..])
    ensures name in UnitNames(units)
    ensures LastIndex(units, name) == LastIndex(units[1..], name) + 1
  {
  }

  lemma {:induction false} EarlierStep(units: seq<Unit>, name: string, i: nat)
    requires units != [] && i < |units| - 1
    ensures Earlier(units, name, 0, i + 1)
         == Earlier(units[1..], name, 0, i) + (if units[0].name == name then units[0].dropins else [])
  {
    EarlierShift(units, name, 0, i);
  }

  lemma {:induction false} MergedStep(units: seq<Unit>, name: string)
    requires units != [] && name in UnitNames(units[1..])
    ensures name in UnitNames(units)
    ensures LastIndex(units, name) == LastIndex(units[1..], name) + 1
    ensures var m := Merged(units[1..], name);
            Merged(units, name)
            == if units[0].name == name then m.(dropins := Merge(m.dropins, units[0].dropins)) else m
  {
    LastIndexStep(units, name);
    var i := LastIndex(units[1..], name);
    EarlierStep(units, name, i);
    var earlier := Earlier(units[1..], name, 0, i);
    MergeTwice(units[1..][i].dropins, earlier, units[0].dropins);
    assert earlier + [] == earlier;
  }

  ghost predicate MergedUnits(units: seq<Unit>, out: seq<Unit>) {
    forall j :: 0 <= j < |out| ==> out[j].name in UnitNames(units) && out[j] == Merged(units, out[j].name)
  }

  ghost predicate LatestFirst(units: seq<Unit>, out: seq<Unit>)
    requires MergedUnits(units, out)
  {
    forall j, k :: 0 <= j < k < |out| ==> LastIndex(units, out[j].name) > LastIndex(units, out[k].name)
  }

  ghost predicate EarliestFirst(units: seq<Unit>, out: seq<Unit>)
    requires MergedUnits(units, out)
  {
    forall j, k :: 0 <= j < k < |out| ==> LastIndex(units, out[j].name) < LastIndex(units, out[k].name)
  }

  lemma {:induction false} KeepLastMerged(units: seq<Unit>)
    ensures MergedUnits(units, KeepLast(units))
  {
    if units != [] {
      var u, rest := units[0], units[1..];
      var later, out := KeepLast(rest), KeepLast(units);
      KeepLastMerged(rest);
      KeepLastNames(units);
      KeepLastNames(rest);
      assert units == [u] + rest;
      forall j | 0 <= j < |out|
        ensures out[j].name in UnitNames(units) && out[j] == Merged(units, out[j].name)
      {
        assert out[j] in out;
        if j < |later| {
          assert out[j].name == later[j].name;
          MergedStep(units, later[j].name);
          if u.name in UnitNames(later) && later[j].name == u.name {
            PositionUnique(later, j);
          }
        } else {
          assert u.dropins + FirstNew(DropinNames(u.dropins), []) == u.dropins;
        }
      }
    }
  }

  /** What the scan puts out for one more unit in front has the names it had, and then perhaps the
      new unit's, which occurs nowhere later. */
  lemma {:induction false} KeepLastNamesStep(units: seq<Unit>, j: nat)
    requires units != [] && j < |KeepLast(units)|
    ensures var later, out := KeepLast(units[1..]), KeepLast(units);
            if j < |later| then out[j].name == later[j].name
            else out[j] == units[0] && units[0].name !in UnitNames(units[1..])
  {
    KeepLastNames(units[1..]);
  }

  lemma {:induction false} KeepLastOrder(units: seq<Unit>)
    ensures MergedUnits(units, KeepLast(units)) && LatestFirst(units, KeepLast(units))
  {
    KeepLastMerged(units);
    if units != [] {
      var later, out := KeepLast(units[1..]), KeepLast(units);
      KeepLastOrder(units[1..]);
      forall j, k | 0 <= j < k < |out| ensures LastIndex(units, out[j].name) > LastIndex(units, out[k].name) {
        KeepLastNamesStep(units, j);
        KeepLastNamesStep(units, k);
        LastIndexStep(units, later[j].name);
        if k < |later| {
          LastIndexStep(units, later[k].name);
        }
      }
    }
  }

  /** The output has one unit for each name, those whose last occurrence is later coming first, and
      each is the last unit of its name with the earlier ones' new drop-ins appended. */
  lemma {:induction false} KeepLastExactly(units: seq<Unit>)
    ensures var out := KeepLast(units);
            && UnitNames(out) == UnitNames(units)
            && DistinctNames(out)
            && MergedUnits(units, out) && LatestFirst(units, out)
  {
    KeepLastNames(units);
    KeepLastMerged(units);
    KeepLastOrder(units);
  }

  /** The drop-ins of all units called `name`, in the order they are listed. */
  function AllDropins(units: seq<Unit>, name: string): (r: seq<Dropin>) {
    if units == [] then []
    else (if units[0].name == name then units[0].dropins else []) + AllDropins(units[1..], name)
  }

  lemma {:induction false} NoUnitNoDropins(units: seq<Unit>, name: string)
    requires name !in UnitNames(units)
    ensures AllDropins(units, name) == []
  {
    if units != [] {
      assert units == [units[0]] + units[1..];
      NoUnitNoDropins(units[1..], name);
    }
  }

  lemma {:induction false} MergedNames(units: seq<Unit>, name: string)
    requires name in UnitNames(units)
    ensures DropinNames(Merged(units, name).dropins) == DropinNames(AllDropins(units, name))
  {
    var rest := units[1..];
    assert units == [units[0]] + rest;
    var own := if units[0].name == name then units[0].dropins else [];
    NamesConcat(own, AllDropins(rest, name));
    if name in UnitNames(rest) {
      MergedNames(rest, name);
      MergedStep(units, name);
      MergeNames(Merged(rest, name).dropins, units[0].dropins);
    } else {
      NoUnitNoDropins(rest, name);
      assert LastIndex(units, name) == 0;
      assert units[0].dropins + FirstNew(DropinNames(units[0].dropins), []) == units[0].dropins;
    }
  }

  /** No drop-in name is lost or invented, and names are distinct when the last unit's own are. */
  lemma {:induction false} MergedDropins(units: seq<Unit>, name: string)
    requires name in UnitNames(units)
    ensures DropinNames(Merged(units, name).dropins) == DropinNames(AllDropins(units, name))
    ensures DistinctDropins(units[LastIndex(units, name)].dropins) <==> DistinctDropins(Merged(units, name).dropins)
  {
    MergedNames(units, name);
    var own := units[LastIndex(units, name)].dropins;
    var added := FirstNew(DropinNames(own), Earlier(units, name, 0, LastIndex(units, name)));
    FirstNewNames(DropinNames(own), Earlier(units, name, 0, LastIndex(units, name)));
    forall i, j | 0 <= i < |own| && 0 <= j < |added| ensures own[i].name != added[j].name {
      assert own[i] in own && added[j] in added;
      assert added[j].name in DropinNames(added);
    }
    var all := own + added;
    assert own == all[..|own|];
    assert forall i :: 0 <= i < |own| ==> all[i] == own[i];
    assert forall i :: |own| <= i < |all| ==> all[i] == added[i - |own|];
  }

  // ---------- repeating the removal ----------

  lemma {:induction false} KeepLastOfDistinct(units: seq<Unit>)
    requires DistinctNames(units)
    ensures KeepLast(units) == Reverse(units)
  {
    if units != [] {
      KeepLastOfDistinct(units[1..]);
      KeepLastNames(units[1..]);
      assert forall i :: 0 < i < |units| ==> units[0].name != units[i].name;
    }
  }

  lemma {:induction false} ReverseDistinct(units: seq<Unit>)
    requires DistinctNames(units)
    ensures DistinctNames(Reverse(units)) && UnitNames(Reverse(units)) == UnitNames(units)
  {
    KeepLastOfDistinct(units);
    KeepLastNames(units);
  }

  lemma {:induction false} ReversedOrder(units: seq<Unit>, out: seq<Unit>)
    requires MergedUnits(units, out) && LatestFirst(units, out)
    ensures MergedUnits(units, Reverse(out)) && EarliestFirst(units, Reverse(out))
  {
    var back, n := Reverse(out), |out| - 1;
    forall j | 0 <= j < |out| ensures back[j] == out[n - j] {
      ReversePlace(out, n - j);
    }
    assert MergedUnits(units, back);
    forall j, k | 0 <= j < k < |out| ensures LastIndex(units, back[j].name) < LastIndex(units, back[k].name) {
      assert back[j] == out[n - j] && back[k] == out[n - k];
    }
  }

  /** A second removal lists the merged units in the order of their last occurrences in the input,
      the earliest first; a third one gives back what the first one gave. */
  lemma {:induction false} UnitsAgain(units: seq<Unit>)
    ensures var twice := KeepLast(KeepLast(units));
            && |twice| == |KeepLast(units)|
            && MergedUnits(units, twice) && EarliestFirst(units, twice)
    ensures KeepLast(KeepLast(KeepLast(units))) == KeepLast(units)
  {
    var once := KeepLast(units);
    KeepLastExactly(units);
    KeepLastOfDistinct(once);
    ReversedOrder(units, once);
    ReverseDistinct(once);
    KeepLastOfDistinct(Reverse(once));
    ReverseTwice(once);
  }

  // ---------- what ends up on disk ----------

  /** What stays of the drop-in called `d` when `ds` are written one after the other: the last contents.
      A drop-in without contents is not written. */
  function Written(ds: seq<Dropin>, d: string): (contents: string) {
    if ds == [] then ""
    else
      var n := |ds| - 1;
      if ds[n].name == d && ds[n].contents != "" then ds[n].contents else Written(ds[..n], d)
  }

  /** The contents of the first drop-in called `d`, empty if there is none. */
  function FirstContents(ds: seq<Dropin>, d: string): (contents: string) {
    if ds == [] then "" else if ds[0].name == d then ds[0].contents else FirstContents(ds[1..], d)
  }

  lemma {:induction false} WrittenConcat(a: seq<Dropin>, b: seq<Dropin>, d: string)
    ensures Written(a + b, d) == if Written(b, d) != "" then Written(b, d) else Written(a, d)
  {
    if b == [] {
      assert a + b == a;
    } else {
      var n := |b| - 1;
      assert (a + b)[..|a| + n] == a + b[..n];
      WrittenConcat(a, b[..n], d);
    }
  }

  ghost predicate NoneHasContents(ds: seq<Dropin>, d: string) {
    forall x :: x in ds && x.name == d ==> x.contents == ""
  }

  lemma {:induction false} NothingWritten(ds: seq<Dropin>, d: string)
    ensures Written(ds, d) == "" <==> NoneHasContents(ds, d)
    ensures Written(ds, d) != "" ==> d in DropinNames(ds)
  {
    if ds != [] {
      var n := |ds| - 1;
      NothingWritten(ds[..n], d);
      NamesAppend(ds[..n], ds[n]);
      assert ds == ds[..n] + [ds[n]];
    }
  }

  lemma {:induction false} FirstContentsIn(ds: seq<Dropin>, d: string)
    ensures d in DropinNames(ds) ==> exists x :: x in ds && x.name == d && x.contents == FirstContents(ds, d)
    ensures d !in DropinNames(ds) ==> FirstContents(ds, d) == ""
  {
    if ds != [] {
      FirstContentsIn(ds[1..], d);
      NamesConcat([ds[0]], ds[1..]);
      assert ds == [ds[0]] + ds[1..];
      assert ds[0] in ds;
    }
  }

  lemma {:induction false} FirstContentsLast(ds: seq<Dropin>, x: Dropin, d: string)
    ensures FirstContents(ds + [x], d)
         == if d in DropinNames(ds) then FirstContents(ds, d) else if x.name == d then x.contents else ""
  {
    if ds == [] {
      assert [x][1..] == [];
    } else {
      FirstContentsLast(ds[1..], x, d);
      assert (ds + [x])[1..] == ds[1..] + [x];
      NamesConcat([ds[0]], ds[1..]);
      assert ds == [ds[0]] + ds[1..];
      assert ds[0] in ds;
    }
  }

  lemma {:induction false} FirstNewWritten(known: set<string>, ds: seq<Dropin>, d: string)
    ensures Written(FirstNew(known, ds), d) == if d in known then "" else FirstContents(ds, d)
  {
    if ds != [] {
      var n := |ds| - 1;
      var init, x := ds[..n], ds[n];
      FirstNewWritten(known, init, d);
      FirstNewLast(known, init, x);
      FirstContentsLast(init, x, d);
      assert ds == init + [x];
      FirstContentsIn(init, d);
      WrittenConcat(FirstNew(known, init), if x.name in known || x.name in DropinNames(init) then [] else [x], d);
      WrittenOne(x, d);
    }
  }

  lemma {:induction false} WrittenOne(x: Dropin, d: string)
    ensures Written([x], d) == if x.name == d then x.contents else ""
  {
    assert [x][..0] == [];
  }

  /** Merging keeps what is there under an existing name, and adds the first of each new name. */
  lemma {:induction false} MergeWritten(existing: seq<Dropin>, ds: seq<Dropin>, d: string)
    ensures Written(Merge(existing, ds), d)
         == if d in DropinNames(existing) then Written(existing, d) else FirstContents(ds, d)
  {
    var known := DropinNames(existing);
    WrittenConcat(existing, FirstNew(known, ds), d);
    FirstNewWritten(known, ds, d);
    NothingWritten(existing, d);
  }

  /** The drop-ins of a unit on disk, with their contents, when the listed units are written in order. */
  function OnDisk(units: seq<Unit>, name: string): (r: map<string, string>) {
    var ds := AllDropins(units, name);
    map d | d in DropinNames(ds) && Written(ds, d) != "" :: Written(ds, d)
  }

  lemma {:induction false} OnDiskAt(units: seq<Unit>, name: string, d: string)
    ensures d in OnDisk(units, name) <==> Written(AllDropins(units, name), d) != ""
    ensures d in OnDisk(units, name) ==> OnDisk(units, name)[d] == Written(AllDropins(units, name), d)
  {
    NothingWritten(AllDropins(units, name), d);
  }

  /** The removal leaves the drop-in on disk as it was. */
  predicate Unchanged(units: seq<Unit>, name: string, d: string) {
    Written(AllDropins(KeepLast(units), name), d) == Written(AllDropins(units, name), d)
  }

  lemma {:induction false} OnDiskAgree(units: seq<Unit>, name: string)
    ensures OnDisk(KeepLast(units), name) == OnDisk(units, name) <==> forall d :: Unchanged(units, name, d)
  {
    var p, q := OnDisk(KeepLast(units), name), OnDisk(units, name);
    forall d ensures Unchanged(units, name, d) <==> (d in p <==> d in q) && (d in p && d in q ==> p[d] == q[d]) {
      OnDiskAt(KeepLast(units), name, d);
      OnDiskAt(units, name, d);
    }
    if forall d :: Unchanged(units, name, d) {
      assert forall d :: d in p <==> d in q;
      assert p.Keys == q.Keys;
    }
  }

  lemma {:induction false} OnlyUnit(units: seq<Unit>, j: nat)
    requires DistinctNames(units) && j < |units|
    ensures AllDropins(units, units[j].name) == units[j].dropins
  {
    var name, rest := units[j].name, units[1..];
    if j == 0 {
      assert forall k :: 0 <= k < |rest| ==> rest[k] == units[k + 1] && units[0].name != units[k + 1].name;
      NoUnitNoDropins(rest, name);
      assert units[0].dropins + [] == units[0].dropins;
    } else {
      assert units[0].name != units[j].name;
      OnlyUnit(rest, j - 1);
      assert [] + AllDropins(rest, name) == AllDropins(rest, name);
    }
  }

  /** The latest of the units called `name` that list a drop-in called `d`. */
  ghost predicate LatestListing(units: seq<Unit>, name: string, d: string, i: int) {
    && 0 <= i < |units| && units[i].name == name && d in DropinNames(units[i].dropins)
    && forall j :: i < j < |units| && units[j].name == name ==> d !in DropinNames(units[j].dropins)
  }

  lemma {:induction false} IsListed(units: seq<Unit>, name: string, d: string)
    ensures d in DropinNames(AllDropins(units, name)) <==> exists i :: LatestListing(units, name, d, i)
  {
    if units != [] {
      var u, rest := units[0], units[1..];
      var own := if u.name == name then u.dropins else [];
      IsListed(rest, name, d);
      NamesConcat(own, AllDropins(rest, name));
      forall i | i > 0 ensures LatestListing(units, name, d, i) <==> LatestListing(rest, name, d, i - 1) {
        LatestBehind(units, name, d, i);
      }
      if i :| LatestListing(rest, name, d, i) {
        assert LatestListing(units, name, d, i + 1);
      } else if d in DropinNames(own) {
        NotListed(rest, name, d);
        assert LatestListing(units, name, d, 0);
      }
    }
  }

  lemma {:induction false} LatestBehind(units: seq<Unit>, name: string, d: string, i: nat)
    requires units != [] && i > 0
    ensures LatestListing(units, name, d, i) <==> LatestListing(units[1..], name, d, i - 1)
  {
    var rest := units[1..];
    assert forall j :: 0 <= j < |rest| ==> rest[j] == units[j + 1];
    if LatestListing(units[1..], name, d, i - 1) {
      forall j | i < j < |units| && units[j].name == name ensures d !in DropinNames(units[j].dropins) {
        assert rest[j - 1] == units[j];
      }
    }
  }

  lemma {:induction false} NotListed(units: seq<Unit>, name: string, d: string)
    requires d !in DropinNames(AllDropins(units, name))
    ensures forall j :: 0 <= j < |units| && units[j].name == name ==> d !in DropinNames(units[j].dropins)
  {
    if units != [] {
      var rest := units[1..];
      NamesConcat(if units[0].name == name then units[0].dropins else [], AllDropins(rest, name));
      NotListed(rest, name, d);
      assert forall j :: 0 < j < |units| ==> units[j] == rest[j - 1];
    }
  }

  lemma {:induction false} ListedIn(units: seq<Unit>, name: string, d: string, i: nat)
    requires i < |units| && units[i].name == name && d in DropinNames(units[i].dropins)
    ensures d in DropinNames(AllDropins(units, name))
  {
    if d !in DropinNames(AllDropins(units, name)) {
      NotListed(units, name, d);
      assert false;
    }
  }

  lemma {:induction false} NotListedLater(units: seq<Unit>, name: string, d: string)
    requires LatestListing(units, name, d, 0)
    ensures d !in DropinNames(AllDropins(units[1..], name))
  {
    var rest := units[1..];
    IsListed(rest, name, d);
    if j :| LatestListing(rest, name, d, j) {
      assert false;
    }
  }

  /** Written in order, the latest unit that lists the drop-in decides unless it lists it empty. */
  lemma {:induction false} WrittenInOrder(units: seq<Unit>, name: string, d: string, i: nat)
    requires LatestListing(units, name, d, i)
    ensures var w := Written(units[i].dropins, d); w != "" ==> Written(AllDropins(units, name), d) == w
  {
    var rest := units[1..];
    var own := if units[0].name == name then units[0].dropins else [];
    WrittenConcat(own, AllDropins(rest, name), d);
    if i == 0 {
      NotListedLater(units, name, d);
      NothingWritten(AllDropins(rest, name), d);
    } else {
      LatestBehind(units, name, d, i);
      WrittenInOrder(rest, name, d, i - 1);
    }
  }

  /** Merged, the latest unit that lists the drop-in decides: with all it would write itself if it is
      the last of its name, and otherwise with the first it lists. */
  lemma {:induction false} WrittenMerged(units: seq<Unit>, name: string, d: string, i: nat)
    requires LatestListing(units, name, d, i)
    ensures name in UnitNames(units)
    ensures Written(Merged(units, name).dropins, d)
         == if name in UnitNames(units[i + 1..]) then FirstContents(units[i].dropins, d)
            else Written(units[i].dropins, d)
  {
    var rest := units[1..];
    assert units[i] in units;
    assert rest[i..] == units[i + 1..];
    if i == 0 {
      assert rest == units[1..];
      if name in UnitNames(rest) {
        NotListedLater(units, name, d);
        MergedNames(rest, name);
        MergedStep(units, name);
        MergeWritten(Merged(rest, name).dropins, units[0].dropins, d);
      } else {
        assert LastIndex(units, name) == 0;
        MergeWritten(units[0].dropins, [], d);
      }
    } else {
      LatestBehind(units, name, d, i);
      WrittenMerged(rest, name, d, i - 1);
      MergedStep(units, name);
      ListedIn(rest, name, d, i - 1);
      MergedNames(rest, name);
      MergeWritten(Merged(rest, name).dropins, units[0].dropins, d);
    }
  }

  lemma {:induction false} KeepLastDropins(units: seq<Unit>, name: string)
    requires name in UnitNames(units)
    ensures AllDropins(KeepLast(units), name) == Merged(units, name).dropins
    ensures DropinNames(AllDropins(KeepLast(units), name)) == DropinNames(AllDropins(units, name))
  {
    var out := KeepLast(units);
    KeepLastExactly(units);
    OnlyUnit(out, Position(out, name));
    MergedNames(units, name);
  }

  /** What the removal leaves of a drop-in. */
  lemma {:induction false} WrittenAfter(units: seq<Unit>, name: string, d: string)
    ensures Written(AllDropins(KeepLast(units), name), d)
         == if name in UnitNames(units) then Written(Merged(units, name).dropins, d) else ""
  {
    if name in UnitNames(units) {
      KeepLastDropins(units, name);
    } else {
      KeepLastNames(units);
      NoUnitNoDropins(KeepLast(units), name);
    }
  }

  /** The latest unit that lists the drop-in lists it with contents, and, if a later unit has its name,
      first and last with the same; or no unit of the name lists it with contents. */
  ghost predicate Settled(units: seq<Unit>, name: string, d: string, i: int)
    requires LatestListing(units, name, d, i)
  {
    var own := units[i].dropins;
    if Written(own, d) == "" then NoneHasContents(AllDropins(units, name), d)
    else name !in UnitNames(units[i + 1..]) || FirstContents(own, d) == Written(own, d)
  }

  ghost predicate Consistent(units: seq<Unit>, name: string, d: string) {
    forall i :: LatestListing(units, name, d, i) ==> Settled(units, name, d, i)
  }

  lemma {:induction false} DropinUnchangedExactly(units: seq<Unit>, name: string, d: string, i: nat)
    requires LatestListing(units, name, d, i)
    ensures Unchanged(units, name, d) <==> Settled(units, name, d, i)
  {
    var own := units[i].dropins;
    WrittenAfter(units, name, d);
    WrittenMerged(units, name, d, i);
    WrittenInOrder(units, name, d, i);
    NothingWritten(AllDropins(units, name), d);
    NothingWritten(own, d);
    FirstContentsIn(own, d);
  }

  lemma {:induction false} UnlistedUnchanged(units: seq<Unit>, name: string, d: string)
    requires d !in DropinNames(AllDropins(units, name))
    ensures Unchanged(units, name, d)
  {
    WrittenAfter(units, name, d);
    NothingWritten(AllDropins(units, name), d);
    if name in UnitNames(units) {
      MergedNames(units, name);
      NothingWritten(Merged(units, name).dropins, d);
    }
  }

  lemma {:induction false} UnchangedIfConsistent(units: seq<Unit>, name: string, d: string)
    ensures Unchanged(units, name, d) <==> Consistent(units, name, d)
  {
    IsListed(units, name, d);
    if d in DropinNames(AllDropins(units, name)) {
      var i :| LatestListing(units, name, d, i);
      DropinUnchangedExactly(units, name, d, i);
      assert forall j :: LatestListing(units, name, d, j) ==> j == i;
    } else {
      UnlistedUnchanged(units, name, d);
    }
  }

  /** The removal leaves the drop-ins of a unit on disk as they were if and only if each is consistent:
      a merge lets the latest unit that lists a drop-in decide, and of an earlier unit takes the first
      one, where writing the units in order keeps the last contents. */
  lemma {:induction false} OnDiskUnchangedExactly(units: seq<Unit>, name: string)
    ensures OnDisk(KeepLast(units), name) == OnDisk(units, name) <==>
              forall d :: Consistent(units, name, d)
  {
    OnDiskAgree(units, name);
    forall d ensures Unchanged(units, name, d) <==> Consistent(units, name, d) {
      UnchangedIfConsistent(units, name, d);
    }
  }

  lemma {:induction false} DistinctContents(ds: seq<Dropin>, x: Dropin)
    requires DistinctDropins(ds) && x in ds
    ensures FirstContents(ds, x.name) == Written(ds, x.name) == x.contents
  {
    var n := |ds| - 1;
    var init := ds[..n];
    assert ds == init + [ds[n]];
    FirstContentsLast(init, ds[n], x.name);
    if x in init {
      DistinctContents(init, x);
    } else {
      assert x.name !in DropinNames(init);
      NothingWritten(init, x.name);
    }
  }

  /** The latest drop-in called `d` has contents, or none has. */
  ghost predicate LatestHasContents(units: seq<Unit>, name: string, d: string) {
    forall i, x :: LatestListing(units, name, d, i) && x in units[i].dropins && x.name == d ==>
      x.contents != "" || NoneHasContents(AllDropins(units, name), d)
  }

  lemma {:induction false} ConsistentWhenDistinct(units: seq<Unit>, name: string, d: string)
    requires forall i :: 0 <= i < |units| ==> DistinctDropins(units[i].dropins)
    ensures Consistent(units, name, d) <==> LatestHasContents(units, name, d)
  {
    forall i, x | LatestListing(units, name, d, i) && x in units[i].dropins && x.name == d
      ensures Settled(units, name, d, i) <==> x.contents != "" || NoneHasContents(AllDropins(units, name), d)
    {
      DistinctContents(units[i].dropins, x);
    }
    if i :| LatestListing(units, name, d, i) {
      var x :| x in units[i].dropins && x.name == d;
      assert forall j :: LatestListing(units, name, d, j) ==> j == i;
    }
  }

  /** In particular, when no unit repeats a drop-in name within itself: nothing changes on disk if and
      only if each drop-in that is the latest of its name has contents, or none of its name has. */
  lemma {:induction false} OnDiskUnchangedWhenDistinct(units: seq<Unit>, name: string)
    requires forall i :: 0 <= i < |units| ==> DistinctDropins(units[i].dropins)
    ensures OnDisk(KeepLast(units), name) == OnDisk(units, name) <==> forall d :: LatestHasContents(units, name, d)
  {
    OnDiskUnchangedExactly(units, name);
    forall d ensures Consistent(units, name, d) <==> LatestHasContents(units, name, d) {
      ConsistentWhenDistinct(units, name, d);
    }
  }

  lemma {:induction false} OnDiskOne(units: seq<Unit>, name: string, d: string)
    requires DropinNames(AllDropins(units, name)) == {d}
    ensures OnDisk(units, name)
         == if Written(AllDropins(units, name), d) == "" then map[] else map[d := Written(AllDropins(units, name), d)]
  {
  }

  lemma {:induction false} TwoUnitsDropins(early: Unit, late: Unit)
    requires early.name == late.name
    ensures AllDropins([early, late], early.name) == early.dropins + late.dropins
    ensures UnitNames([early, late][1..]) == {early.name} && UnitNames([early, late][2..]) == {}
  {
    assert [early, late][1..] == [late] && [late][1..] == [];
    assert AllDropins([late], late.name) == late.dropins + [];
    assert late in [late];
  }

  /** Two units of one name with one drop-in name: what is on disk before and after the removal. */
  lemma {:induction false} TwoUnits(early: Unit, late: Unit, d: string, i: nat)
    requires early.name == late.name && DropinNames(early.dropins + late.dropins) == {d}
    requires LatestListing([early, late], early.name, d, i)
    ensures var units, name := [early, late], early.name;
            var before := Written(early.dropins + late.dropins, d);
            var after := if i == 0 then FirstContents(early.dropins, d) else Written(late.dropins, d);
            && OnDisk(units, name) == (if before == "" then map[] else map[d := before])
            && OnDisk(KeepLast(units), name) == (if after == "" then map[] else map[d := after])
  {
    var units, name := [early, late], early.name;
    TwoUnitsDropins(early, late);
    WrittenMerged(units, name, d, i);
    KeepLastDropins(units, name);
    OnDiskOne(units, name, d);
    OnDiskOne(KeepLast(units), name, d);
  }

  /** An earlier unit that lists one drop-in name twice: on disk the second would stay, after the
      removal the first does. */
  lemma {:induction false} RepeatedDropinChanges()
    ensures var a, b := Dropin("d", "first"), Dropin("d", "second");
            var units := [Unit("u", [a, b], "", ""), Unit("u", [], "", "")];
            && OnDisk(units, "u") == map["d" := "second"]
            && OnDisk(KeepLast(units), "u") == map["d" := "first"]
  {
    var a, b := Dropin("d", "first"), Dropin("d", "second");
    assert [a, b] + [] == [a, b];
    assert a in [a, b];
    TwoUnits(Unit("u", [a, b], "", ""), Unit("u", [], "", ""), "d", 0);
  }

  /** An earlier drop-in with contents and a later one of its name without: on disk the contents would
      stay, after the removal there are none. No unit repeats a drop-in name. */
  lemma {:induction false} EmptyDropinHides()
    ensures var units := [Unit("u", [Dropin("d", "text")], "", ""), Unit("u", [Dropin("d", "")], "", "")];
            && OnDisk(units, "u") == map["d" := "text"]
            && OnDisk(KeepLast(units), "u") == map[]
  {
    var x, y := Dropin("d", "text"), Dropin("d", "");
    assert [x] + [y] == [x, y];
    assert x in [x, y] && y in [y];
    WrittenOne(x, "d");
    WrittenOne(y, "d");
    WrittenConcat([x], [y], "d");
    TwoUnits(Unit("u", [x], "", ""), Unit("u", [y], "", ""), "d", 1);
  }

  // ---------- the units' own contents ----------

  /** The contents of a unit on disk when the listed units are written in order: a unit without
      contents leaves those of an earlier one. */
  function ContentsOnDisk(units: seq<Unit>, name: string): (contents: string) {
    if units == [] then ""
    else
      var later := ContentsOnDisk(units[1..], name);
      if later == "" && units[0].name == name then units[0].contents else later
  }

  lemma {:induction false} NoContents(units: seq<Unit>, name: string)
    ensures ContentsOnDisk(units, name) == "" <==>
              forall i :: 0 <= i < |units| && units[i].name == name ==> units[i].contents == ""
  {
    if units != [] {
      NoContents(units[1..], name);
      assert forall i :: 0 < i < |units| ==> units[i] == units[1..][i - 1];
    }
  }

  lemma {:induction false} LastContents(units: seq<Unit>, name: string)
    requires name in UnitNames(units)
    ensures var last := units[LastIndex(units, name)].contents;
            last != "" ==> ContentsOnDisk(units, name) == last
  {
    var rest := units[1..];
    if name in UnitNames(rest) {
      LastIndexStep(units, name);
      LastContents(rest, name);
    } else {
      NoSuchUnit(rest, name);
    }
  }

  lemma {:induction false} NoSuchUnit(units: seq<Unit>, name: string)
    requires name !in UnitNames(units)
    ensures ContentsOnDisk(units, name) == ""
  {
    NoContents(units, name);
    assert forall i :: 0 <= i < |units| ==> units[i] in units;
  }

  /** The removal leaves a unit's own contents on disk as they were if and only if the last unit of
      the name has contents or none of them has: what it drops from the earlier ones would have
      stayed where the last has none. */
  lemma {:induction false} ContentsUnchangedExactly(units: seq<Unit>, name: string)
    requires name in UnitNames(units)
    ensures ContentsOnDisk(KeepLast(units), name) == units[LastIndex(units, name)].contents
    ensures ContentsOnDisk(KeepLast(units), name) == ContentsOnDisk(units, name) <==>
              units[LastIndex(units, name)].contents != ""
              || forall i :: 0 <= i < |units| && units[i].name == name ==> units[i].contents == ""
  {
    var out := KeepLast(units);
    KeepLastExactly(units);
    var j := Position(out, name);
    assert forall i :: 0 <= i < |out| && out[i].name == name ==> i == j;
    LastContents(out, name);
    NoContents(out, name);
    LastContents(units, name);
    NoContents(units, name);
  }

  /** A unit with contents followed by one of its name with a drop-in only: the contents are lost. */
  lemma {:induction false} ContentsLost()
    ensures var d := Dropin("d", "x");
            var units := [Unit("u", [], "text", ""), Unit("u", [d], "", "")];
            && ContentsOnDisk(units, "u") == "text"
            && ContentsOnDisk(KeepLast(units), "u") == ""
  {
    var early, late := Unit("u", [], "text", ""), Unit("u", [Dropin("d", "x")], "", "");
    var units := [early, late];
    assert early in units && units[1..] == [late] && [late][1..] == [];
    assert LastIndex(units, "u") == 1 by {
      assert late in [late];
    }
    assert ContentsOnDisk([late], "u") == "";
    ContentsUnchangedExactly(units, "u");
  }
}
