/** The version converter itself: chains are slices on the heap, the map of paths is filled while
    the search recurses, and the source versions are taken in any order. */
module IgnitionConverter {
  import opened Wrappers
  import opened Versions
  import opened Converters
  import opened Registration
  import opened Conversion
  import Sorting

  /** A slice: a backing array and how much of it is in use; the rest is spare capacity. */
  datatype Slice = Slice(backing: array<Converter>, len: nat)
  {
    ghost predicate Valid() {
      len <= backing.Length
    }

    ghost function Contents(): (r: seq<Converter>)
      requires Valid()
      reads backing
    {
      backing[..len]
    }
  }

  /** Appending writes into the backing array when it has room, and moves to a larger fresh array
      when it has none. */
  method Append(s: Slice, c: Converter) returns (r: Slice)
    requires s.Valid()
    modifies if s.len < s.backing.Length then {s.backing} else {}
    ensures r.Valid() && r.len == s.len + 1
    ensures r.Contents() == old(s.Contents()) + [c]
    ensures if s.len < s.backing.Length then r.backing == s.backing else fresh(r.backing)
    ensures s.Contents() == old(s.Contents())
  {
    if s.len < s.backing.Length {
      s.backing[s.len] := c;
      r := Slice(s.backing, s.len + 1);
    } else {
      var capacity: nat :| capacity > s.len;
      var larger := new Converter[capacity](_ => c);
      for i := 0 to s.len
        invariant forall j :: 0 <= j < i ==> larger[j] == s.backing[j]
        invariant larger[s.len] == c
      {
        larger[i] := s.backing[i];
      }
      r := Slice(larger, s.len + 1);
    }
  }

  /** Why a path is copied before it is extended: two appends to one slice that has room share
      their last element, and the second overwrites the first. */
  method AppendTwice(s: Slice, c: Converter, d: Converter) returns (a: Slice, b: Slice)
    requires s.Valid() && s.len < s.backing.Length
    modifies s.backing
    ensures a.Valid() && b.Valid()
    ensures a.Contents() == b.Contents() == old(s.Contents()) + [d]
  {
    a := Append(s, c);
    b := Append(s, d);
  }

  class ConversionPath {
    const tuple: Tuple
    const chain: Slice

    constructor First(tuple: Tuple, c: Converter)
      ensures this.tuple == tuple
      ensures chain.Valid() && chain.Contents() == [c] && fresh(chain.backing)
    {
      var single := new Converter[1](_ => c);
      this.tuple := tuple;
      chain := Slice(single, 1);
    }

    /** The given path extended by one converter, on a backing array of its own. */
    constructor FromExisting(path: ConversionPath, c: Converter)
      requires path.chain.Valid()
      ensures tuple == Tuple(path.tuple.source, c.tuple.target)
      ensures chain.Valid() && chain.Contents() == path.chain.Contents() + [c] && fresh(chain.backing)
    {
      var copy := new Converter[path.chain.len](_ => c);
      for i := 0 to path.chain.len
        invariant forall j :: 0 <= j < i ==> copy[j] == path.chain.backing[j]
      {
        copy[i] := path.chain.backing[i];
      }
      assert copy[..] == path.chain.Contents();
      var extended := Append(Slice(copy, path.chain.len), c);
      tuple := Tuple(path.tuple.source, c.tuple.target);
      chain := extended;
    }
  }

  /** The path an optional path object stands for. */
  ghost function PathOf(p: ConversionPath?): (r: Option<Path>)
    requires p != null ==> p.chain.Valid()
    reads if p == null then {} else {p.chain.backing}
  {
    if p == null then None else Some(Path(p.tuple, p.chain.Contents()))
  }

  /** Every path of `a` is in `b`, as the same object. */
  ghost predicate Kept(a: map<Tuple, ConversionPath>, b: map<Tuple, ConversionPath>) {
    forall k :: k in a ==> k in b && b[k] == a[k]
  }

  class IgnitionVersionConverter {
    var converterPaths: map<Tuple, ConversionPath>
    var supportedVersions: seq<Version>

    /** Every path sits under its own pair, and no two paths share a backing array. */
    ghost predicate Valid()
      reads this`converterPaths
    {
      && (forall k :: k in converterPaths ==> converterPaths[k].tuple == k && converterPaths[k].chain.Valid())
      && (forall k, l :: k in converterPaths && l in converterPaths && k != l ==>
            converterPaths[k].chain.backing != converterPaths[l].chain.backing)
    }

    ghost function Backings(): (r: set<array<Converter>>)
      reads this`converterPaths
    {
      set k | k in converterPaths :: converterPaths[k].chain.backing
    }

    /** The registered chains, as values. */
    ghost function Chains(): (r: Paths)
      requires Valid()
      reads this`converterPaths, Backings()
    {
      map k | k in converterPaths :: converterPaths[k].chain.Contents()
    }

    /** Adds a path of which the map has no pair yet, with a backing array the map has not. */
    method Store(p: ConversionPath)
      requires Valid() && p.chain.Valid() && p.tuple !in converterPaths && p.chain.backing !in Backings()
      modifies this`converterPaths
      ensures Valid()
      ensures converterPaths == old(converterPaths)[p.tuple := p]
      ensures Chains() == old(Chains())[p.tuple := p.chain.Contents()]
    {
      converterPaths := converterPaths[p.tuple := p];
    }

    /** Saves a path whose pair is new and carries on from its target; leaves a known pair alone. */
    method Follow(p: ConversionPath, g: Graph, ghost source: Version)
      requires Valid() && p.chain.Valid() && p.chain.backing !in Backings() && p.tuple.source == source
      requires p.tuple !in converterPaths ==> p.tuple.target in Targets(g)
      modifies this`converterPaths
      ensures Valid()
      ensures Chains() == Entered(g, old(Chains()), PathOf(p).value)
      ensures Kept(old(converterPaths), converterPaths)
      decreases |Pending(g, source, converterPaths.Keys)|, 0
    {
      if p.tuple !in converterPaths {
        ghost var keys := converterPaths.Keys;
        Store(p);
        PendingShrinks(g, source, keys, converterPaths.Keys);
        RecursiveConverterRegistration(p.tuple.target, g, p);
      }
    }

    /** Deals with one converter of `version`: continues the path in its own direction, or starts
        one when there is none. */
    method Visit(version: Version, conv: Converter, g: Graph, path: ConversionPath?)
      requires Valid() && (path != null ==> path.chain.Valid())
      requires conv.tuple.target in Targets(g)
      modifies this`converterPaths
      ensures Valid()
      ensures var next := Continue(version, PathOf(path), conv);
              Chains() == if next.Some? then Entered(g, old(Chains()), next.value) else old(Chains())
      ensures Kept(old(converterPaths), converterPaths)
      decreases |Pending(g, Source(version, PathOf(path)), converterPaths.Keys)|, 1
    {
      var tuple := Tuple(version, conv.tuple.target);
      ghost var m, next := Chains(), Continue(version, PathOf(path), conv);
      if path != null && path.tuple.IsUp() == tuple.IsUp() {
        var newChain := new ConversionPath.FromExisting(path, conv);
        assert Chains() == m && next == PathOf(newChain);
        Follow(newChain, g, path.tuple.source);
      } else if path == null {
        var chain := new ConversionPath.First(tuple, conv);
        assert Chains() == m && next == PathOf(chain);
        Follow(chain, g, version);
      }
    }

    /** Walks all converters reachable from `version` in the direction of the path so far, and
        leaves exactly the registrations the walk on values leaves. A path object that was there
        stays there, and its chain is not touched. */
    method RecursiveConverterRegistration(version: Version, g: Graph, path: ConversionPath?)
      requires Valid() && (path != null ==> path.chain.Valid())
      modifies this`converterPaths
      ensures Valid()
      ensures Chains() == Walk(g, old(Chains()), version, PathOf(path), 0)
      ensures Kept(old(converterPaths), converterPaths)
      decreases |Pending(g, Source(version, PathOf(path)), converterPaths.Keys)|, 2
    {
      if version !in g {
        return;
      }
      var conversions := g[version];
      ghost var before, start := Chains(), PathOf(path);
      for i := 0 to |conversions|
        invariant Valid()
        invariant Walk(g, before, version, start, 0) == Walk(g, Chains(), version, start, i)
        invariant Kept(old(converterPaths), converterPaths)
      {
        WalkStep(g, Chains(), version, start, i);
        PendingShrinks(g, Source(version, start), old(converterPaths).Keys, converterPaths.Keys);
        Visit(version, conversions[i], g, path);
      }
    }

    /** Records the versions of a pair that are not known yet. */
    method RegisterConverterVersions(tuple: Tuple, known: set<Version>) returns (known': set<Version>)
      requires Sorting.Distinct(supportedVersions) && forall v :: v in supportedVersions <==> v in known
      modifies this`supportedVersions
      ensures known' == known + {tuple.source, tuple.target}
      ensures Sorting.Distinct(supportedVersions) && forall v :: v in supportedVersions <==> v in known'
    {
      known' := known;
      if tuple.source !in known' {
        known' := known' + {tuple.source};
        supportedVersions := supportedVersions + [tuple.source];
      }
      if tuple.target !in known' {
        known' := known' + {tuple.target};
        supportedVersions := supportedVersions + [tuple.target];
      }
    }

    /** Builds the converter for any list. The source versions are searched in any order, and the
        outcome is the same for all of them: the map and the supported versions are functions of
        the list. */
    constructor (converters: seq<Converter>)
      ensures Valid()
      ensures Chains() == Registered(converters)
      ensures Sorting.Increasing(Less, supportedVersions)
      ensures forall v :: v in supportedVersions <==> v in Endpoints(converters)
    {
      converterPaths := map[];
      supportedVersions := [];
      new;
      var g := GroupBySource(converters);
      SearchAll(g);
      SortSupportedVersions();
    }

    method SortSupportedVersions()
      requires Valid() && Sorting.Distinct(supportedVersions)
      modifies this`supportedVersions
      ensures Valid() && Chains() == old(Chains())
      ensures Sorting.Increasing(Less, supportedVersions)
      ensures forall v :: v in supportedVersions <==> v in old(supportedVersions)
    {
      LessIsStrictTotal();
      Sorting.SortIncreasing(Less, supportedVersions);
      supportedVersions := Sorting.Sort(Less, supportedVersions);
    }

    /** Groups the converters by source version and collects the versions they mention. */
    method GroupBySource(converters: seq<Converter>) returns (g: Graph)
      requires supportedVersions == []
      modifies this`supportedVersions
      ensures g == Group(converters)
      ensures Sorting.Distinct(supportedVersions)
      ensures forall v :: v in supportedVersions <==> v in Endpoints(converters)
    {
      g := map[];
      var known: set<Version> := {};
      for i := 0 to |converters|
        invariant g == Group(converters[..i]) && known == Endpoints(converters[..i])
        invariant Sorting.Distinct(supportedVersions) && forall v :: v in supportedVersions <==> v in known
      {
        assert converters[..i + 1] == converters[..i] + [converters[i]];
        EndpointsGrow(converters[..i], converters[i]);
        assert converters[..i + 1][..i] == converters[..i];
        known := RegisterConverterVersions(converters[i].tuple, known);
        g := AddToGroup(g, converters[i]);
      }
      assert converters[..|converters|] == converters;
    }

    /** Searches from every source version, in whatever order the map yields them. */
    method SearchAll(g: Graph)
      requires converterPaths == map[]
      modifies this`converterPaths
      ensures Valid()
      ensures Chains() == Searched(g, g.Keys)
    {
      var left := g.Keys;
      ghost var done: set<Version> := {};
      assert Chains() == Searched(g, {});
      while left != {}
        invariant done !! left && done + left == g.Keys
        invariant Valid() && Chains() == Searched(g, done)
      {
        var version :| version in left;
        SearchesCommute(g, done, version);
        RecursiveConverterRegistration(version, g, null);
        left, done := left - {version}, done + {version};
      }
      assert done == g.Keys;
    }

    /** Converts along the registered chain, stopping at the first error. */
    method Convert(source: Value, s: Version, t: Version) returns (result: Value, err: Option<Error>)
      requires Valid()
      ensures Outcome(result, err) == ConvertWith(Chains(), source, s, t)
    {
      if s == t {
        return source, None;
      }
      var tuple := Tuple(s, t);
      if tuple !in converterPaths {
        return Nil, Some(Unsupported(tuple));
      }
      var chain := converterPaths[tuple].chain;
      ghost var all := chain.Contents();
      err := None;
      result := source;
      for i := 0 to chain.len
        invariant Outcome(result, err) == RunChain(all[..i], source) && err.None?
      {
        var o := chain.backing[i].Convert(result);
        result, err := o.value, o.err;
        RunChainStep(all, i, source);
        if err.Some? {
          RunChainStops(all, i + 1, source);
          break;
        }
      }
      assert all[..chain.len] == all;
    }

    /** The supported version with the given major and minor numbers and patch 0, if there is one. */
    method GetSupportedMinorVersion(version: Version) returns (r: Option<Version>)
      ensures r == if Version(version.major, version.minor, 0) in supportedVersions
                   then Some(Version(version.major, version.minor, 0)) else None
    {
      var minorVersion := Version(version.major, version.minor, 0);
      for i := 0 to |supportedVersions|
        invariant minorVersion !in supportedVersions[..i]
      {
        if Compare(supportedVersions[i], minorVersion) == 0 {
          return Some(supportedVersions[i]);
        }
      }
      r := None;
    }
  }

  lemma {:induction false} EndpointsGrow(list: seq<Converter>, c: Converter)
    ensures Endpoints(list + [c]) == Endpoints(list) + {c.tuple.source, c.tuple.target}
  {
    var longer := list + [c];
    assert longer[|list|] == c;
    forall i | 0 <= i < |list| ensures {list[i].tuple.source, list[i].tuple.target} <= Endpoints(longer) {
      assert longer[i] == list[i];
    }
  }

  /** Two converters built from one list hold the same chains and the same versions in the same
      order, whatever order their searches ran in. */
  lemma {:induction false} SameListSameConverter(a: IgnitionVersionConverter, b: IgnitionVersionConverter,
                                                 list: seq<Converter>)
    requires a.Valid() && a.Chains() == Registered(list)
    requires b.Valid() && b.Chains() == Registered(list)
    requires Sorting.Increasing(Less, a.supportedVersions) && Sorting.Increasing(Less, b.supportedVersions)
    requires forall v :: v in a.supportedVersions <==> v in Endpoints(list)
    requires forall v :: v in b.supportedVersions <==> v in Endpoints(list)
    ensures a.Chains() == b.Chains()
    ensures a.supportedVersions == b.supportedVersions
  {
    LessIsStrictTotal();
    Sorting.IncreasingUnique(Less, a.supportedVersions, b.supportedVersions);
  }
}
