/** Overlaying template directories and emitting the result in a stable order. */
module Templates {
  import opened Wrappers
  import opened Sorting
  import opened Selectors

  /** What a directory walk meets, in its order: an unreadable path, a directory, or a template with
      its size and the outcome of reading and rendering it. */
  datatype Entry =
    | Unreadable(error: string)
    | Directory
    | Template(name: string, size: nat, rendering: Result<string, string>)
  {
    /** The error the walk ends with here. A template of size zero is not read. */
    function Failure(): (r: Option<string>) {
      match this
      case Unreadable(e) => Some(e)
      case Directory => None
      case Template(_, size, rendering) =>
        if size > 0 && rendering.Err? then Some(rendering.error) else None
    }

    predicate Deletes(key: string) {
      Template? && size == 0 && name == key
    }

    /** Has text to put under the name: a rendering that is not blank. */
    predicate Puts(key: string) {
      Template? && size > 0 && rendering.Ok? && !Blank(rendering.value) && name == key
    }
  }

  /** The map, and the error if there was one, after the walk has met `dir`. */
  function Overlaid(m: map<string, string>, dir: seq<Entry>): (r: (map<string, string>, Option<string>))
    decreases dir
  {
    if dir == [] then (m, None)
    else
      match dir[0]
      case Unreadable(e) => (m, Some(e))
      case Directory => Overlaid(m, dir[1..])
      case Template(name, size, rendering) =>
        if size == 0 then Overlaid(m - {name}, dir[1..])
        else if rendering.Err? then (m, Some(rendering.error))
        else Overlaid(if TrimSpace(rendering.value) == "" then m else m[name := rendering.value], dir[1..])
  }

  /** A set of templates being filled from one directory after the other. */
  class TemplateSet {
    var entries: map<string, string>

    constructor ()
      ensures entries == map[]
    {
      entries := map[];
    }

    method FilterTemplates(dir: seq<Entry>) returns (err: Option<string>)
      modifies this
      ensures (entries, err) == Overlaid(old(entries), dir)
    {
      for i := 0 to |dir|
        invariant Overlaid(old(entries), dir) == Overlaid(entries, dir[i..])
      {
        assert dir[i..][1..] == dir[i + 1..];
        match dir[i] {
          case Unreadable(e) =>
            return Some(e);
          case Directory =>
          case Template(name, size, rendering) =>
            if size == 0 {
              entries := entries - {name};
            } else if rendering.Err? {
              return Some(rendering.error);
            } else if |TrimSpace(rendering.value)| > 0 {
              entries := entries[name := rendering.value];
            }
        }
      }
      err := None;
    }
  }

  // ---------- what an overlay holds ----------

  /** The last template to put something under the name, with none later to delete it. */
  ghost predicate Winner(es: seq<Entry>, name: string, i: int) {
    && 0 <= i < |es| && es[i].Puts(name)
    && forall j :: i < j < |es| ==> !es[j].Puts(name) && !es[j].Deletes(name)
  }

  ghost predicate Untouched(es: seq<Entry>, name: string) {
    forall j :: 0 <= j < |es| ==> !es[j].Puts(name) && !es[j].Deletes(name)
  }

  lemma {:induction false} WinnerBehind(e: Entry, es: seq<Entry>, name: string, i: int)
    requires i >= 0
    ensures Winner([e] + es, name, i + 1) <==> Winner(es, name, i)
  {
    var all := [e] + es;
    assert forall j :: 0 <= j < |es| ==> all[j + 1] == es[j];
    if Winner(all, name, i + 1) {
      forall j | i < j < |es| ensures !es[j].Puts(name) && !es[j].Deletes(name) {
        assert all[j + 1] == es[j];
      }
    }
  }

  lemma {:induction false} WinnerInFront(e: Entry, es: seq<Entry>, name: string)
    ensures Winner([e] + es, name, 0) <==> e.Puts(name) && Untouched(es, name)
    ensures Untouched([e] + es, name) <==> !e.Puts(name) && !e.Deletes(name) && Untouched(es, name)
  {
    var all := [e] + es;
    assert forall j :: 0 <= j < |es| ==> all[j + 1] == es[j];
  }

  /** The map one entry makes of another. */
  function Applied(m: map<string, string>, e: Entry): (r: map<string, string>) {
    if !e.Template? || e.Failure().Some? then m
    else if e.size == 0 then m - {e.name}
    else if TrimSpace(e.rendering.value) == "" then m
    else m[e.name := e.rendering.value]
  }

  lemma {:induction false} AppliedAt(m: map<string, string>, e: Entry, name: string)
    ensures e.Puts(name) ==> name in Applied(m, e) && Applied(m, e)[name] == e.rendering.value
    ensures e.Deletes(name) ==> name !in Applied(m, e)
    ensures !e.Puts(name) && !e.Deletes(name) ==>
              (name in Applied(m, e) <==> name in m) && (name in m ==> Applied(m, e)[name] == m[name])
  {
    if e.Template? && e.rendering.Ok? {
      TrimSpaceBlank(e.rendering.value);
    }
  }

  /** Under each name an overlay without errors holds what the winner put there, and else what was
      there before if nothing touched it: later directories override earlier ones, a template of
      size zero removes, a blank rendering leaves alone. */
  lemma {:induction false} OverlayExactly(m: map<string, string>, es: seq<Entry>, name: string)
    requires Overlaid(m, es).1.None?
    ensures var r := Overlaid(m, es).0;
            && (name in r <==> (exists i :: Winner(es, name, i)) || (name in m && Untouched(es, name)))
            && (forall i :: Winner(es, name, i) ==> name in r && r[name] == es[i].rendering.value)
            && (name in m && Untouched(es, name) ==> name in r && r[name] == m[name])
    decreases es
  {
    if es != [] {
      var e, rest := es[0], es[1..];
      var m' := Applied(m, e);
      assert es == [e] + rest;
      assert Overlaid(m, es) == Overlaid(m', rest);
      OverlayExactly(m', rest, name);
      AppliedAt(m, e, name);
      WinnerInFront(e, rest, name);
      forall i ensures Winner(es, name, i) <==> (i == 0 && Winner(es, name, 0)) || (i > 0 && Winner(rest, name, i - 1)) {
        if i > 0 {
          WinnerBehind(e, rest, name, i - 1);
        }
      }
      if i :| Winner(rest, name, i) {
        assert Winner(es, name, i + 1);
      }
    }
  }

  predicate Fails(es: seq<Entry>) {
    exists i :: 0 <= i < |es| && es[i].Failure().Some?
  }

  ghost predicate FailsFirst(es: seq<Entry>, error: string) {
    exists i :: 0 <= i < |es| && es[i].Failure() == Some(error) && !Fails(es[..i])
  }

  lemma {:induction false} FailsConcat(a: seq<Entry>, b: seq<Entry>)
    ensures Fails(a + b) <==> Fails(a) || Fails(b)
  {
    assert forall i :: 0 <= i < |a| ==> (a + b)[i] == a[i];
    assert forall i :: 0 <= i < |b| ==> (a + b)[|a| + i] == b[i];
  }

  lemma {:induction false} FailsFirstBehind(a: seq<Entry>, b: seq<Entry>, error: string)
    requires !Fails(a) && FailsFirst(b, error)
    ensures FailsFirst(a + b, error)
  {
    var i :| 0 <= i < |b| && b[i].Failure() == Some(error) && !Fails(b[..i]);
    assert (a + b)[|a| + i] == b[i] && (a + b)[..|a| + i] == a + b[..i];
    FailsConcat(a, b[..i]);
  }

  /** An overlay fails exactly when an entry fails, with the error of the first that does. */
  lemma {:induction false} OverlayFailsExactly(m: map<string, string>, es: seq<Entry>)
    ensures Overlaid(m, es).1.None? <==> !Fails(es)
    ensures Overlaid(m, es).1.Some? ==> FailsFirst(es, Overlaid(m, es).1.value)
    decreases es
  {
    if es != [] {
      var e, rest := es[0], es[1..];
      assert es == [e] + rest;
      FailsConcat([e], rest);
      if e.Failure().None? {
        var m' := Applied(m, e);
        assert Overlaid(m, es) == Overlaid(m', rest);
        OverlayFailsExactly(m', rest);
        if Overlaid(m', rest).1.Some? {
          FailsFirstBehind([e], rest, Overlaid(m', rest).1.value);
        }
      } else {
        assert es[0].Failure() == Overlaid(m, es).1 && es[..0] == [];
      }
    }
  }

  /** Overlaying directory by directory is overlaying all their entries in a row. */
  lemma {:induction false} OverlayConcat(m: map<string, string>, a: seq<Entry>, b: seq<Entry>)
    requires Overlaid(m, a).1.None?
    ensures Overlaid(m, a + b) == Overlaid(Overlaid(m, a).0, b)
    decreases a
  {
    if a == [] {
      assert a + b == b;
    } else {
      assert (a + b)[1..] == a[1..] + b;
      var m' := Applied(m, a[0]);
      assert Overlaid(m, a) == Overlaid(m', a[1..]);
      OverlayConcat(m', a[1..], b);
    }
  }

  // ---------- the platform directories of one name ----------

  datatype DirState = Missing | Broken(error: string) | Present(entries: seq<Entry>)

  /** One platform directory with its three kinds of templates. */
  datatype Platform =
    | NoPlatform
    | BrokenPlatform(error: string)
    | Platform(files: DirState, units: DirState, extensions: DirState)

  /** The template texts and names of the machine configuration, before transpiling. */
  datatype Generated = Generated(files: seq<string>, units: seq<string>, extensions: seq<string>)

  function EntriesOf(d: DirState): (r: seq<Entry>) {
    match d
    case Missing => []
    case Broken(e) => [Unreadable(e)]
    case Present(entries) => entries
  }

  method FilterIfPresent(t: TemplateSet, d: DirState) returns (err: Option<string>)
    modifies t
    ensures (t.entries, err) == Overlaid(old(t.entries), EntriesOf(d))
  {
    match d {
      case Missing =>
        err := None;
      case Broken(e) =>
        err := Some(e);
      case Present(entries) =>
        err := t.FilterTemplates(entries);
    }
  }

  /** All entries of the directories in a row. */
  function InARow(ds: seq<DirState>): (es: seq<Entry>) {
    if ds == [] then []
    else
      var n := |ds| - 1;
      InARow(ds[..n]) + EntriesOf(ds[n])
  }

  // ---------- what stands at the end, and what fails first ----------

  /** The template changes what is under its name: it removes it or puts another text there. */
  predicate Touches(e: Entry, name: string) {
    e.Template? && e.name == name && !(e.size > 0 && e.rendering.Ok? && Blank(e.rendering.value))
  }

  /** The `j`-th entry of the `i`-th directory puts the text under the name, and no later one of this
      or a later directory touches it. */
  ghost predicate Wins(ds: seq<DirState>, i: int, j: int, name: string, text: string) {
    && 0 <= i < |ds| && ds[i].Present? && 0 <= j < |ds[i].entries|
    && var e := ds[i].entries[j];
    && e.Template? && e.name == name && e.size > 0 && e.rendering == Ok(text) && !Blank(text)
    && (forall l :: j < l < |ds[i].entries| ==> !Touches(ds[i].entries[l], name))
    && NoneTouches(ds, i + 1, name)
  }

  /** No entry of the directories from the `n`-th on touches the name. */
  ghost predicate NoneTouches(ds: seq<DirState>, n: int, name: string) {
    forall h, l :: 0 <= n <= h < |ds| && ds[h].Present? && 0 <= l < |ds[h].entries| ==> !Touches(ds[h].entries[l], name)
  }

  ghost predicate Stands(ds: seq<DirState>, name: string, text: string) {
    exists i, j :: Wins(ds, i, j, name, text)
  }

  predicate Bad(e: Entry) {
    e.Unreadable? || (e.Template? && e.size > 0 && e.rendering.Err?)
  }

  ghost predicate ErrorAt(e: Entry, error: string) {
    e == Unreadable(error) || (e.Template? && e.size > 0 && e.rendering == Err(error))
  }

  /** The directory can be read and all its templates too. */
  predicate Good(d: DirState) {
    !d.Broken? && (d.Present? ==> forall j :: 0 <= j < |d.entries| ==> !Bad(d.entries[j]))
  }

  /** The directory is broken, or its first bad entry has the error. */
  ghost predicate FailsWith(d: DirState, error: string) {
    || d == Broken(error)
    || (d.Present? && exists j :: 0 <= j < |d.entries| && ErrorAt(d.entries[j], error)
                                  && (forall l :: 0 <= l < j ==> !Bad(d.entries[l])))
  }

  lemma {:induction false} DirFails(m: map<string, string>, d: DirState)
    ensures Overlaid(m, EntriesOf(d)).1.None? <==> Good(d)
    ensures Overlaid(m, EntriesOf(d)).1.Some? ==> FailsWith(d, Overlaid(m, EntriesOf(d)).1.value)
  {
    var es := EntriesOf(d);
    OverlayFailsExactly(m, es);
    assert forall j :: 0 <= j < |es| ==> (Bad(es[j]) <==> es[j].Failure().Some?);
    if Overlaid(m, es).1.Some? && d.Present? {
      var error := Overlaid(m, es).1.value;
      var i :| 0 <= i < |es| && es[i].Failure() == Some(error) && !Fails(es[..i]);
      forall l | 0 <= l < i ensures !Bad(es[l]) {
        assert es[..i][l] == es[l];
      }
    }
  }

  /** The map holds the text under the name. */
  predicate Has(m: map<string, string>, name: string, text: string) {
    name in m && m[name] == text
  }

  /** Overlaying a good directory: its own last text under the name, or what was there if it does not
      touch it. */
  lemma {:induction false} OverlayHas(m: map<string, string>, d: DirState, name: string, text: string)
    requires Good(d)
    ensures Has(Overlaid(m, EntriesOf(d)).0, name, text) <==>
              (exists j :: Wins([d], 0, j, name, text)) || (Has(m, name, text) && NoneTouches([d], 0, name))
  {
    var es := EntriesOf(d);
    DirFails(m, d);
    OverlayExactly(m, es, name);
    assert forall j :: 0 <= j < |es| ==> (Touches(es[j], name) <==> es[j].Puts(name) || es[j].Deletes(name));
    assert Untouched(es, name) <==> NoneTouches([d], 0, name);
    forall j ensures Wins([d], 0, j, name, text) <==> Winner(es, name, j) && es[j].rendering.value == text {
      WinsAlone(d, j, name, text);
    }
    WinnerUnique(es, name);
  }

  lemma {:induction false} WinnerUnique(es: seq<Entry>, name: string)
    ensures forall i, j :: Winner(es, name, i) && Winner(es, name, j) ==> i == j
    ensures Untouched(es, name) ==> forall i :: !Winner(es, name, i)
  {
  }

  lemma {:induction false} WinsAlone(d: DirState, j: int, name: string, text: string)
    requires Good(d)
    ensures Wins([d], 0, j, name, text) <==> Winner(EntriesOf(d), name, j) && EntriesOf(d)[j].rendering.value == text
  {
    var es := EntriesOf(d);
    assert forall l :: 0 <= l < |es| ==> (Touches(es[l], name) <==> es[l].Puts(name) || es[l].Deletes(name));
  }

  /** A further directory leaves what stands in those before it where it does not touch the name. */
  lemma {:induction false} StandsStep(ds: seq<DirState>, d: DirState, name: string, text: string)
    ensures Stands(ds + [d], name, text) <==>
              (exists j :: Wins([d], 0, j, name, text)) || (Stands(ds, name, text) && NoneTouches([d], 0, name))
  {
    var all, n := ds + [d], |ds|;
    assert all[n] == d && forall i :: 0 <= i < n ==> all[i] == ds[i];
    forall j ensures Wins(all, n, j, name, text) <==> Wins([d], 0, j, name, text) {
      WinsLast(ds, d, j, name, text);
    }
    forall i, j | 0 <= i < n ensures Wins(all, i, j, name, text) <==> Wins(ds, i, j, name, text) && NoneTouches([d], 0, name) {
      WinsEarlier(ds, d, i, j, name, text);
    }
  }

  lemma {:induction false} WinsLast(ds: seq<DirState>, d: DirState, j: int, name: string, text: string)
    ensures Wins(ds + [d], |ds|, j, name, text) <==> Wins([d], 0, j, name, text)
  {
    assert (ds + [d])[|ds|] == d == [d][0];
  }

  lemma {:induction false} WinsEarlier(ds: seq<DirState>, d: DirState, i: nat, j: int, name: string, text: string)
    requires i < |ds|
    ensures Wins(ds + [d], i, j, name, text) <==> Wins(ds, i, j, name, text) && NoneTouches([d], 0, name)
  {
    var all := ds + [d];
    assert all[|ds|] == d && forall h :: 0 <= h < |ds| ==> all[h] == ds[h];
    assert NoneTouches(all, i + 1, name) <==> NoneTouches(ds, i + 1, name) && NoneTouches([d], 0, name) by {
      if NoneTouches(all, i + 1, name) {
        forall l | d.Present? && 0 <= l < |d.entries| ensures !Touches(d.entries[l], name) {
          assert !Touches(all[|ds|].entries[l], name);
        }
        forall h, l | i + 1 <= h < |ds| && ds[h].Present? && 0 <= l < |ds[h].entries| ensures !Touches(ds[h].entries[l], name) {
          assert !Touches(all[h].entries[l], name);
        }
      }
      if NoneTouches(ds, i + 1, name) && NoneTouches([d], 0, name) {
        forall h, l | i + 1 <= h < |all| && all[h].Present? && 0 <= l < |all[h].entries| ensures !Touches(all[h].entries[l], name) {
          if h == |ds| {
            assert !Touches([d][0].entries[l], name);
          }
        }
      }
    }
  }

  /** The map holds exactly what stands. */
  ghost predicate Holds(ds: seq<DirState>, m: map<string, string>) {
    && (m, None) == Overlaid(map[], InARow(ds))
    && forall name, text :: Has(m, name, text) <==> Stands(ds, name, text)
  }

  lemma {:induction false} HoldsNothing()
    ensures Holds([], map[])
  {
  }

  lemma {:induction false} HoldsStep(ds: seq<DirState>, m: map<string, string>, d: DirState)
    requires Holds(ds, m) && Good(d)
    ensures Holds(ds + [d], Overlaid(m, EntriesOf(d)).0)
  {
    assert (ds + [d])[..|ds|] == ds;
    OverlayConcat(map[], InARow(ds), EntriesOf(d));
    DirFails(m, d);
    var r := Overlaid(m, EntriesOf(d)).0;
    forall name, text ensures Has(r, name, text) <==> Stands(ds + [d], name, text) {
      OverlayHas(m, d, name, text);
      StandsStep(ds, d, name, text);
    }
  }

  lemma {:induction false} HoldsNext(ds: seq<DirState>, n: nat, m: map<string, string>)
    requires n < |ds| && Holds(ds[..n], m) && Good(ds[n])
    ensures Holds(ds[..n + 1], Overlaid(m, EntriesOf(ds[n])).0)
  {
    assert ds[..n + 1] == ds[..n] + [ds[n]];
    HoldsStep(ds[..n], m, ds[n]);
  }

  /** Overlays the `n`-th directory onto what those before it left. */
  method OverlayDir(t: TemplateSet, d: DirState, ghost ds: seq<DirState>, ghost n: nat) returns (err: Option<string>)
    requires n < |ds| && ds[n] == d && Holds(ds[..n], t.entries)
    modifies t
    ensures err.None? ==> Good(d) && Holds(ds[..n + 1], t.entries)
    ensures err.Some? ==> !Good(d) && FailsWith(d, err.value)
  {
    DirFails(t.entries, d);
    if Good(d) {
      HoldsNext(ds, n, t.entries);
    }
    err := FilterIfPresent(t, d);
  }

  /** The texts that stand in the directories, in the order of their names. */
  ghost predicate Emitted(ds: seq<DirState>, texts: seq<string>) {
    exists names :: EmittedUnder(ds, names, texts)
  }

  ghost predicate EmittedUnder(ds: seq<DirState>, names: seq<string>, texts: seq<string>) {
    && Increasing(Before, names) && |names| == |texts|
    && (forall i :: 0 <= i < |names| ==> Stands(ds, names[i], texts[i]))
    && forall name, text :: Stands(ds, name, text) ==> name in names
  }

  /** The names under which a text stands, in order. */
  ghost predicate NamesEmitted(ds: seq<DirState>, names: seq<string>) {
    Increasing(Before, names) && forall name :: name in names <==> exists text :: Stands(ds, name, text)
  }

  lemma {:induction false} EmitsTexts(ds: seq<DirState>, m: map<string, string>, texts: seq<string>)
    requires Holds(ds, m) && InNameOrder(m, texts)
    ensures Emitted(ds, texts)
  {
    var names :| SortedKeys(m, names) && ValuesOf(m, names, texts);
    forall i | 0 <= i < |names| ensures Stands(ds, names[i], texts[i]) {
      assert Has(m, names[i], texts[i]);
    }
    forall name, text | Stands(ds, name, text) ensures name in names {
      assert Has(m, name, text);
    }
    assert EmittedUnder(ds, names, texts);
  }

  lemma {:induction false} EmitsNames(ds: seq<DirState>, m: map<string, string>, names: seq<string>)
    requires Holds(ds, m) && SortedKeys(m, names)
    ensures NamesEmitted(ds, names)
  {
    forall name ensures name in m <==> exists text :: Stands(ds, name, text) {
      if name in m {
        assert Has(m, name, m[name]);
      }
      if text :| Stands(ds, name, text) {
        assert Has(m, name, text);
      }
    }
  }

  ghost predicate BrokenFirst(ps: seq<Platform>, error: string) {
    exists i :: 0 <= i < |ps| && ps[i] == BrokenPlatform(error) && forall j :: 0 <= j < i ==> !ps[j].BrokenPlatform?
  }

  predicate AllGood(p: Platform) {
    p.Platform? ==> Good(p.files) && Good(p.units) && Good(p.extensions)
  }

  /** The platform's files fail with the error, or else its units, or else its extensions. */
  ghost predicate PlatformFails(p: Platform, error: string) {
    && p.Platform?
    && if !Good(p.files) then FailsWith(p.files, error)
       else if !Good(p.units) then FailsWith(p.units, error)
       else FailsWith(p.extensions, error)
  }

  /** The first platform that is not good fails with the error. */
  ghost predicate FirstFails(ps: seq<Platform>, error: string) {
    exists i :: 0 <= i < |ps| && PlatformFails(ps[i], error) && !AllGood(ps[i]) && GoodBefore(ps, i)
  }

  ghost predicate GoodBefore(ps: seq<Platform>, n: int) {
    forall h :: 0 <= h < n && h < |ps| ==> AllGood(ps[h])
  }

  lemma {:induction false} GoodOneMore(ps: seq<Platform>, n: nat)
    requires n < |ps| && GoodBefore(ps, n) && AllGood(ps[n])
    ensures GoodBefore(ps, n + 1)
  {
  }

  /** The three maps hold what stands in the first `n` of their directories. */
  ghost predicate HoldAll(dirs: Directories, n: nat, fm: map<string, string>, um: map<string, string>,
                          xm: map<string, string>) {
    && n <= |dirs.files| == |dirs.units| == |dirs.extensions|
    && Holds(dirs.files[..n], fm) && Holds(dirs.units[..n], um) && Holds(dirs.extensions[..n], xm)
  }

  /** The directories of each kind, platform after platform. */
  datatype Directories = Directories(files: seq<DirState>, units: seq<DirState>, extensions: seq<DirState>)

  /** A platform that is missing counts as three missing directories. */
  ghost predicate DirectoriesOf(ps: seq<Platform>, dirs: Directories) {
    && |dirs.files| == |dirs.units| == |dirs.extensions| == |ps|
    && forall i :: 0 <= i < |ps| ==>
         && dirs.files[i] == (if ps[i].Platform? then ps[i].files else Missing)
         && dirs.units[i] == (if ps[i].Platform? then ps[i].units else Missing)
         && dirs.extensions[i] == (if ps[i].Platform? then ps[i].extensions else Missing)
  }

  lemma {:induction false} HoldsMissing(ds: seq<DirState>, n: nat, m: map<string, string>)
    requires n < |ds| && ds[n] == Missing && Holds(ds[..n], m)
    ensures Holds(ds[..n + 1], m)
  {
    HoldsNext(ds, n, m);
  }

  /** Overlays the three directories of the `n`-th platform, each onto its own templates. */
  method OverlayPlatform(ps: seq<Platform>, n: nat, files: TemplateSet, units: TemplateSet, extensions: TemplateSet,
                         ghost dirs: Directories)
    returns (err: Option<string>)
    requires n < |ps| && DirectoriesOf(ps, dirs)
    requires files != units && files != extensions && units != extensions
    requires HoldAll(dirs, n, files.entries, units.entries, extensions.entries)
    modifies files, units, extensions
    ensures err.None? ==> AllGood(ps[n]) && HoldAll(dirs, n + 1, files.entries, units.entries, extensions.entries)
    ensures err.Some? ==> !AllGood(ps[n]) && PlatformFails(ps[n], err.value)
  {
    if !ps[n].Platform? {
      HoldsMissing(dirs.files, n, files.entries);
      HoldsMissing(dirs.units, n, units.entries);
      HoldsMissing(dirs.extensions, n, extensions.entries);
      return None;
    }
    err := OverlayDir(files, ps[n].files, dirs.files, n);
    if err.None? {
      err := OverlayDir(units, ps[n].units, dirs.units, n);
    }
    if err.None? {
      err := OverlayDir(extensions, ps[n].extensions, dirs.extensions, n);
    }
  }

  method OverlayAll(ps: seq<Platform>, files: TemplateSet, units: TemplateSet, extensions: TemplateSet,
                    ghost dirs: Directories)
    returns (err: Option<string>)
    requires files != units && files != extensions && units != extensions && DirectoriesOf(ps, dirs)
    requires HoldAll(dirs, 0, files.entries, units.entries, extensions.entries)
    modifies files, units, extensions
    ensures err.None? ==>
              && GoodBefore(ps, |ps|)
              && HoldAll(dirs, |ps|, files.entries, units.entries, extensions.entries)
    ensures err.Some? ==> FirstFails(ps, err.value)
  {
    for i := 0 to |ps|
      invariant HoldAll(dirs, i, files.entries, units.entries, extensions.entries)
      invariant GoodBefore(ps, i)
    {
      err := OverlayPlatform(ps, i, files, units, extensions, dirs);
      if err.Some? {
        return;
      }
      GoodOneMore(ps, i);
    }
    err := None;
  }

  lemma {:induction false} HoldAllNothing(dirs: Directories)
    requires |dirs.files| == |dirs.units| == |dirs.extensions|
    ensures HoldAll(dirs, 0, map[], map[], map[])
  {
    HoldsNothing();
  }

  lemma {:induction false} HoldAllOfAll(dirs: Directories, fm: map<string, string>, um: map<string, string>,
                                        xm: map<string, string>)
    requires HoldAll(dirs, |dirs.files|, fm, um, xm)
    ensures Holds(dirs.files, fm) && Holds(dirs.units, um) && Holds(dirs.extensions, xm)
  {
    assert dirs.files[..|dirs.files|] == dirs.files;
    assert dirs.units[..|dirs.units|] == dirs.units;
    assert dirs.extensions[..|dirs.extensions|] == dirs.extensions;
  }

  /** Overlays all platform directories, later ones taking precedence, and emits the texts in the
      order of their names: files, units and extensions each from their own directories. It fails
      exactly when a platform directory or an entry does: with the error of the first broken platform
      directory, or else of the first failing entry met. */
  method GenerateMachineConfigForName(ps: seq<Platform>) returns (r: Result<Generated, string>)
    ensures r.Err? <==> exists i :: 0 <= i < |ps| && (ps[i].BrokenPlatform? || !AllGood(ps[i]))
    ensures r.Err? ==>
              if exists i :: 0 <= i < |ps| && ps[i].BrokenPlatform? then BrokenFirst(ps, r.error)
              else FirstFails(ps, r.error)
    ensures r.Ok? ==>
              && Emitted(seq(|ps|, i requires 0 <= i < |ps| => if ps[i].Platform? then ps[i].files else Missing),
                         r.value.files)
              && Emitted(seq(|ps|, i requires 0 <= i < |ps| => if ps[i].Platform? then ps[i].units else Missing),
                         r.value.units)
              && NamesEmitted(seq(|ps|, i requires 0 <= i < |ps| => if ps[i].Platform? then ps[i].extensions else Missing),
                              r.value.extensions)
  {
    for i := 0 to |ps|
      invariant forall j :: 0 <= j < i ==> !ps[j].BrokenPlatform?
    {
      if ps[i].BrokenPlatform? {
        return Err(ps[i].error);
      }
    }
    var files := new TemplateSet();
    var units := new TemplateSet();
    var extensions := new TemplateSet();
    ghost var dirs := Directories(
      seq(|ps|, i requires 0 <= i < |ps| => if ps[i].Platform? then ps[i].files else Missing),
      seq(|ps|, i requires 0 <= i < |ps| => if ps[i].Platform? then ps[i].units else Missing),
      seq(|ps|, i requires 0 <= i < |ps| => if ps[i].Platform? then ps[i].extensions else Missing));
    HoldAllNothing(dirs);
    var err := OverlayAll(ps, files, units, extensions, dirs);
    if err.Some? {
      return Err(err.value);
    }
    HoldAllOfAll(dirs, files.entries, units.entries, extensions.entries);
    var fileTexts := KeySortVals(files.entries);
    var unitTexts := KeySortVals(units.entries);
    var names := SortKeys(extensions.entries);
    EmitsTexts(dirs.files, files.entries, fileTexts);
    EmitsTexts(dirs.units, units.entries, unitTexts);
    EmitsNames(dirs.extensions, extensions.entries, names);
    r := Ok(Generated(fileTexts, unitTexts, names));
  }

  // ---------- stable order ----------

  /** Strings in code point order, a proper prefix before what it starts. */
  predicate Before(a: string, b: string) {
    b != [] && (a == [] || a[0] < b[0] || (a[0] == b[0] && Before(a[1..], b[1..])))
  }

  /** The strings first differ at `i`, where the one of `a` is smaller. */
  ghost predicate SmallerAt(a: string, b: string, i: int) {
    0 <= i < |a| && i < |b| && a[..i] == b[..i] && a[i] < b[i]
  }

  ghost predicate ProperPrefix(a: string, b: string) {
    |a| < |b| && a == b[..|a|]
  }

  lemma {:induction false} SmallerBehind(x: char, a: string, b: string, i: int)
    ensures SmallerAt([x] + a, [x] + b, i) <==> SmallerAt(a, b, i - 1)
    ensures ProperPrefix([x] + a, [x] + b) <==> ProperPrefix(a, b)
  {
    var c, d := [x] + a, [x] + b;
    if ProperPrefix(c, d) {
      assert b[..|a|] == d[..|c|][1..] && a == c[1..];
    }
    if ProperPrefix(a, b) {
      assert d[..|c|] == [x] + b[..|a|];
    }
    if 0 < i <= |a| && i <= |b| {
      assert c[..i] == [x] + a[..i - 1] && d[..i] == [x] + b[..i - 1];
      assert c[..i] == d[..i] ==> a[..i - 1] == c[..i][1..] == b[..i - 1];
    }
  }

  /** The first place where the strings differ decides, and a proper prefix comes first. */
  lemma {:induction false} BeforeExactly(a: string, b: string)
    ensures Before(a, b) <==> ProperPrefix(a, b) || exists i :: SmallerAt(a, b, i)
  {
    if a != [] && b != [] && a[0] == b[0] {
      var c, d := a[1..], b[1..];
      BeforeExactly(c, d);
      assert a == [a[0]] + c && b == [a[0]] + d;
      forall i ensures SmallerAt(a, b, i) <==> SmallerAt(c, d, i - 1) {
        SmallerBehind(a[0], c, d, i);
      }
      SmallerBehind(a[0], c, d, 0);
      if i :| SmallerAt(c, d, i) {
        assert SmallerAt(a, b, i + 1);
      }
    } else if a != [] && b != [] {
      assert a[0] < b[0] ==> SmallerAt(a, b, 0);
      assert forall i :: 0 < i < |a| && i < |b| ==> a[..i][0] != b[..i][0];
    }
  }

  lemma {:induction false} BeforeTransitive(a: string, b: string, c: string)
    requires Before(a, b) && Before(b, c)
    ensures Before(a, c)
  {
    if a != [] && a[0] == b[0] == c[0] {
      BeforeTransitive(a[1..], b[1..], c[1..]);
    }
  }

  lemma {:induction false} BeforeTotal(a: string, b: string)
    ensures !Before(a, a)
    ensures a != b ==> Before(a, b) || Before(b, a)
  {
    if a != [] {
      BeforeTotal(a[1..], if b == [] then [] else b[1..]);
      if b != [] && a[0] == b[0] {
        assert a == [a[0]] + a[1..] && b == [b[0]] + b[1..];
      }
    }
  }

  lemma {:induction false} BeforeIsStrictTotal()
    ensures StrictTotalOrder(Before)
  {
    forall a: string, b: string ensures !Before(a, a) && (a != b ==> Before(a, b) || Before(b, a)) {
      BeforeTotal(a, b);
    }
    forall a: string, b: string, c: string | Before(a, b) && Before(b, c) ensures Before(a, c) {
      BeforeTransitive(a, b, c);
    }
  }

  /** The keys of a map in strictly increasing order. */
  ghost predicate SortedKeys(m: map<string, string>, ks: seq<string>) {
    Increasing(Before, ks) && forall k :: k in ks <==> k in m
  }

  /** The values of a map in the order of their keys. */
  ghost predicate InNameOrder(m: map<string, string>, vs: seq<string>) {
    exists ks :: SortedKeys(m, ks) && ValuesOf(m, ks, vs)
  }

  ghost predicate ValuesOf(m: map<string, string>, ks: seq<string>, vs: seq<string>) {
    |vs| == |ks| && forall i :: 0 <= i < |ks| ==> ks[i] in m && vs[i] == m[ks[i]]
  }

  lemma {:induction false} KeysDetermined(m: map<string, string>, a: seq<string>, b: seq<string>)
    requires SortedKeys(m, a) && SortedKeys(m, b)
    ensures a == b
  {
    BeforeIsStrictTotal();
    IncreasingUnique(Before, a, b);
  }

  /** Nothing is left to the iteration order of the map. */
  lemma {:induction false} OrderIsDetermined(m: map<string, string>, a: seq<string>, b: seq<string>)
    requires InNameOrder(m, a) && InNameOrder(m, b)
    ensures a == b
  {
    var ks :| SortedKeys(m, ks) && ValuesOf(m, ks, a);
    var ls :| SortedKeys(m, ls) && ValuesOf(m, ls, b);
    KeysDetermined(m, ks, ls);
    ValuesDetermined(m, ks, a, b);
  }

  lemma {:induction false} ValuesDetermined(m: map<string, string>, ks: seq<string>, a: seq<string>, b: seq<string>)
    requires ValuesOf(m, ks, a) && ValuesOf(m, ks, b)
    ensures a == b
  {
  }

  /** Collects the keys in whatever order the map yields them, and sorts them. */
  method SortKeys(m: map<string, string>) returns (ks: seq<string>)
    ensures SortedKeys(m, ks)
  {
    var keys: seq<string> := [];
    var left := m.Keys;
    while left != {}
      invariant left <= m.Keys
      invariant Distinct(keys) && forall k :: k in keys <==> k in m && k !in left
    {
      var k :| k in left;
      keys := keys + [k];
      left := left - {k};
    }
    BeforeIsStrictTotal();
    SortIncreasing(Before, keys);
    ks := Sort(Before, keys);
  }

  method KeySortVals(m: map<string, string>) returns (vs: seq<string>)
    ensures InNameOrder(m, vs)
  {
    var ks := SortKeys(m);
    vs := [];
    for i := 0 to |ks|
      invariant |vs| == i && forall j :: 0 <= j < i ==> ks[j] in m && vs[j] == m[ks[j]]
    {
      assert ks[i] in ks;
      vs := vs + [m[ks[i]]];
    }
    assert ValuesOf(m, ks, vs);
  }
}
