/** Removing duplicate files, units and users from a version 2 configuration. */
module Deduplication {
  import opened Wrappers
  import opened Sorting
  import opened Occurrences
  import DuplicateFiles
  import DuplicateUnits

  /** A user; everything but name and keys is in `rest`. */
  datatype User = User(name: string, sshAuthorizedKeys: seq<string>, rest: string)

  datatype Config = Config(
    files: seq<DuplicateFiles.File>, units: seq<DuplicateUnits.Unit>, users: seq<User>, rest: string)

  const CORE := "core"

  /** Keeps the first of every key. */
  method DedupePasswdUserSSHKeys(passwdUser: User) returns (user: User)
    ensures user == passwdUser.(sshAuthorizedKeys := FirstOnly(passwdUser.sshAuthorizedKeys))
  {
    var keys := passwdUser.sshAuthorizedKeys;
    var knownSSHKeys: set<string> := {};
    var dedupedSSHKeys: seq<string> := [];
    for i := 0 to |keys|
      invariant dedupedSSHKeys == FirstOnly(keys[..i])
      invariant forall k :: k in knownSSHKeys <==> k in keys[..i]
    {
      assert keys[..i + 1][..i] == keys[..i];
      assert keys[..i + 1] == keys[..i] + [keys[i]];
      if keys[i] !in knownSSHKeys {
        dedupedSSHKeys := dedupedSSHKeys + [keys[i]];
        knownSSHKeys := knownSSHKeys + {keys[i]};
      }
    }
    assert keys[..|keys|] == keys;
    user := passwdUser.(sshAuthorizedKeys := dedupedSSHKeys);
  }

  /** The last user that is not core. */
  function OtherUser(users: seq<User>): (r: Option<User>) {
    if users == [] then None
    else
      var later := OtherUser(users[1..]);
      if later.Some? then later
      else if users[0].name != CORE then Some(users[0]) else None
  }

  /** The keys of the last user, then those of the one before it, and so on to the first. */
  function KeysBackwards(users: seq<User>): (r: seq<string>) {
    if users == [] then [] else KeysBackwards(users[1..]) + users[0].sshAuthorizedKeys
  }

  /** One core user for all of them; an unexpected user is an error, the last such is named. */
  function MergedUsers(users: seq<User>): (r: Result<seq<User>, string>) {
    if users == [] then Ok([])
    else
      match OtherUser(users)
      case Some(u) => Err(u.name)
      case None => Ok([users[|users| - 1].(sshAuthorizedKeys := FirstOnly(KeysBackwards(users)))])
  }

  method MergeUsers(users: seq<User>) returns (r: Result<seq<User>, string>)
    ensures r == MergedUsers(users)
  {
    if |users| == 0 {
      return Ok([]);
    }
    var outUser := users[|users| - 1];
    OtherOfLast(users);
    if outUser.name != CORE {
      return Err(outUser.name);
    }
    assert users[|users| - 1..][1..] == [];
    assert [] + outUser.sshAuthorizedKeys == outUser.sshAuthorizedKeys;
    for i := |users| - 1 downto 0
      invariant OtherUser(users[i..]) == None
      invariant outUser == users[|users| - 1].(sshAuthorizedKeys := KeysBackwards(users[i..]))
    {
      assert users[i..][1..] == users[i + 1..];
      if users[i].name != CORE {
        OtherOfSuffix(users, i);
        return Err(users[i].name);
      }
      ghost var before := outUser.sshAuthorizedKeys;
      var keys := users[i].sshAuthorizedKeys;
      for j := 0 to |keys|
        invariant outUser == users[|users| - 1].(sshAuthorizedKeys := before + keys[..j])
      {
        outUser := outUser.(sshAuthorizedKeys := outUser.sshAuthorizedKeys + [keys[j]]);
        assert before + keys[..j] + [keys[j]] == before + keys[..j + 1];
      }
      assert keys[..|keys|] == keys;
    }
    assert users[0..] == users;
    var user := DedupePasswdUserSSHKeys(outUser);
    r := Ok([user]);
  }

  lemma {:induction false} OtherOfSuffix(users: seq<User>, i: nat)
    requires i <= |users| && OtherUser(users[i..]).Some?
    ensures OtherUser(users) == OtherUser(users[i..])
  {
    if i > 0 {
      assert users[i - 1..][1..] == users[i..];
      OtherOfSuffix(users, i - 1);
    } else {
      assert users[0..] == users;
    }
  }

  lemma {:induction false} OtherOfLast(users: seq<User>)
    requires users != []
    ensures var last := users[|users| - 1];
            if last.name != CORE then OtherUser(users) == Some(last) else OtherUser(users[|users| - 1..]) == None
  {
    var n := |users| - 1;
    assert users[n..][1..] == [];
    if users[n].name != CORE {
      OtherOfSuffix(users, n);
    }
  }

  lemma {:induction false} OtherUserExactly(users: seq<User>)
    ensures OtherUser(users).None? <==> forall i :: 0 <= i < |users| ==> users[i].name == CORE
    ensures OtherUser(users).Some? ==>
              exists i :: 0 <= i < |users| && users[i] == OtherUser(users).value && users[i].name != CORE
                          && (forall j :: i < j < |users| ==> users[j].name == CORE)
  {
    if users != [] {
      var rest := users[1..];
      OtherUserExactly(rest);
      assert forall i :: 0 <= i < |rest| ==> rest[i] == users[i + 1];
      if OtherUser(rest).Some? {
        var i :| 0 <= i < |rest| && rest[i] == OtherUser(rest).value && rest[i].name != CORE
                 && (forall j :: i < j < |rest| ==> rest[j].name == CORE);
        assert users[i + 1] == OtherUser(users).value;
        assert forall j :: i + 1 < j < |users| ==> users[j] == rest[j - 1];
      } else {
        assert forall i :: 0 < i < |users| ==> users[i] == rest[i - 1];
      }
    }
  }

  lemma {:induction false} KeysOfAll(users: seq<User>)
    ensures forall k :: k in KeysBackwards(users) <==> exists i :: 0 <= i < |users| && k in users[i].sshAuthorizedKeys
  {
    if users != [] {
      var rest := users[1..];
      KeysOfAll(rest);
      forall k
        ensures k in KeysBackwards(users) <==> exists i :: 0 <= i < |users| && k in users[i].sshAuthorizedKeys
      {
        if k in KeysBackwards(rest) {
          var i :| 0 <= i < |rest| && k in rest[i].sshAuthorizedKeys;
          assert k in users[i + 1].sshAuthorizedKeys;
        }
        if i :| 0 <= i < |users| && k in users[i].sshAuthorizedKeys {
          if i > 0 {
            assert k in rest[i - 1].sshAuthorizedKeys;
          }
        }
      }
    }
  }

  /** Keys of later users come before those of earlier ones, each user's in its own order. */
  lemma {:induction false} KeysOfConcat(a: seq<User>, b: seq<User>)
    ensures KeysBackwards(a + b) == KeysBackwards(b) + KeysBackwards(a)
    ensures forall u :: KeysBackwards([u]) == u.sshAuthorizedKeys
  {
    forall u: User ensures KeysBackwards([u]) == u.sshAuthorizedKeys {
      assert [u][1..] == [];
      assert [] + u.sshAuthorizedKeys == u.sshAuthorizedKeys;
    }
    if a == [] {
      assert a + b == b;
    } else {
      KeysOfConcat(a[1..], b);
      assert (a + b)[1..] == a[1..] + b;
      Associative(KeysBackwards(b), KeysBackwards(a[1..]), a[0].sshAuthorizedKeys);
    }
  }

  /** Merging users fails exactly when one of them is not core. Otherwise it leaves the last user,
      with distinct keys that are the keys of all of them; no user stays no user. */
  lemma {:induction false} MergedUsersExactly(users: seq<User>)
    ensures MergedUsers(users).Ok? <==> forall i :: 0 <= i < |users| ==> users[i].name == CORE
    ensures MergedUsers(users).Ok? && users != [] ==>
              var out := MergedUsers(users).value;
              && |out| == 1
              && out[0].name == CORE && out[0].rest == users[|users| - 1].rest
              && out[0].sshAuthorizedKeys == FirstOnly(KeysBackwards(users))
              && Distinct(out[0].sshAuthorizedKeys)
              && forall k :: k in out[0].sshAuthorizedKeys <==>
                   exists i :: 0 <= i < |users| && k in users[i].sshAuthorizedKeys
  {
    OtherUserExactly(users);
    KeysOfAll(users);
    FirstOnlyKeepsNames(KeysBackwards(users));
  }

  // ---------- the whole configuration ----------

  /** The result and, if the users could not be merged, the name of the unexpected one beside the
      configuration as it was. */
  function Deduplicated(c: Config): (r: (Config, Option<string>)) {
    match MergedUsers(c.users)
    case Err(name) => (c, Some(name))
    case Ok(users) =>
      (c.(files := DuplicateFiles.KeepLast(c.files), units := DuplicateUnits.KeepLast(c.units), users := users), None)
  }

  method RemoveIgnDuplicateFilesUnitsUsers(ignConfig: Config) returns (config: Config, err: Option<string>)
    ensures (config, err) == Deduplicated(ignConfig)
  {
    var outFiles := DuplicateFiles.RemoveDuplicateFiles(ignConfig.files);
    var outUnits := DuplicateUnits.RemoveDuplicateUnits(ignConfig.units);
    var users := MergeUsers(ignConfig.users);
    if users.Err? {
      return ignConfig, Some(users.error);
    }
    config := ignConfig.(users := users.value);
    config := config.(files := outFiles);
    config := config.(units := outUnits);
    err := None;
  }

  /** The name is that of the last user that is not core. */
  ghost predicate LastOther(users: seq<User>, name: string) {
    exists i :: 0 <= i < |users| && users[i].name == name != "core" && forall j :: i < j < |users| ==> users[j].name == "core"
  }

  /** One core user takes the place of the last, with the first of every key, the keys of later users
      before those of earlier ones; no user stays no user. */
  ghost predicate UsersMerged(users: seq<User>, out: seq<User>) {
    if users == [] then out == []
    else
      && |out| == 1 && out[0].name == "core" && out[0].rest == users[|users| - 1].rest
      && out[0].sshAuthorizedKeys == FirstOnly(KeysBackwards(users))
  }

  lemma {:induction false} UsersExactly(users: seq<User>)
    ensures MergedUsers(users).Ok? ==> UsersMerged(users, MergedUsers(users).value)
    ensures MergedUsers(users).Err? ==> LastOther(users, MergedUsers(users).error)
  {
    MergedUsersExactly(users);
    OtherUserExactly(users);
  }

  /** The removal fails exactly when some user is not core; then it names the last such user and changes
      nothing. Otherwise files become the last of each path in reverse order, which is the same set of
      effective files; units become one for each name, the last of it with the new drop-ins of the
      earlier ones, later names first; users become one; and nothing else changes. */
  lemma {:induction false} DeduplicatedExactly(c: Config)
    ensures var (out, err) := Deduplicated(c);
            && (err.None? <==> forall i :: 0 <= i < |c.users| ==> c.users[i].name == "core")
            && (err.Some? ==> out == c && LastOther(c.users, err.value))
            && (err.None? ==>
                  && out.rest == c.rest
                  && DuplicateFiles.Replay(out.files) == DuplicateFiles.Replay(c.files)
                  && out.files == DuplicateFiles.LastBackwards(c.files, |c.files|)
                  && DuplicateUnits.UnitNames(out.units) == DuplicateUnits.UnitNames(c.units)
                  && DuplicateUnits.DistinctNames(out.units)
                  && DuplicateUnits.MergedUnits(c.units, out.units)
                  && DuplicateUnits.LatestFirst(c.units, out.units)
                  && UsersMerged(c.users, out.users))
  {
    MergedUsersExactly(c.users);
    UsersExactly(c.users);
    DuplicateFiles.ReplayUnchanged(c.files);
    DuplicateFiles.KeepLastExactly(c.files);
    DuplicateUnits.KeepLastExactly(c.units);
  }

  lemma {:induction false} MergedUsersAgain(users: seq<User>)
    requires MergedUsers(users).Ok?
    ensures MergedUsers(MergedUsers(users).value) == MergedUsers(users)
  {
    MergedUsersExactly(users);
    if users != [] {
      var u := MergedUsers(users).value[0];
      assert MergedUsers(users).value == [u];
      assert [u][1..] == [];
      assert OtherUser([u]) == None;
      assert KeysBackwards([u]) == KeysBackwards([u][1..]) + u.sshAuthorizedKeys == u.sshAuthorizedKeys;
      FirstOnlyOfDistinct(u.sshAuthorizedKeys);
    }
  }

  /** On every configuration it accepts, doing it three times is doing it once; doing it twice
      lists the surviving files and units in input order instead of reverse order. */
  lemma {:induction false} DeduplicatedThrice(c: Config)
    requires Deduplicated(c).1.None?
    ensures var (once, _) := Deduplicated(c);
            var (twice, e2) := Deduplicated(once);
            var (thrice, e3) := Deduplicated(twice);
            && e2.None? && e3.None? && thrice == once
            && twice == once.(files := Reverse(once.files), units := Reverse(once.units))
            && twice.files == DuplicateFiles.LastForwards(c.files, |c.files|)
  {
    var once := Deduplicated(c).0;
    MergedUsersAgain(c.users);
    DuplicateFiles.FilesAgain(c.files);
    DuplicateFiles.KeepLastPaths(c.files);
    DuplicateFiles.KeepLastOfDistinct(once.files);
    DuplicateUnits.UnitsAgain(c.units);
    DuplicateUnits.KeepLastNames(c.units);
    DuplicateUnits.KeepLastOfDistinct(once.units);
  }

  /** All files have one path and all units one name. */
  predicate SingleNamed(c: Config) {
    && (forall i, j :: 0 <= i < |c.files| && 0 <= j < |c.files| ==> c.files[i].path == c.files[j].path)
    && (forall i, j :: 0 <= i < |c.units| && 0 <= j < |c.units| ==> c.units[i].name == c.units[j].name)
  }

  lemma {:induction false} OneFileLeft(files: seq<DuplicateFiles.File>)
    ensures |DuplicateFiles.KeepLast(files)| <= 1 <==>
              forall i, j :: 0 <= i < |files| && 0 <= j < |files| ==> files[i].path == files[j].path
  {
    var out := DuplicateFiles.KeepLast(files);
    DuplicateFiles.KeepLastPaths(files);
    assert forall i :: 0 <= i < |files| ==> files[i].path in DuplicateFiles.Paths(files);
    assert forall k :: 0 <= k < |out| ==> out[k].path in DuplicateFiles.Paths(out);
    if |out| > 1 {
      assert out[0].path != out[1].path;
    }
  }

  lemma {:induction false} OneUnitLeft(units: seq<DuplicateUnits.Unit>)
    ensures |DuplicateUnits.KeepLast(units)| <= 1 <==>
              forall i, j :: 0 <= i < |units| && 0 <= j < |units| ==> units[i].name == units[j].name
  {
    var out := DuplicateUnits.KeepLast(units);
    DuplicateUnits.KeepLastNames(units);
    assert forall i :: 0 <= i < |units| ==> units[i].name in DuplicateUnits.UnitNames(units);
    assert forall k :: 0 <= k < |out| ==> out[k].name in DuplicateUnits.UnitNames(out);
    if |out| > 1 {
      assert out[0].name != out[1].name;
    }
  }

  lemma {:induction false} ReversedSame(c: Config)
    requires Distinct(c.files) && Distinct(c.units)
    ensures c.(files := Reverse(c.files), units := Reverse(c.units)) == c <==> |c.files| <= 1 && |c.units| <= 1
  {
    ReverseSame(c.files);
    ReverseSame(c.units);
  }

  lemma {:induction false} OneOfEachLeft(c: Config)
    requires Deduplicated(c).1.None?
    ensures var once := Deduplicated(c).0;
            |once.files| <= 1 && |once.units| <= 1 <==> SingleNamed(c)
  {
    OneFileLeft(c.files);
    OneUnitLeft(c.units);
  }

  lemma {:induction false} OnceDistinct(c: Config)
    requires Deduplicated(c).1.None?
    ensures var once := Deduplicated(c).0;
            Distinct(once.files) && Distinct(once.units)
  {
    DuplicateFiles.KeepLastPaths(c.files);
    DuplicateUnits.KeepLastNames(c.units);
  }

  /** On an accepted configuration a second removal changes nothing if and only if at most one file
      and one unit are left, that is if all files have one path and all units one name. */
  lemma {:induction false} TwiceIsOnceExactly(c: Config)
    requires Deduplicated(c).1.None?
    ensures var once := Deduplicated(c).0;
            && (Deduplicated(once).0 == once <==> |once.files| <= 1 && |once.units| <= 1)
            && (Deduplicated(once).0 == once <==> SingleNamed(c))
  {
    DeduplicatedThrice(c);
    OnceDistinct(c);
    ReversedSame(Deduplicated(c).0);
    OneOfEachLeft(c);
  }

  lemma {:induction false} TwoFiles(a: DuplicateFiles.File, b: DuplicateFiles.File)
    requires a.path != b.path
    ensures DuplicateFiles.KeepLast([a, b]) == [b, a]
  {
    DuplicateFiles.KeepLastOfDistinct([a, b]);
    assert [a, b][1..] == [b] && [b][1..] == [];
    assert [b] + [a] == [b, a] && Reverse([b]) == [b];
  }

  /** Two files with different paths: every removal turns them round. */
  lemma {:induction false} SecondRemovalReverses(a: DuplicateFiles.File, b: DuplicateFiles.File)
    requires a.path != b.path
    ensures var c, once := Config([a, b], [], [], ""), Config([b, a], [], [], "");
            Deduplicated(c) == (once, None) && Deduplicated(once) == (c, None) && c != once
  {
    TwoFiles(a, b);
    TwoFiles(b, a);
    assert [a, b][0] != [b, a][0];
  }
}
