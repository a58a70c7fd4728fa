/** Removing files that share a path: the last one listed wins. */
module DuplicateFiles {
  import opened Occurrences

  /** A file of a version 2 configuration; everything but its path is in `rest`. */
  datatype File = File(path: string, rest: string)

  function Paths(files: seq<File>): (r: set<string>) {
    set f | f in files :: f.path
  }

  /** What the backward scan has put out when it has seen all of `files`. */
  function KeepLast(files: seq<File>): (r: seq<File>) {
    if files == [] then []
    else
      var later := KeepLast(files[1..]);
      if files[0].path in Paths(later) then later else later + [files[0]]
  }

  method RemoveDuplicateFiles(files: seq<File>) returns (outFiles: seq<File>)
    ensures outFiles == KeepLast(files)
  {
    var filePathMap: set<string> := {};
    outFiles := [];
    for i := |files| downto 0
      invariant outFiles == KeepLast(files[i..]) && filePathMap == Paths(outFiles)
    {
      assert files[i..][1..] == files[i + 1..];
      if files[i].path !in filePathMap {
        outFiles := outFiles + [files[i]];
        filePathMap := filePathMap + {files[i].path};
      }
    }
    assert files[0..] == files;
  }

  // ---------- which files, in which order ----------

  predicate IsLast(files: seq<File>, i: nat)
    requires i < |files|
  {
    forall j :: i < j < |files| ==> files[j].path != files[i].path
  }

  /** The `i`-th file if it is the last of its path, and nothing otherwise. */
  function LastAt(files: seq<File>, i: nat): (fs: seq<File>)
    requires i < |files|
    ensures |fs| <= 1
  {
    if IsLast(files, i) then [files[i]] else []
  }

  /** The last occurrences among the first `n` files, in reverse input order. */
  function LastBackwards(files: seq<File>, n: nat): (fs: seq<File>)
    requires n <= |files|
  {
    if n == 0 then [] else LastAt(files, n - 1) + LastBackwards(files, n - 1)
  }

  /** The same in input order. */
  function LastForwards(files: seq<File>, n: nat): (fs: seq<File>)
    requires n <= |files|
  {
    if n == 0 then [] else LastForwards(files, n - 1) + LastAt(files, n - 1)
  }

  lemma {:induction false} KeepLastPaths(files: seq<File>)
    ensures Paths(KeepLast(files)) == Paths(files)
    ensures forall i, j :: 0 <= i < j < |KeepLast(files)| ==> KeepLast(files)[i].path != KeepLast(files)[j].path
  {
    if files != [] {
      KeepLastPaths(files[1..]);
      var later := KeepLast(files[1..]);
      assert files == [files[0]] + files[1..];
      assert Paths(files) == {files[0].path} + Paths(files[1..]);
      assert Paths(later + [files[0]]) == Paths(later) + {files[0].path};
      forall i | 0 <= i < |later| ensures later[i].path in Paths(later) {
        assert later[i] in later;
      }
    }
  }

  lemma {:induction false} IsLastExactly(files: seq<File>, i: nat)
    requires i < |files|
    ensures IsLast(files, i) <==> files[i].path !in Paths(files[i + 1..])
  {
    var later := files[i + 1..];
    assert forall j :: i < j < |files| ==> later[j - i - 1] == files[j] && files[j] in later;
  }

  /** One more file in front adds itself behind the output if it is the last of its path. */
  lemma {:induction false} KeepLastFront(files: seq<File>, i: nat)
    requires i < |files|
    ensures KeepLast(files[i..]) == KeepLast(files[i + 1..]) + LastAt(files, i)
  {
    var later := KeepLast(files[i + 1..]);
    assert files[i..][0] == files[i] && files[i..][1..] == files[i + 1..];
    KeepLastPaths(files[i + 1..]);
    IsLastExactly(files, i);
    assert later + [] == later;
  }

  lemma {:induction false} SuffixIsBackwards(files: seq<File>, i: nat)
    requires i <= |files|
    ensures LastBackwards(files, |files|) == KeepLast(files[i..]) + LastBackwards(files, i)
    decreases |files| - i
  {
    if i < |files| {
      SuffixIsBackwards(files, i + 1);
      KeepLastFront(files, i);
      Associative(KeepLast(files[i + 1..]), LastAt(files, i), LastBackwards(files, i));
    } else {
      var all := LastBackwards(files, i);
      assert files[i..] == [] && [] + all == all;
    }
  }

  /** The output is exactly the last occurrence of each path, in reverse input order. */
  lemma {:induction false} KeepLastExactly(files: seq<File>)
    ensures KeepLast(files) == LastBackwards(files, |files|)
  {
    SuffixIsBackwards(files, 0);
    assert files[0..] == files;
  }

  // ---------- meaning ----------

  /** Writing the files one after the other. */
  function Replay(files: seq<File>): (r: map<string, File>) {
    if files == [] then map[]
    else
      var n := |files| - 1;
      Replay(files[..n])[files[n].path := files[n]]
  }

  lemma {:induction false} ReplayFirst(f: File, files: seq<File>)
    ensures Replay([f] + files) == map[f.path := f] + Replay(files)
  {
    var all := [f] + files;
    if files == [] {
      assert all[..0] == [];
    } else {
      var n := |files| - 1;
      assert all[..n + 1] == [f] + files[..n];
      ReplayFirst(f, files[..n]);
    }
  }

  lemma {:induction false} ReplayLast(files: seq<File>, f: File)
    ensures Replay(files + [f]) == Replay(files)[f.path := f]
  {
  }

  lemma {:induction false} ReplayDomain(files: seq<File>)
    ensures Replay(files).Keys == Paths(files)
  {
    if files != [] {
      var n := |files| - 1;
      ReplayDomain(files[..n]);
      assert files == files[..n] + [files[n]];
    }
  }

  lemma {:induction false} Prepended(m: map<string, File>, f: File)
    ensures map[f.path := f] + m == if f.path in m then m else m[f.path := f]
  {
  }

  /** Writing the output files leaves the same content at every path as writing the input files. */
  lemma {:induction false} ReplayUnchanged(files: seq<File>)
    ensures Replay(KeepLast(files)) == Replay(files)
  {
    if files != [] {
      var f, rest := files[0], files[1..];
      ReplayUnchanged(rest);
      assert files == [f] + rest;
      ReplayFirst(f, rest);
      ReplayDomain(rest);
      KeepLastPaths(rest);
      ReplayLast(KeepLast(rest), f);
      Prepended(Replay(rest), f);
    }
  }

  // ---------- repeating the removal ----------

  lemma {:induction false} KeepLastOfDistinct(files: seq<File>)
    requires forall i, j :: 0 <= i < j < |files| ==> files[i].path != files[j].path
    ensures KeepLast(files) == Reverse(files)
  {
    if files != [] {
      KeepLastOfDistinct(files[1..]);
      KeepLastPaths(files[1..]);
      assert forall i :: 0 < i < |files| ==> files[0].path != files[i].path;
    }
  }

  lemma {:induction false} BackwardsReversed(files: seq<File>, n: nat)
    requires n <= |files|
    ensures Reverse(LastBackwards(files, n)) == LastForwards(files, n)
  {
    if n > 0 {
      BackwardsReversed(files, n - 1);
      ReverseAppend(LastAt(files, n - 1), LastBackwards(files, n - 1));
      ReverseShort(LastAt(files, n - 1));
    }
  }

  /** A second removal puts the survivors back in input order; a third one undoes that. */
  lemma {:induction false} FilesAgain(files: seq<File>)
    ensures KeepLast(KeepLast(files)) == LastForwards(files, |files|)
    ensures KeepLast(KeepLast(KeepLast(files))) == KeepLast(files)
  {
    var once := KeepLast(files);
    KeepLastPaths(files);
    KeepLastOfDistinct(once);
    KeepLastExactly(files);
    BackwardsReversed(files, |files|);
    KeepLastPaths(once);
    KeepLastOfDistinct(Reverse(once));
    ReverseTwice(once);
  }
}
