/** First and last occurrences in sequences of names: what the backward and forward scans keep. */
module Occurrences {
  import opened Sorting

  lemma {:induction false} Associative<T>(a: seq<T>, b: seq<T>, c: seq<T>)
    ensures a + (b + c) == (a + b) + c
  {
  }

  function Reverse<T>(s: seq<T>): (r: seq<T>)
    ensures |r| == |s|
  {
    if s == [] then [] else Reverse(s[1..]) + [s[0]]
  }

  lemma {:induction false} ReverseAppend<T>(a: seq<T>, b: seq<T>)
    ensures Reverse(a + b) == Reverse(b) + Reverse(a)
  {
    if a == [] {
      assert a + b == b;
    } else {
      ReverseAppend(a[1..], b);
      assert (a + b)[1..] == a[1..] + b;
    }
  }

  lemma {:induction false} ReverseTwice<T>(s: seq<T>)
    ensures Reverse(Reverse(s)) == s
  {
    if s != [] {
      ReverseTwice(s[1..]);
      ReverseAppend(Reverse(s[1..]), [s[0]]);
      assert Reverse([s[0]]) == [s[0]];
      assert s == [s[0]] + s[1..];
    }
  }

  /** What stands at `k` from the front stands at `k` from the back of the reverse. */
  lemma {:induction false} ReversePlace<T>(s: seq<T>, k: nat)
    requires k < |s|
    ensures Reverse(s)[|s| - 1 - k] == s[k]
  {
    assert s == s[..k] + ([s[k]] + s[k + 1..]);
    ReverseAppend(s[..k], [s[k]] + s[k + 1..]);
    ReverseAppend([s[k]], s[k + 1..]);
    assert Reverse([s[k]]) == [s[k]];
  }

  lemma {:induction false} ReverseShort<T>(s: seq<T>)
    requires |s| <= 1
    ensures Reverse(s) == s
  {
    if s != [] {
      assert s[1..] == [];
    }
  }

  /** Only the empty sequence and singletons of distinct elements read the same backwards. */
  lemma {:induction false} ReverseSame<T>(s: seq<T>)
    requires Distinct(s)
    ensures Reverse(s) == s <==> |s| <= 1
  {
    if |s| > 1 {
      ReversePlace(s, 0);
      assert s[0] != s[|s| - 1];
    } else {
      ReverseShort(s);
    }
  }

  /** Every name once, at its first occurrence. */
  function FirstOnly(names: seq<string>): (r: seq<string>) {
    if names == [] then []
    else
      var n := |names| - 1;
      FirstOnly(names[..n]) + (if names[n] in names[..n] then [] else [names[n]])
  }

  lemma {:induction false} FirstOnlyKeepsNames(names: seq<string>)
    ensures Distinct(FirstOnly(names))
    ensures forall x :: x in FirstOnly(names) <==> x in names
  {
    if names != [] {
      var n := |names| - 1;
      FirstOnlyKeepsNames(names[..n]);
      assert names == names[..n] + [names[n]];
    }
  }

  /** The names come in their original order, each from where it occurs first. */
  lemma {:induction false} FirstOnlyInOrder(names: seq<string>) returns (at: seq<nat>)
    ensures |at| == |FirstOnly(names)|
    ensures forall i :: 0 <= i < |at| ==>
              at[i] < |names| && FirstOnly(names)[i] == names[at[i]] && names[at[i]] !in names[..at[i]]
    ensures forall i, j :: 0 <= i < j < |at| ==> at[i] < at[j]
  {
    if names == [] {
      at := [];
    } else {
      var n := |names| - 1;
      at := FirstOnlyInOrder(names[..n]);
      forall i | 0 <= i < |at| ensures names[at[i]] !in names[..at[i]] {
        assert names[..n][..at[i]] == names[..at[i]];
      }
      if names[n] !in names[..n] {
        at := at + [n];
      }
    }
  }

  /** Distinct names are left as they are: a second pass changes nothing. */
  lemma {:induction false} FirstOnlyOfDistinct(names: seq<string>)
    requires Distinct(names)
    ensures FirstOnly(names) == names
  {
    if names != [] {
      var n := |names| - 1;
      FirstOnlyOfDistinct(names[..n]);
      assert names == names[..n] + [names[n]];
    }
  }
}
