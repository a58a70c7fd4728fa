/** Parsing the label selector of a NodeSwap: "key:" or "key:value". */
module Selectors {
  import opened Wrappers

  datatype SelectorError = EmptySelector | NoColon(selector: string) | EmptyKey(selector: string)

  /** Unicode white space, as Go's string trimming knows it. */
  predicate IsSpace(c: char) {
    var n := c as int;
    || n in {0x20, 0x85, 0xA0, 0x1680, 0x2028, 0x2029, 0x202F, 0x205F, 0x3000}
    || 0x09 <= n <= 0x0D
    || 0x2000 <= n <= 0x200A
  }

  function TrimLeft(s: string): (r: string) {
    if s != [] && IsSpace(s[0]) then TrimLeft(s[1..]) else s
  }

  function TrimRight(s: string): (r: string) {
    if s != [] && IsSpace(s[|s| - 1]) then TrimRight(s[..|s| - 1]) else s
  }

  function TrimSpace(s: string): (r: string) {
    TrimRight(TrimLeft(s))
  }

  /** The position of the first colon, if there is one. */
  function FirstColon(s: string): (r: Option<nat>)
    ensures r.Some? ==> r.value < |s| && s[r.value] == ':' && ':' !in s[..r.value]
    ensures r.None? ==> ':' !in s
  {
    if s == [] then None
    else if s[0] == ':' then Some(0)
    else
      match FirstColon(s[1..])
      case None => None
      case Some(i) => assert s[..i + 1] == [s[0]] + s[1..][..i]; Some(i + 1)
  }

  function ParseLabelSelector(selector: string): (r: Result<(string, string), SelectorError>) {
    if selector == "" then Err(EmptySelector)
    else
      match FirstColon(selector)
      case None => Err(NoColon(selector))
      case Some(i) =>
        var key, value := TrimSpace(selector[..i]), TrimSpace(selector[i + 1..]);
        if key == "" then Err(EmptyKey(selector)) else Ok((key, value))
  }

  // ---------- trimming ----------

  predicate Blank(s: string) {
    forall c :: c in s ==> IsSpace(c)
  }

  /** No white space at either end. */
  predicate Trimmed(s: string) {
    s != [] ==> !IsSpace(s[0]) && !IsSpace(s[|s| - 1])
  }

  lemma {:induction false} TrimLeftMeaning(s: string) returns (a: nat)
    ensures a <= |s| && TrimLeft(s) == s[a..] && Blank(s[..a])
    ensures a < |s| ==> !IsSpace(s[a])
  {
    if s != [] && IsSpace(s[0]) {
      var b := TrimLeftMeaning(s[1..]);
      a := b + 1;
      assert s[..a] == [s[0]] + s[1..][..b];
    } else {
      a := 0;
    }
  }

  lemma {:induction false} TrimRightMeaning(s: string) returns (b: nat)
    ensures b <= |s| && TrimRight(s) == s[..b] && Blank(s[b..])
    ensures b > 0 ==> !IsSpace(s[b - 1])
  {
    if s != [] && IsSpace(s[|s| - 1]) {
      var init := s[..|s| - 1];
      b := TrimRightMeaning(init);
      assert s[b..] == init[b..] + [s[|s| - 1]];
    } else {
      b := |s|;
    }
  }

  /** Trimming takes off white space at both ends and nothing else. */
  lemma {:induction false} TrimSpaceMeaning(s: string) returns (a: nat, b: nat)
    ensures a <= b <= |s| && TrimSpace(s) == s[a..b]
    ensures Blank(s[..a]) && Blank(s[b..]) && Trimmed(TrimSpace(s))
  {
    a := TrimLeftMeaning(s);
    var n := TrimRightMeaning(s[a..]);
    b := a + n;
    assert s[a..][..n] == s[a..b] && s[a..][n..] == s[b..];
  }

  lemma {:induction false} TrimSpaceOfTrimmed(s: string)
    requires Trimmed(s)
    ensures TrimSpace(s) == s
  {
  }

  lemma {:induction false} SliceElement(s: string, a: nat, b: nat, i: nat)
    requires a + i < b <= |s|
    ensures s[a..b][i] == s[a + i] && s[a + i] in s[a..b] && s[a + i] in s
  {
  }

  lemma {:induction false} TrimSpaceBlank(s: string)
    ensures TrimSpace(s) == "" <==> Blank(s)
  {
    var a, b := TrimSpaceMeaning(s);
    assert s == s[..a] + s[a..b] + s[b..];
    if a < b {
      SliceElement(s, a, b, 0);
    }
  }

  // ---------- parsing ----------

  function Print(key: string, value: string): (r: string) {
    key + ":" + value
  }

  lemma {:induction false} FirstColonUnique(s: string, i: nat)
    requires i < |s| && s[i] == ':' && ':' !in s[..i]
    ensures FirstColon(s) == Some(i)
  {
  }

  /** Parsing undoes printing, for trimmed keys and values with a non-empty colon-free key. */
  lemma {:induction false} ParsePrinted(key: string, value: string)
    requires key != "" && ':' !in key && Trimmed(key) && Trimmed(value)
    ensures ParseLabelSelector(Print(key, value)) == Ok((key, value))
  {
    var s := Print(key, value);
    assert s[..|key|] == key && s[|key|] == ':' && s[|key| + 1..] == value;
    FirstColonUnique(s, |key|);
    TrimSpaceOfTrimmed(key);
    TrimSpaceOfTrimmed(value);
  }

  /** The selector is cut at its first colon, which stands at `i`. */
  ghost predicate CutAt(s: string, i: int) {
    0 <= i < |s| && s[i] == ':' && ':' !in s[..i]
  }

  lemma {:induction false} ParseCut(s: string, i: int)
    requires CutAt(s, i)
    ensures ParseLabelSelector(s) == if Blank(s[..i]) then Err(EmptyKey(s))
                                     else Ok((TrimSpace(s[..i]), TrimSpace(s[i + 1..])))
  {
    FirstColonUnique(s, i);
    TrimSpaceBlank(s[..i]);
  }

  lemma {:induction false} TrimSpaceKeepsOut(s: string, c: char)
    requires c !in s
    ensures c !in TrimSpace(s)
  {
    var a, b := TrimSpaceMeaning(s);
  }

  /** Parsing succeeds exactly when there is a colon and the part before the first one is not blank.
      Then key and value are the trimmed parts before and behind it, and the key is not empty and has
      no colon; otherwise the error says whether the selector is empty, has no colon, or has no key. */
  lemma {:induction false} ParseExactly(s: string)
    ensures ParseLabelSelector(s).Ok? <==> exists i :: CutAt(s, i) && !Blank(s[..i])
    ensures ParseLabelSelector(s).Ok? ==>
              var (key, value) := ParseLabelSelector(s).value;
              key != "" && ':' !in key && Trimmed(key) && Trimmed(value)
    ensures forall i :: CutAt(s, i) ==>
              ParseLabelSelector(s) == if Blank(s[..i]) then Err(EmptyKey(s))
                                       else Ok((TrimSpace(s[..i]), TrimSpace(s[i + 1..])))
    ensures ':' !in s ==> ParseLabelSelector(s) == Err(if s == "" then EmptySelector else NoColon(s))
  {
    if FirstColon(s).Some? {
      var i := FirstColon(s).value;
      assert CutAt(s, i);
      assert forall j :: CutAt(s, j) ==> j == i;
      ParseCut(s, i);
      TrimSpaceBlank(s[..i]);
      TrimSpaceKeepsOut(s[..i], ':');
      var a, b := TrimSpaceMeaning(s[..i]);
      var c, d := TrimSpaceMeaning(s[i + 1..]);
    }
  }

  /** Printing and parsing again whatever was parsed gives the same pair. */
  lemma {:induction false} ParseAgain(s: string)
    requires ParseLabelSelector(s).Ok?
    ensures var (key, value) := ParseLabelSelector(s).value;
            ParseLabelSelector(Print(key, value)) == Ok((key, value))
  {
    ParseExactly(s);
    ParsePrinted(ParseLabelSelector(s).value.0, ParseLabelSelector(s).value.1);
  }
}
