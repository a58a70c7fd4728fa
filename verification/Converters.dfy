/** Single-step converters, and what running a chain of them does to a value. */
module Converters {
  import opened Wrappers
  import opened Versions

  /** The dynamic type of a value held in an `any`. */
  type GoType = string

  /** What an `any` holds: nil, or a configuration of one concrete type with its content. */
  datatype Value = Nil | Config(goType: GoType, body: string)

  datatype Error =
    | WrongSourceType(step: Tuple)
    | TranslationFailed(reason: string)
    | Unsupported(tuple: Tuple)

  /** Go's (any, error) pair: a value comes back beside an error too. */
  datatype Outcome = Outcome(value: Value, err: Option<Error>)

  datatype Translation = Translation(body: string, failure: Option<string>)

  /** A function converter between two concrete types; its translator is library code. */
  datatype Converter = Converter(
    tuple: Tuple, sourceType: GoType, targetType: GoType, translate: string -> Translation)
  {
    /** Runs the translator on a value of the source type; any other value, nil included,
        is answered with the zero value of the target type and the wrong-source-type error. */
    function Convert(source: Value): (r: Outcome) {
      if source.Config? && source.goType == sourceType then
        var t := translate(source.body);
        Outcome(Config(targetType, t.body),
                if t.failure.None? then None else Some(TranslationFailed(t.failure.value)))
      else
        Outcome(Config(targetType, ""), Some(WrongSourceType(tuple)))
    }
  }

  /** Runs a chain, leaving it at the first error. */
  function RunChain(chain: seq<Converter>, source: Value): (r: Outcome) {
    if chain == [] then Outcome(source, None)
    else
      var sofar := RunChain(chain[..|chain| - 1], source);
      if sofar.err.Some? then sofar else chain[|chain| - 1].Convert(sofar.value)
  }

  lemma {:induction false} RunChainStep(chain: seq<Converter>, i: nat, source: Value)
    requires i < |chain| && RunChain(chain[..i], source).err.None?
    ensures RunChain(chain[..i + 1], source) == chain[i].Convert(RunChain(chain[..i], source).value)
  {
    assert chain[..i + 1][..i] == chain[..i];
  }

  /** An error that one part of a chain ends with is what the whole chain ends with. */
  lemma {:induction false} RunChainStops(chain: seq<Converter>, n: nat, source: Value)
    requires n <= |chain|
    requires RunChain(chain[..n], source).err.Some?
    ensures RunChain(chain, source) == RunChain(chain[..n], source)
  {
    if n == |chain| {
      assert chain[..n] == chain;
    } else {
      var init := chain[..|chain| - 1];
      assert init[..n] == chain[..n];
      RunChainStops(init, n, source);
    }
  }

  /** `stages` are the values a source passes through: each converter turned one into the next
      without an error. */
  ghost predicate Stages(chain: seq<Converter>, source: Value, stages: seq<Value>) {
    && 0 < |stages| <= |chain| + 1
    && stages[0] == source
    && forall i :: 0 <= i < |stages| - 1 ==> chain[i].Convert(stages[i]) == Outcome(stages[i + 1], None)
  }

  /** What running a chain means, step by step: either every converter succeeds and the last
      stage is the result, or the converters before some position succeed, the one at that
      position fails, and its outcome is the result. */
  ghost predicate RunsTo(chain: seq<Converter>, source: Value, stages: seq<Value>, o: Outcome) {
    && Stages(chain, source, stages)
    && var n := |stages| - 1;
       if n == |chain| then o == Outcome(stages[n], None)
       else o == chain[n].Convert(stages[n]) && o.err.Some?
  }

  lemma {:induction false} RunChainMeaning(chain: seq<Converter>, source: Value) returns (stages: seq<Value>)
    ensures RunsTo(chain, source, stages, RunChain(chain, source))
  {
    if chain == [] {
      stages := [source];
    } else {
      var init := chain[..|chain| - 1];
      stages := RunChainMeaning(init, source);
      if |stages| == |chain| {
        var o := chain[|chain| - 1].Convert(stages[|chain| - 1]);
        if o.err.None? {
          stages := stages + [o.value];
        }
      }
    }
  }

  /** The stages, and with them the outcome, are determined by the chain and the source. */
  lemma {:induction false} RunsToUnique(chain: seq<Converter>, source: Value,
                                        a: seq<Value>, oa: Outcome, b: seq<Value>, ob: Outcome)
    requires RunsTo(chain, source, a, oa)
    requires RunsTo(chain, source, b, ob)
    ensures a == b && oa == ob
  {
    StagesAgree(chain, source, a, b, |a| - 1);
    StagesAgree(chain, source, b, a, |b| - 1);
  }

  lemma {:induction false} StagesAgree(chain: seq<Converter>, source: Value,
                                       a: seq<Value>, b: seq<Value>, i: nat)
    requires Stages(chain, source, a) && i < |a|
    requires exists o :: RunsTo(chain, source, b, o)
    ensures i < |b|
    ensures a[..i + 1] == b[..i + 1]
  {
    if i > 0 {
      StagesAgree(chain, source, a, b, i - 1);
      assert a[i - 1] == a[..i][i - 1] == b[i - 1];
      assert chain[i - 1].Convert(a[i - 1]) == Outcome(a[i], None);
      if i < |b| {
        assert chain[i - 1].Convert(b[i - 1]) == Outcome(b[i], None);
      }
      assert a[..i + 1] == a[..i] + [a[i]];
    }
  }

  // ---------- the same, by the converters' translators ----------

  function BodyOf(v: Value): (body: string) {
    if v.Config? then v.body else ""
  }

  /** What comes to the `i`-th converter when no converter before it gives an error: the source, or what
      the translator before it makes, in that converter's target type. */
  function ValueAt(chain: seq<Converter>, source: Value, i: nat): (v: Value)
    requires i <= |chain|
  {
    if i == 0 then source
    else Config(chain[i - 1].targetType, chain[i - 1].translate(BodyOf(ValueAt(chain, source, i - 1))).body)
  }

  /** The value is of the type the converter is declared for. */
  predicate Takes(c: Converter, v: Value) {
    v.Config? && v.goType == c.sourceType
  }

  /** The `i`-th converter takes what comes to it, and its translator does not fail on it. */
  predicate Succeeds(chain: seq<Converter>, source: Value, i: nat)
    requires i < |chain|
  {
    var v := ValueAt(chain, source, i);
    Takes(chain[i], v) && chain[i].translate(BodyOf(v)).failure.None?
  }

  predicate FailsFirst(chain: seq<Converter>, source: Value, i: nat) {
    i < |chain| && !Succeeds(chain, source, i) && forall j :: 0 <= j < i ==> Succeeds(chain, source, j)
  }

  /** The outcome where the `i`-th converter is the first that does not succeed. */
  function FailureAt(chain: seq<Converter>, source: Value, i: nat): (o: Outcome)
    requires FailsFirst(chain, source, i)
  {
    var c, v := chain[i], ValueAt(chain, source, i);
    if !Takes(c, v) then Outcome(Config(c.targetType, ""), Some(WrongSourceType(c.tuple)))
    else
      var t := c.translate(BodyOf(v));
      Outcome(Config(c.targetType, t.body), Some(TranslationFailed(t.failure.value)))
  }

  lemma {:induction false} RunSucceeds(chain: seq<Converter>, source: Value, n: nat)
    requires n <= |chain| && forall i :: 0 <= i < n ==> Succeeds(chain, source, i)
    ensures RunChain(chain[..n], source) == Outcome(ValueAt(chain, source, n), None)
  {
    if n > 0 {
      RunSucceeds(chain, source, n - 1);
      assert Succeeds(chain, source, n - 1);
      RunChainStep(chain, n - 1, source);
    }
  }

  lemma {:induction false} RunFails(chain: seq<Converter>, source: Value, i: nat)
    requires FailsFirst(chain, source, i)
    ensures RunChain(chain, source) == FailureAt(chain, source, i)
  {
    RunSucceeds(chain, source, i);
    RunChainStep(chain, i, source);
    RunChainStops(chain, i + 1, source);
  }

  lemma {:induction false} FirstFailure(chain: seq<Converter>, source: Value, n: nat) returns (i: nat)
    requires n <= |chain|
    ensures i <= n && forall j :: 0 <= j < i ==> Succeeds(chain, source, j)
    ensures i < n ==> FailsFirst(chain, source, i)
  {
    i := 0;
    if n > 0 {
      i := FirstFailure(chain, source, n - 1);
      if i == n - 1 && Succeeds(chain, source, i) {
        i := n;
      }
    }
  }

  /** Running a chain succeeds if and only if every converter takes what comes to it and no translator
      fails; the result is then what the last translator makes. Otherwise the first that does not
      succeed decides: a value of another type gives the wrong-source-type error beside an empty target,
      and a failing translator its reason beside what it made. */
  lemma {:induction false} RunChainExactly(chain: seq<Converter>, source: Value)
    ensures RunChain(chain, source).err.None? <==> forall i :: 0 <= i < |chain| ==> Succeeds(chain, source, i)
    ensures RunChain(chain, source).err.None? ==> RunChain(chain, source).value == ValueAt(chain, source, |chain|)
    ensures forall i: nat :: FailsFirst(chain, source, i) ==> RunChain(chain, source) == FailureAt(chain, source, i)
  {
    var i := FirstFailure(chain, source, |chain|);
    RunSucceeds(chain, source, i);
    if i < |chain| {
      RunFails(chain, source, i);
      assert forall j: nat :: FailsFirst(chain, source, j) ==> j == i;
    } else {
      assert chain[..|chain|] == chain;
    }
  }
}
