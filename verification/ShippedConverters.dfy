/** The ten converters the program ships, and exactly which conversions they give. */
module ShippedConverters {
  import opened Wrappers
  import opened Versions
  import opened Converters
  import opened Registration
  import opened Conversion

  const V22 := Version(2, 2, 0)
  const V30 := Version(3, 0, 0)
  const V31 := Version(3, 1, 0)
  const V32 := Version(3, 2, 0)
  const V33 := Version(3, 3, 0)
  const V34 := Version(3, 4, 0)
  const V35 := Version(3, 5, 0)

  const STEPS: seq<Tuple> := [
    Tuple(V35, V34), Tuple(V34, V35), Tuple(V34, V33), Tuple(V33, V34), Tuple(V33, V32),
    Tuple(V32, V33), Tuple(V32, V31), Tuple(V32, V22), Tuple(V22, V32), Tuple(V30, V32)]

  /** The positions of the converters whose translators have no error to return. */
  const NO_ERROR: set<int> := {1, 3, 5, 9}

  function NoError(translate: string -> Translation): (r: string -> Translation) {
    body => Translation(translate(body).body, None)
  }

  /** The list for any translators and any naming of the configuration types. */
  function ConverterList(typeOf: Version -> GoType, translator: Tuple -> string -> Translation): (r: seq<Converter>) {
    seq(10, i requires 0 <= i < 10 =>
      Converter(STEPS[i], typeOf(STEPS[i].source), typeOf(STEPS[i].target),
                if i in NO_ERROR then NoError(translator(STEPS[i])) else translator(STEPS[i])))
  }

  /** Upwards to 3.2 and later from any earlier version but 3.1; downwards from 3.2 and later to
      any earlier version but 3.0. */
  ghost predicate Supports(k: Tuple) {
    || (k.source in {V22, V30, V32, V33, V34} && k.target in {V32, V33, V34, V35} && Less(k.source, k.target))
    || (k.source in {V35, V34, V33, V32} && k.target in {V34, V33, V32, V31, V22} && Less(k.target, k.source))
  }

  lemma {:induction false} StepSupported(i: nat)
    requires i < 10
    ensures Supports(STEPS[i])
  {
  }

  lemma {:induction false} SupportExtends(s: Version, i: nat)
    requires i < 10 && Supports(Tuple(s, STEPS[i].source)) && Tuple(s, STEPS[i].source).IsUp() == STEPS[i].IsUp()
    ensures Supports(Tuple(s, STEPS[i].target))
  {
  }

  lemma {:induction false} ChainSupported(typeOf: Version -> GoType, translator: Tuple -> string -> Translation,
                                          chain: seq<Converter>, s: Version, t: Version, up: bool)
    requires Leads(ConverterList(typeOf, translator), chain, s, t, up)
    ensures Supports(Tuple(s, t))
    decreases |chain|
  {
    var list := ConverterList(typeOf, translator);
    var c := chain[|chain| - 1];
    assert c in list;
    var i :| 0 <= i < 10 && list[i] == c;
    StepSupported(i);
    assert c.tuple == STEPS[i];
    if |chain| > 1 {
      LeadsPrefix(list, chain, s, t, up);
      ChainSupported(typeOf, translator, chain[..|chain| - 1], s, c.tuple.source, up);
      LeadsDirection(list, chain[..|chain| - 1], s, c.tuple.source, up);
      SupportExtends(s, i);
    } else {
      assert c.tuple == Tuple(s, t);
    }
  }

  lemma {:induction false} StepRegistered(typeOf: Version -> GoType, translator: Tuple -> string -> Translation, i: nat)
    requires i < 10
    ensures STEPS[i] in Registered(ConverterList(typeOf, translator))
  {
    var list := ConverterList(typeOf, translator);
    assert list[i] in list;
    assert Leads(list, [list[i]], STEPS[i].source, STEPS[i].target, STEPS[i].IsUp());
    RegisteredExactly(list, STEPS[i]);
  }

  lemma {:induction false} StepExtends(typeOf: Version -> GoType, translator: Tuple -> string -> Translation,
                                       s: Version, i: nat)
    requires i < 10 && Tuple(s, STEPS[i].source).IsUp() == STEPS[i].IsUp()
    ensures var m := Registered(ConverterList(typeOf, translator));
            Tuple(s, STEPS[i].source) in m ==> Tuple(s, STEPS[i].target) in m
  {
    var list := ConverterList(typeOf, translator);
    assert list[i] in list;
    RegisteredExtends(list, s, list[i]);
  }

  lemma {:induction false} UpRegistered(typeOf: Version -> GoType, translator: Tuple -> string -> Translation, k: Tuple)
    requires Supports(k) && k.IsUp()
    ensures k in Registered(ConverterList(typeOf, translator))
    decreases k.target.minor
  {
    var i := if k.target == V35 then 1 else if k.target == V34 then 3 else if k.target == V33 then 5
             else if k.source == V22 then 8 else 9;
    if STEPS[i] == k {
      StepRegistered(typeOf, translator, i);
    } else {
      UpRegistered(typeOf, translator, Tuple(k.source, STEPS[i].source));
      StepExtends(typeOf, translator, k.source, i);
    }
  }

  lemma {:induction false} DownRegistered(typeOf: Version -> GoType, translator: Tuple -> string -> Translation, k: Tuple)
    requires Supports(k) && !k.IsUp()
    ensures k in Registered(ConverterList(typeOf, translator))
    decreases 10 * (k.source.major - k.target.major) + k.source.minor - k.target.minor
  {
    var i := if k.target == V34 then 0 else if k.target == V33 then 2 else if k.target == V32 then 4
             else if k.target == V31 then 6 else 7;
    if STEPS[i] == k {
      StepRegistered(typeOf, translator, i);
    } else {
      DownRegistered(typeOf, translator, Tuple(k.source, STEPS[i].source));
      StepExtends(typeOf, translator, k.source, i);
    }
  }

  /** The shipped converter supports these conversions and no others: 2.2 and 3.0 reach 3.5, but
      nothing reaches 3.0, nothing leaves 3.1, and 2.2 does not reach 3.1. */
  lemma {:induction false} ShippedExactly(typeOf: Version -> GoType, translator: Tuple -> string -> Translation, k: Tuple)
    ensures k in Registered(ConverterList(typeOf, translator)) <==> Supports(k)
  {
    var list := ConverterList(typeOf, translator);
    if k in Registered(list) {
      RegisteredExactly(list, k);
      var chain, up :| Leads(list, chain, k.source, k.target, up);
      ChainSupported(typeOf, translator, chain, k.source, k.target, up);
    }
    if Supports(k) {
      if k.IsUp() {
        UpRegistered(typeOf, translator, k);
      } else {
        DownRegistered(typeOf, translator, k);
      }
    }
  }

  /** Every shipped conversion fails only where a translator fails. */
  lemma {:induction false} ShippedConversionsAreTypeSafe(typeOf: Version -> GoType,
                                                         translator: Tuple -> string -> Translation,
                                      k: Tuple, body: string)
    requires Supports(k)
    ensures var o := ConvertWith(Registered(ConverterList(typeOf, translator)), Config(typeOf(k.source), body),
                                 k.source, k.target);
            if o.err.None? then o.value.Config? && o.value.goType == typeOf(k.target)
            else o.err.value.TranslationFailed?
  {
    var list := ConverterList(typeOf, translator);
    ShippedExactly(typeOf, translator, k);
    ConvertIsTypeSafe(list, typeOf, k.source, k.target, body);
    RegisteredExactly(list, k);
  }

  lemma {:induction false} TranslatorAt(typeOf: Version -> GoType, translator: Tuple -> string -> Translation,
                                        i: nat, body: string)
    requires i < 10
    ensures var c := ConverterList(typeOf, translator)[i];
            && c.tuple == STEPS[i] && c.translate(body).body == translator(STEPS[i])(body).body
            && c.translate(body).failure == if i in NO_ERROR then None else translator(STEPS[i])(body).failure
  {
  }

  lemma {:induction false} NoErrorExactly(i: nat)
    requires i < 10
    ensures i in NO_ERROR <==> STEPS[i].source != V22 && STEPS[i].IsUp()
  {
  }

  /** A shipped converter makes of a body what the translator of its own versions makes of it, and fails
      where that one does unless it goes up from 3.0 or later. */
  lemma {:induction false} ShippedTranslators(typeOf: Version -> GoType, translator: Tuple -> string -> Translation,
                                              c: Converter, body: string)
    requires c in ConverterList(typeOf, translator)
    ensures c.tuple in STEPS && c.translate(body).body == translator(c.tuple)(body).body
    ensures c.translate(body).failure
         == if c.tuple.source != V22 && c.tuple.IsUp() then None else translator(c.tuple)(body).failure
  {
    var list := ConverterList(typeOf, translator);
    var i :| 0 <= i < 10 && list[i] == c;
    TranslatorAt(typeOf, translator, i, body);
    NoErrorExactly(i);
  }

  lemma {:induction false} UpwardsWithoutV22(typeOf: Version -> GoType, translator: Tuple -> string -> Translation,
                                             chain: seq<Converter>, s: Version, t: Version, i: nat)
    requires Leads(ConverterList(typeOf, translator), chain, s, t, true) && i < |chain|
    requires s.major >= 3
    ensures chain[i].tuple.source != V22
  {
    if i > 0 {
      var list := ConverterList(typeOf, translator);
      var v := chain[i].tuple.source;
      assert chain[i - 1].tuple.target == v;
      assert Leads(list, chain[..i], s, v, true);
      LeadsDirection(list, chain[..i], s, v, true);
    }
  }

  /** A shipped conversion upwards from 3.0 or later never fails. */
  lemma {:induction false} UpwardsNeverFails(typeOf: Version -> GoType, translator: Tuple -> string -> Translation,
                                             k: Tuple, body: string)
    requires Supports(k) && k.IsUp() && k.source.major >= 3
    ensures var o := ConvertWith(Registered(ConverterList(typeOf, translator)), Config(typeOf(k.source), body),
                                 k.source, k.target);
            o.err.None? && o.value.Config? && o.value.goType == typeOf(k.target)
  {
    var list := ConverterList(typeOf, translator);
    var m := Registered(list);
    ShippedExactly(typeOf, translator, k);
    RegisteredIsTree(list);
    ChainLeads(list, m, k);
    forall i | 0 <= i < |m[k]| ensures Translates(m[k], body, i) {
      UpwardsWithoutV22(typeOf, translator, m[k], k.source, k.target, i);
      ShippedTranslators(typeOf, translator, m[k][i], BodyAfter(m[k], body, i));
    }
    ConversionExactly(list, typeOf, k, body);
  }
}
