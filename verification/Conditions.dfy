/** Status conditions of a NodeSwap, and how a reconcile sets them. */
module Conditions {
  import opened Wrappers
  import opened RenderConfigs
  import opened Selectors

  datatype Status = IsTrue | IsFalse | IsUnknown

  datatype ReconcileError =
    | RenderFailed(render: RenderError)
    | SelectorInvalid(selector: SelectorError)
    | ApiFailed(text: string)
    | TemplateFailed(text: string)

  datatype Message = Text(text: string) | FailedToReconcile(error: ReconcileError)

  datatype Condition = Condition(ctype: string, status: Status, reason: string, message: Message, transition: int)

  // The first name is spelled as the program spells it.
  const AVAILABLE := "Availabe"
  const PROGRESSING := "Progressing"
  const DEGRADED := "Degraded"

  /** The first condition of a type. */
  function Find(cs: seq<Condition>, ctype: string): (r: Option<Condition>) {
    if cs == [] then None
    else if cs[0].ctype == ctype then Some(cs[0])
    else Find(cs[1..], ctype)
  }

  /** What a condition is set to; its time is left to the setter. */
  datatype Setting = Setting(ctype: string, status: Status, reason: string, message: Message)

  /** Updates the first condition of the type in place, its transition time only when the status
      changes; appends one when there is none. */
  function SetStatusCondition(cs: seq<Condition>, s: Setting, now: int): (r: seq<Condition>) {
    if cs == [] then [Condition(s.ctype, s.status, s.reason, s.message, now)]
    else if cs[0].ctype == s.ctype then
      [Condition(s.ctype, s.status, s.reason, s.message, if cs[0].status == s.status then cs[0].transition else now)]
      + cs[1..]
    else [cs[0]] + SetStatusCondition(cs[1..], s, now)
  }

  function SetAll(cs: seq<Condition>, settings: seq<Setting>, now: int): (r: seq<Condition>)
    decreases |settings|
  {
    if settings == [] then cs
    else SetAll(SetStatusCondition(cs, settings[0], now), settings[1..], now)
  }

  function FailureSettings(err: ReconcileError): (r: seq<Setting>) {
    [Setting(DEGRADED, IsTrue, "ReconciliationFailed", FailedToReconcile(err)),
     Setting(PROGRESSING, IsFalse, "ReconciliationFailed", Text("Reconciliation failed")),
     Setting(AVAILABLE, IsFalse, "ReconciliationFailed", Text(""))]
  }

  const FIRST_SETTINGS: seq<Setting> :=
    [Setting(PROGRESSING, IsTrue, "Reconciling", Text("NodeSwap is reconciling"))]

  const SUCCESS_SETTINGS: seq<Setting> :=
    [Setting(AVAILABLE, IsTrue, "ReconciliationSucceeded", Text("NodeSwap successfully reconciled")),
     Setting(DEGRADED, IsFalse, "ReconciliationSucceeded", Text("")),
     Setting(PROGRESSING, IsFalse, "ReconciliationSucceeded", Text(""))]

  /** What a reconcile of the spec sets, given its error if it had one and the conditions so far. */
  function SettingsFor(cs: seq<Condition>, err: Option<ReconcileError>): (r: seq<Setting>) {
    if err.Some? then FailureSettings(err.value)
    else if cs == [] then FIRST_SETTINGS
    else SUCCESS_SETTINGS
  }

  function StatusAfter(cs: seq<Condition>, err: Option<ReconcileError>, now: int): (r: seq<Condition>) {
    SetAll(cs, SettingsFor(cs, err), now)
  }

  // ---------- setting one condition ----------

  ghost predicate UniqueTypes(cs: seq<Condition>) {
    forall i, j :: 0 <= i < j < |cs| ==> cs[i].ctype != cs[j].ctype
  }

  function Types(cs: seq<Condition>): (r: set<string>) {
    set c | c in cs :: c.ctype
  }

  ghost predicate Holds(cs: seq<Condition>, ctype: string, status: Status, reason: string) {
    var c := Find(cs, ctype);
    c.Some? && c.value.status == status && c.value.reason == reason
  }

  lemma {:induction false} FoundInTypes(cs: seq<Condition>, ctype: string)
    ensures Find(cs, ctype).Some? <==> ctype in Types(cs)
  {
    if cs != [] {
      FoundInTypes(cs[1..], ctype);
      assert cs == [cs[0]] + cs[1..];
    }
  }

  /** Setting a condition changes what is found of its type and of no other type, and adds no
      second condition of a type. */
  lemma {:induction false} SetChangesOnly(cs: seq<Condition>, s: Setting, now: int)
    ensures var r, before := SetStatusCondition(cs, s, now), Find(cs, s.ctype);
            && Find(r, s.ctype) == Some(Condition(s.ctype, s.status, s.reason, s.message,
                 if before.Some? && before.value.status == s.status then before.value.transition else now))
            && (forall t :: t != s.ctype ==> Find(r, t) == Find(cs, t))
            && Types(r) == Types(cs) + {s.ctype}
  {
    var r := SetStatusCondition(cs, s, now);
    if cs != [] {
      assert cs == [cs[0]] + cs[1..];
      if cs[0].ctype != s.ctype {
        var rest := SetStatusCondition(cs[1..], s, now);
        SetChangesOnly(cs[1..], s, now);
        assert r == [cs[0]] + rest && r[1..] == rest;
        assert Types(r) == {cs[0].ctype} + Types(rest);
      } else {
        assert r[1..] == cs[1..];
      }
    } else {
      assert r[1..] == [];
    }
  }

  /** A condition of the type keeps its place, the first of several; a new one comes last. Everything
      else stays where it is and as it is. */
  lemma {:induction false} SetInPlace(cs: seq<Condition>, s: Setting, now: int) returns (i: nat)
    ensures var r := SetStatusCondition(cs, s, now);
            && i < |r| && r[i].ctype == s.ctype && s.ctype !in Types(cs[..if i < |cs| then i else |cs|])
            && |r| == (if i < |cs| then |cs| else |cs| + 1) && i <= |cs|
            && (i < |cs| ==> cs[i].ctype == s.ctype)
            && forall j :: 0 <= j < |cs| && j != i ==> r[j] == cs[j]
  {
    if cs == [] || cs[0].ctype == s.ctype {
      i := 0;
    } else {
      var k := SetInPlace(cs[1..], s, now);
      i := k + 1;
      assert cs[..i] == [cs[0]] + cs[1..][..k];
      assert forall j :: 0 < j < |cs| ==> cs[j] == cs[1..][j - 1];
    }
  }

  lemma {:induction false} UniqueHead(cs: seq<Condition>)
    requires cs != []
    ensures UniqueTypes(cs) <==> UniqueTypes(cs[1..]) && cs[0].ctype !in Types(cs[1..])
  {
  }

  lemma {:induction false} SetKeepsUnique(cs: seq<Condition>, s: Setting, now: int)
    requires UniqueTypes(cs)
    ensures UniqueTypes(SetStatusCondition(cs, s, now))
  {
    if cs != [] {
      var r := SetStatusCondition(cs, s, now);
      UniqueHead(cs);
      UniqueHead(r);
      if cs[0].ctype != s.ctype {
        SetKeepsUnique(cs[1..], s, now);
        SetChangesOnly(cs[1..], s, now);
        assert r[1..] == SetStatusCondition(cs[1..], s, now);
      } else {
        assert r[1..] == cs[1..];
      }
    }
  }

  ghost predicate AlreadySet(cs: seq<Condition>, s: Setting) {
    var c := Find(cs, s.ctype);
    c.Some? && c.value.status == s.status && c.value.reason == s.reason && c.value.message == s.message
  }

  /** Setting what is there already changes nothing, not even the transition time. */
  lemma {:induction false} SetAgain(cs: seq<Condition>, s: Setting, now: int)
    requires AlreadySet(cs, s)
    ensures SetStatusCondition(cs, s, now) == cs
  {
    assert cs == [cs[0]] + cs[1..];
    if cs[0].ctype != s.ctype {
      SetAgain(cs[1..], s, now);
    }
  }

  // ---------- setting several ----------

  /** The condition holds what the setting says, with the time of the change if there was one. */
  ghost predicate IsSet(cs: seq<Condition>, r: seq<Condition>, s: Setting, now: int) {
    var before := Find(cs, s.ctype);
    Find(r, s.ctype) == Some(Condition(s.ctype, s.status, s.reason, s.message,
      if before.Some? && before.value.status == s.status then before.value.transition else now))
  }

  function SettingTypes(settings: seq<Setting>): (r: set<string>) {
    set s | s in settings :: s.ctype
  }

  ghost predicate DistinctSettings(settings: seq<Setting>) {
    forall i, j :: 0 <= i < j < |settings| ==> settings[i].ctype != settings[j].ctype
  }

  lemma {:induction false} SettingsTail(settings: seq<Setting>)
    requires settings != [] && DistinctSettings(settings)
    ensures DistinctSettings(settings[1..])
    ensures SettingTypes(settings) == {settings[0].ctype} + SettingTypes(settings[1..])
    ensures settings[0].ctype !in SettingTypes(settings[1..])
  {
  }

  lemma {:induction false} SetAllChangesOnly(cs: seq<Condition>, settings: seq<Setting>, now: int)
    requires DistinctSettings(settings)
    ensures var r := SetAll(cs, settings, now);
            && (forall i :: 0 <= i < |settings| ==> IsSet(cs, r, settings[i], now) && AlreadySet(r, settings[i]))
            && (forall t :: t !in SettingTypes(settings) ==> Find(r, t) == Find(cs, t))
            && Types(r) == Types(cs) + SettingTypes(settings)
            && (UniqueTypes(cs) ==> UniqueTypes(r))
    decreases |settings|
  {
    if settings != [] {
      var s, rest := settings[0], settings[1..];
      var c := SetStatusCondition(cs, s, now);
      SetChangesOnly(cs, s, now);
      if UniqueTypes(cs) {
        SetKeepsUnique(cs, s, now);
      }
      SettingsTail(settings);
      SetAllChangesOnly(c, rest, now);
      var r := SetAll(cs, settings, now);
      assert r == SetAll(c, rest, now);
      forall i | 0 <= i < |settings| ensures IsSet(cs, r, settings[i], now) && AlreadySet(r, settings[i]) {
        if i > 0 {
          assert IsSet(c, r, rest[i - 1], now);
        }
      }
    }
  }

  lemma {:induction false} SetAllAgain(cs: seq<Condition>, settings: seq<Setting>, now: int)
    requires forall i :: 0 <= i < |settings| ==> AlreadySet(cs, settings[i])
    ensures SetAll(cs, settings, now) == cs
    decreases |settings|
  {
    if settings != [] {
      SetAgain(cs, settings[0], now);
      SetAllAgain(cs, settings[1..], now);
    }
  }

  // ---------- the shapes a status can have ----------

  ghost predicate InProgress(cs: seq<Condition>) {
    Types(cs) == {PROGRESSING} && Holds(cs, PROGRESSING, IsTrue, "Reconciling")
  }

  ghost predicate Failed(cs: seq<Condition>) {
    && Types(cs) == {AVAILABLE, PROGRESSING, DEGRADED}
    && Holds(cs, DEGRADED, IsTrue, "ReconciliationFailed")
    && Holds(cs, PROGRESSING, IsFalse, "ReconciliationFailed")
    && Holds(cs, AVAILABLE, IsFalse, "ReconciliationFailed")
  }

  ghost predicate Succeeded(cs: seq<Condition>) {
    && Types(cs) == {AVAILABLE, PROGRESSING, DEGRADED}
    && Holds(cs, AVAILABLE, IsTrue, "ReconciliationSucceeded")
    && Holds(cs, DEGRADED, IsFalse, "ReconciliationSucceeded")
    && Holds(cs, PROGRESSING, IsFalse, "ReconciliationSucceeded")
  }

  /** Unique types, and nothing yet, in progress, failed or succeeded. */
  ghost predicate Shaped(cs: seq<Condition>) {
    UniqueTypes(cs) && (cs == [] || InProgress(cs) || Failed(cs) || Succeeded(cs))
  }

  lemma {:induction false} SettingsDistinct(cs: seq<Condition>, err: Option<ReconcileError>)
    ensures DistinctSettings(SettingsFor(cs, err))
    ensures SettingTypes(SettingsFor(cs, err))
         == if err.None? && cs == [] then {PROGRESSING} else {AVAILABLE, PROGRESSING, DEGRADED}
  {
    var settings := SettingsFor(cs, err);
    if err.None? && cs == [] {
      assert settings[0] in settings;
    } else {
      assert settings[0] in settings && settings[1] in settings && settings[2] in settings;
    }
  }

  /** What a reconcile makes of any conditions: an error gives the failed settings, a first success
      the in-progress one, a later success the succeeded ones. */
  lemma {:induction false} StatusAfterHolds(cs: seq<Condition>, err: Option<ReconcileError>, now: int)
    ensures var r, settings := StatusAfter(cs, err, now), SettingsFor(cs, err);
            && (forall i :: 0 <= i < |settings| ==> Holds(r, settings[i].ctype, settings[i].status, settings[i].reason))
            && Types(r) == Types(cs) + SettingTypes(settings)
            && (UniqueTypes(cs) ==> UniqueTypes(r))
            && r != []
  {
    var r, settings := StatusAfter(cs, err, now), SettingsFor(cs, err);
    SettingsDistinct(cs, err);
    SetAllChangesOnly(cs, settings, now);
    forall i | 0 <= i < |settings| ensures Holds(r, settings[i].ctype, settings[i].status, settings[i].reason) {
      assert AlreadySet(r, settings[i]);
    }
    assert AlreadySet(r, settings[0]);
  }

  lemma {:induction false} TypesOfShaped(cs: seq<Condition>)
    requires Shaped(cs)
    ensures Types(cs) <= {AVAILABLE, PROGRESSING, DEGRADED}
  {
  }

  /** A reconcile keeps a shaped status shaped. An error always leads to the failed shape; a success
      leads from nothing to in progress, and from everything else to the succeeded shape. */
  lemma {:induction false} StatusStaysShaped(cs: seq<Condition>, err: Option<ReconcileError>, now: int)
    requires Shaped(cs)
    ensures var r := StatusAfter(cs, err, now);
            && Shaped(r)
            && (err.Some? ==> Failed(r))
            && (err.None? ==> if cs == [] then InProgress(r) else Succeeded(r))
  {
    var r, settings := StatusAfter(cs, err, now), SettingsFor(cs, err);
    StatusAfterHolds(cs, err, now);
    SettingsDistinct(cs, err);
    TypesOfShaped(cs);
    assert Holds(r, settings[0].ctype, settings[0].status, settings[0].reason);
    if err.Some? || cs != [] {
      assert Holds(r, settings[1].ctype, settings[1].status, settings[1].reason);
      assert Holds(r, settings[2].ctype, settings[2].status, settings[2].reason);
    }
  }

  function StatusOf(cs: seq<Condition>, ctype: string): (r: Option<Status>) {
    match Find(cs, ctype)
    case None => None
    case Some(c) => Some(c.status)
  }

  /** Available is never true beside Degraded or Progressing, nor Degraded beside Progressing. */
  lemma {:induction false} ShapedIsExclusive(cs: seq<Condition>)
    requires Shaped(cs)
    ensures StatusOf(cs, AVAILABLE) == Some(IsTrue) ==>
              StatusOf(cs, DEGRADED) == Some(IsFalse) && StatusOf(cs, PROGRESSING) == Some(IsFalse)
    ensures StatusOf(cs, DEGRADED) == Some(IsTrue) ==>
              StatusOf(cs, AVAILABLE) == Some(IsFalse) && StatusOf(cs, PROGRESSING) == Some(IsFalse)
    ensures StatusOf(cs, PROGRESSING) == Some(IsTrue) ==>
              StatusOf(cs, AVAILABLE) == None && StatusOf(cs, DEGRADED) == None
  {
    FoundInTypes(cs, AVAILABLE);
    FoundInTypes(cs, DEGRADED);
    FoundInTypes(cs, PROGRESSING);
  }

  /** From any conditions at all, a success on a non-empty status sets the three conditions, and a
      further success changes nothing. */
  lemma {:induction false} SuccessIsStable(cs: seq<Condition>, now: int, later: int)
    requires cs != []
    ensures var r := StatusAfter(cs, None, now);
            && StatusOf(r, AVAILABLE) == Some(IsTrue)
            && StatusOf(r, DEGRADED) == Some(IsFalse)
            && StatusOf(r, PROGRESSING) == Some(IsFalse)
            && StatusAfter(r, None, later) == r
  {
    var r := StatusAfter(cs, None, now);
    SettingsDistinct(cs, None);
    SetAllChangesOnly(cs, SUCCESS_SETTINGS, now);
    StatusAfterHolds(cs, None, now);
    assert AlreadySet(r, SUCCESS_SETTINGS[0]) && AlreadySet(r, SUCCESS_SETTINGS[1]) && AlreadySet(r, SUCCESS_SETTINGS[2]);
    SetAllAgain(r, SUCCESS_SETTINGS, later);
  }

  /** From any conditions at all, an error leaves the NodeSwap degraded with the error as its message,
      neither available nor progressing; each time changes only with its status, and conditions of
      other types stay. */
  lemma {:induction false} FailureShown(cs: seq<Condition>, err: ReconcileError, now: int)
    ensures var r := StatusAfter(cs, Some(err), now);
            && StatusOf(r, DEGRADED) == Some(IsTrue)
            && StatusOf(r, AVAILABLE) == Some(IsFalse)
            && StatusOf(r, PROGRESSING) == Some(IsFalse)
            && IsSet(cs, r, Setting("Degraded", IsTrue, "ReconciliationFailed", FailedToReconcile(err)), now)
            && IsSet(cs, r, Setting("Progressing", IsFalse, "ReconciliationFailed", Text("Reconciliation failed")), now)
            && IsSet(cs, r, Setting("Availabe", IsFalse, "ReconciliationFailed", Text("")), now)
            && forall t :: t !in {"Degraded", "Progressing", "Availabe"} ==> Find(r, t) == Find(cs, t)
  {
    var r, settings := StatusAfter(cs, Some(err), now), FailureSettings(err);
    SettingsDistinct(cs, Some(err));
    SetAllChangesOnly(cs, settings, now);
    assert IsSet(cs, r, settings[0], now) && IsSet(cs, r, settings[1], now) && IsSet(cs, r, settings[2], now);
  }

  /** A success on no conditions shows progress and nothing else; on any others it shows the three
      conditions, and those of other types stay. */
  lemma {:induction false} SuccessShown(cs: seq<Condition>, now: int)
    ensures var r := StatusAfter(cs, None, now);
            if cs == [] then r == [Condition("Progressing", IsTrue, "Reconciling", Text("NodeSwap is reconciling"), now)]
            else
              && IsSet(cs, r, Setting("Availabe", IsTrue, "ReconciliationSucceeded",
                                      Text("NodeSwap successfully reconciled")), now)
              && IsSet(cs, r, Setting("Degraded", IsFalse, "ReconciliationSucceeded", Text("")), now)
              && IsSet(cs, r, Setting("Progressing", IsFalse, "ReconciliationSucceeded", Text("")), now)
              && forall t :: t !in {"Degraded", "Progressing", "Availabe"} ==> Find(r, t) == Find(cs, t)
  {
    var r, settings := StatusAfter(cs, None, now), SettingsFor(cs, None);
    SettingsDistinct(cs, None);
    SetAllChangesOnly(cs, settings, now);
    if cs == [] {
      assert settings[1..] == [];
    } else {
      assert IsSet(cs, r, settings[0], now) && IsSet(cs, r, settings[1], now) && IsSet(cs, r, settings[2], now);
    }
  }
}
