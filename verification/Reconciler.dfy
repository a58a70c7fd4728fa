/** Reconciling a NodeSwap. */
module Reconciler {
  import opened Wrappers
  import opened RenderConfigs
  import opened Selectors
  import opened Conditions
  import opened Cluster

  const ROLE_LABEL := "machineconfiguration.openshift.io/role"
  const WORKER := "worker"

  // ---------- machine config pools ----------

  datatype PoolConditionType = PoolUpdated | PoolUpdating | PoolDegraded | OtherPoolCondition

  datatype PoolCondition = PoolCondition(ctype: PoolConditionType, isTrue: bool)

  datatype Pool = Pool(matchLabels: Option<map<string, string>>, conditions: seq<PoolCondition>)

  /** The last condition of the type is true. */
  ghost predicate LastTrue(cs: seq<PoolCondition>, ctype: PoolConditionType) {
    exists i :: LastTrueAt(cs, ctype, i)
  }

  ghost predicate LastTrueAt(cs: seq<PoolCondition>, ctype: PoolConditionType, i: int) {
    0 <= i < |cs| && cs[i] == PoolCondition(ctype, true) && forall j :: i < j < |cs| ==> cs[j].ctype != ctype
  }

  ghost predicate Updated(pool: Pool) {
    LastTrue(pool.conditions, PoolUpdated)
    && !LastTrue(pool.conditions, PoolUpdating) && !LastTrue(pool.conditions, PoolDegraded)
  }

  lemma {:induction false} LastTrueStep(cs: seq<PoolCondition>, n: nat, ctype: PoolConditionType)
    requires n < |cs|
    ensures LastTrue(cs[..n + 1], ctype) <==> if cs[n].ctype == ctype then cs[n].isTrue else LastTrue(cs[..n], ctype)
  {
    var a, b := cs[..n], cs[..n + 1];
    assert forall i :: 0 <= i < n ==> a[i] == b[i];
    if cs[n].ctype == ctype {
      assert cs[n].isTrue ==> LastTrueAt(b, ctype, n);
    } else {
      if i :| LastTrueAt(a, ctype, i) {
        assert LastTrueAt(b, ctype, i);
      }
      if i :| LastTrueAt(b, ctype, i) {
        assert LastTrueAt(a, ctype, i);
      }
    }
  }

  method IsMachineConfigPoolUpdated(pool: Pool) returns (r: bool)
    ensures r <==> Updated(pool)
  {
    var updated, updating, degraded := false, false, false;
    var cs := pool.conditions;
    for i := 0 to |cs|
      invariant updated == LastTrue(cs[..i], PoolUpdated)
      invariant updating == LastTrue(cs[..i], PoolUpdating)
      invariant degraded == LastTrue(cs[..i], PoolDegraded)
    {
      LastTrueStep(cs, i, PoolUpdated);
      LastTrueStep(cs, i, PoolUpdating);
      LastTrueStep(cs, i, PoolDegraded);
      match cs[i].ctype {
        case PoolUpdated => updated := cs[i].isTrue;
        case PoolUpdating => updating := cs[i].isTrue;
        case PoolDegraded => degraded := cs[i].isTrue;
        case OtherPoolCondition =>
      }
    }
    assert cs[..|cs|] == cs;
    r := updated && !updating && !degraded;
  }

  predicate Matches(pool: Pool, key: string, value: string) {
    pool.matchLabels.Some? && key in pool.matchLabels.value && pool.matchLabels.value[key] == value
  }

  ghost predicate AllReady(pools: seq<Pool>, key: string, value: string) {
    forall i :: 0 <= i < |pools| && Matches(pools[i], key, value) ==> Updated(pools[i])
  }

  /** No matching pool is left that is not updated. */
  method PoolsReady(pools: seq<Pool>, key: string, value: string) returns (ready: bool)
    ensures ready <==> AllReady(pools, key, value)
  {
    var notUpdated: seq<Pool> := [];
    for i := 0 to |pools|
      invariant notUpdated == []
                <==> forall j :: 0 <= j < i && Matches(pools[j], key, value) ==> Updated(pools[j])
    {
      if Matches(pools[i], key, value) {
        var updated := IsMachineConfigPoolUpdated(pools[i]);
        if !updated {
          notUpdated := notUpdated + [pools[i]];
        }
      }
    }
    ready := |notUpdated| == 0;
  }

  // ---------- what a reconcile does ----------

  /** Everything a reconcile meets: how its API calls go, the pools listed, the outcome of rendering
      the kubelet templates, and the time. */
  datatype Inputs = Inputs(
    get: Call, list: Call, pools: seq<Pool>, getConfig: Call, template: Result<string, string>,
    create: Call, update: Call, now: int)

  /** How reconciling the spec ends; Panicked is the nil dereference of a missing file section. */
  datatype SpecOutcome = Done | SpecFailed(error: ReconcileError) | Panicked

  /** How a reconcile ends; a failed status update is reported with the error of the spec, if any. */
  datatype Outcome =
    | Completed
    | ReconcileErr(error: ReconcileError)
    | StatusErr(spec: Option<ReconcileError>, text: string)
    | Crashed

  /** The kubelet machine config for a rendered template and a parsed selector. */
  function KubeletConfig(body: string, key: string, value: string): (r: MachineConfig) {
    MachineConfig(map[ROLE_LABEL := WORKER][key := value], body)
  }

  function KubeletReconciled(w: World, spec: NodeSwapSpec, inp: Inputs): (r: (World, SpecOutcome)) {
    var (w1, reply) := GetConfig(w, inp.getConfig, KUBELET_CGROUPS_NAME);
    match reply
    case Reply(_) => (w1, Done)
    case AlreadyExists => (w1, SpecFailed(ApiFailed("already exists")))
    case Error(text) => (w1, SpecFailed(ApiFailed(text)))
    case NotFound =>
      match inp.template
      case Err(text) => (w1, SpecFailed(TemplateFailed(text)))
      case Ok(body) =>
        match ParseLabelSelector(spec.machineConfigPoolSelector)
        case Err(e) => (w1, SpecFailed(SelectorInvalid(e)))
        case Ok((key, value)) =>
          var (w2, created) := CreateConfig(w1, inp.create, KUBELET_CGROUPS_NAME, KubeletConfig(body, key, value));
          match created
          case Reply(_) => (w2, Done)
          case AlreadyExists => (w2, Done)
          case NotFound => (w2, SpecFailed(ApiFailed("not found")))
          case Error(text) => (w2, SpecFailed(ApiFailed(text)))
  }

  function SpecReconciled(w: World, spec: NodeSwapSpec, inp: Inputs): (r: (World, SpecOutcome)) {
    match Created(spec.swaps)
    case Err(e) => (w, if e.NilFileSection? then Panicked else SpecFailed(RenderFailed(e)))
    case Ok(_) =>
      var (w1, listed) := List(w, inp.list);
      if listed.Error? then (w1, SpecFailed(ApiFailed(listed.text)))
      else
        match ParseLabelSelector(spec.machineConfigPoolSelector)
        case Err(e) => (w1, SpecFailed(SelectorInvalid(e)))
        case Ok(_) => KubeletReconciled(w1, spec, inp)
  }

  /** Reconciling the spec gets as far as looking at the pools. */
  predicate PoolsConsidered(spec: NodeSwapSpec, inp: Inputs) {
    && Created(spec.swaps).Ok?
    && inp.list.fault.NoFault?
    && ParseLabelSelector(spec.machineConfigPoolSelector).Ok?
  }

  function ErrorOf(o: SpecOutcome): (r: Option<ReconcileError>) {
    if o.SpecFailed? then Some(o.error) else None
  }

  function StatusReconciled(w: World, swap: NodeSwap, o: SpecOutcome, inp: Inputs): (r: (World, Outcome)) {
    var conditions := StatusAfter(swap.conditions, ErrorOf(o), inp.now);
    var (w1, updated) := UpdateStatus(w, inp.update, swap.(conditions := conditions));
    (w1, match updated
         case Reply(_) => if o.SpecFailed? then ReconcileErr(o.error) else Completed
         case NotFound => StatusErr(ErrorOf(o), "not found")
         case AlreadyExists => StatusErr(ErrorOf(o), "already exists")
         case Error(text) => StatusErr(ErrorOf(o), text))
  }

  /** One reconcile. */
  function Reconciled(w: World, inp: Inputs): (r: (World, Outcome)) {
    var (w1, got) := GetSwap(w, inp.get);
    match got
    case NotFound => (w1, Completed)
    case AlreadyExists => (w1, ReconcileErr(ApiFailed("already exists")))
    case Error(text) => (w1, ReconcileErr(ApiFailed(text)))
    case Reply(swap) =>
      var (w2, o) := SpecReconciled(w1, swap.spec, inp);
      if o.Panicked? then (w2, Crashed) else StatusReconciled(w2, swap, o, inp)
  }

  lemma {:induction false} SetThree(cs: seq<Condition>, settings: seq<Setting>, now: int)
    ensures |settings| == 1 ==> SetAll(cs, settings, now) == SetStatusCondition(cs, settings[0], now)
    ensures |settings| == 3 ==>
              SetAll(cs, settings, now) == SetStatusCondition(
                SetStatusCondition(SetStatusCondition(cs, settings[0], now), settings[1], now), settings[2], now)
  {
    if |settings| == 3 {
      var c := SetStatusCondition(cs, settings[0], now);
      assert SetAll(cs, settings, now) == SetAll(c, settings[1..], now);
      var d := SetStatusCondition(c, settings[1], now);
      assert settings[1..][1..] == [settings[2]] && [settings[2]][1..] == [];
      assert SetAll(c, settings[1..], now) == SetAll(d, [settings[2]], now);
    }
  }

  /** The reconciler with the fields it keeps from one reconcile to the next. */
  class NodeSwapReconciler {
    const api: ApiServer
    var config: seq<RenderConfig>
    var desiredNodeSwap: NodeSwap
    var mcpReady: bool

    constructor (api: ApiServer)
      ensures this.api == api
    {
      this.api := api;
      config := [];
      desiredNodeSwap := NodeSwap(NodeSwapSpec("", []), [], 0);
      mcpReady := false;
    }

    method ReconcileKubeletCgroups(inp: Inputs) returns (o: SpecOutcome)
      modifies api
      ensures (api.TheWorld(), o) == KubeletReconciled(old(api.TheWorld()), desiredNodeSwap.spec, inp)
    {
      var reply := api.GetMachineConfig(inp.getConfig, KUBELET_CGROUPS_NAME);
      match reply {
        case Reply(_) => return Done;
        case AlreadyExists => return SpecFailed(ApiFailed("already exists"));
        case Error(text) => return SpecFailed(ApiFailed(text));
        case NotFound =>
      }
      if inp.template.Err? {
        return SpecFailed(TemplateFailed(inp.template.error));
      }
      var mc := MachineConfig(map[ROLE_LABEL := WORKER], inp.template.value);
      var selector := ParseLabelSelector(desiredNodeSwap.spec.machineConfigPoolSelector);
      if selector.Err? {
        return SpecFailed(SelectorInvalid(selector.error));
      }
      var (key, value) := selector.value;
      mc := mc.(labels := mc.labels[key := value]);
      var created := api.CreateMachineConfig(inp.create, KUBELET_CGROUPS_NAME, mc);
      match created {
        case Reply(_) => o := Done;
        case AlreadyExists => o := Done;
        case NotFound => o := SpecFailed(ApiFailed("not found"));
        case Error(text) => o := SpecFailed(ApiFailed(text));
      }
    }

    /** Besides what it does in the cluster, it keeps the rendered configurations and whether all
        pools the selector matches are updated. */
    method ReconcileSpec(inp: Inputs) returns (o: SpecOutcome)
      modifies api, this`config, this`mcpReady
      ensures (api.TheWorld(), o) == SpecReconciled(old(api.TheWorld()), desiredNodeSwap.spec, inp)
      ensures Created(desiredNodeSwap.spec.swaps).Ok? ==> config == Created(desiredNodeSwap.spec.swaps).value
      ensures mcpReady
              <==> if PoolsConsidered(desiredNodeSwap.spec, inp) then
                     var (key, value) := ParseLabelSelector(desiredNodeSwap.spec.machineConfigPoolSelector).value;
                     AllReady(inp.pools, key, value)
                   else old(mcpReady)
      ensures Created(desiredNodeSwap.spec.swaps).Err? ==> config == old(config)
    {
      var created := Create(desiredNodeSwap.spec.swaps);
      if created.Err? {
        return if created.error.NilFileSection? then Panicked else SpecFailed(RenderFailed(created.error));
      }
      config := created.value;
      var listed := api.ListPools(inp.list);
      if listed.Error? {
        return SpecFailed(ApiFailed(listed.text));
      }
      var selector := ParseLabelSelector(desiredNodeSwap.spec.machineConfigPoolSelector);
      if selector.Err? {
        return SpecFailed(SelectorInvalid(selector.error));
      }
      var (key, value) := selector.value;
      mcpReady := PoolsReady(inp.pools, key, value);
      o := ReconcileKubeletCgroups(inp);
    }

    method Set(s: Setting, now: int)
      modifies this`desiredNodeSwap
      ensures desiredNodeSwap
           == old(desiredNodeSwap).(conditions := SetStatusCondition(old(desiredNodeSwap).conditions, s, now))
    {
      desiredNodeSwap := desiredNodeSwap.(conditions := SetStatusCondition(desiredNodeSwap.conditions, s, now));
    }

    method ReconcileStatus(specOutcome: SpecOutcome, inp: Inputs) returns (o: Outcome)
      modifies api, this`desiredNodeSwap
      ensures (api.TheWorld(), o) == StatusReconciled(old(api.TheWorld()), old(desiredNodeSwap), specOutcome, inp)
    {
      if specOutcome.SpecFailed? {
        Set(Setting(DEGRADED, IsTrue, "ReconciliationFailed", FailedToReconcile(specOutcome.error)), inp.now);
        Set(Setting(PROGRESSING, IsFalse, "ReconciliationFailed", Text("Reconciliation failed")), inp.now);
        Set(Setting(AVAILABLE, IsFalse, "ReconciliationFailed", Text("")), inp.now);
      } else if |desiredNodeSwap.conditions| == 0 {
        Set(Setting(PROGRESSING, IsTrue, "Reconciling", Text("NodeSwap is reconciling")), inp.now);
      } else {
        Set(Setting(AVAILABLE, IsTrue, "ReconciliationSucceeded", Text("NodeSwap successfully reconciled")), inp.now);
        Set(Setting(DEGRADED, IsFalse, "ReconciliationSucceeded", Text("")), inp.now);
        Set(Setting(PROGRESSING, IsFalse, "ReconciliationSucceeded", Text("")), inp.now);
      }
      SetThree(old(desiredNodeSwap).conditions, SettingsFor(old(desiredNodeSwap).conditions, ErrorOf(specOutcome)), inp.now);
      var updated := api.UpdateNodeSwapStatus(inp.update, desiredNodeSwap);
      match updated {
        case Reply(_) => o := if specOutcome.SpecFailed? then ReconcileErr(specOutcome.error) else Completed;
        case NotFound => o := StatusErr(ErrorOf(specOutcome), "not found");
        case AlreadyExists => o := StatusErr(ErrorOf(specOutcome), "already exists");
        case Error(text) => o := StatusErr(ErrorOf(specOutcome), text);
      }
    }

    method Reconcile(inp: Inputs) returns (o: Outcome)
      modifies api, this
      ensures (api.TheWorld(), o) == Reconciled(old(api.TheWorld()), inp)
    {
      var got := api.GetNodeSwap(inp.get);
      match got {
        case NotFound => return Completed;
        case AlreadyExists => return ReconcileErr(ApiFailed("already exists"));
        case Error(text) => return ReconcileErr(ApiFailed(text));
        case Reply(swap) => desiredNodeSwap := swap;
      }
      var specOutcome := ReconcileSpec(inp);
      if specOutcome.Panicked? {
        return Crashed;
      }
      o := ReconcileStatus(specOutcome, inp);
    }
  }
}
