/** What holds over whole runs of the reconciler, whatever other actors do in between and whichever
    calls fail. */
module Runs {
  import opened Wrappers
  import opened RenderConfigs
  import opened Selectors
  import opened Conditions
  import opened Cluster
  import opened Reconciler

  /** One reconcile after the other. */
  function Run(w: World, inps: seq<Inputs>): (r: World)
    decreases |inps|
  {
    if inps == [] then w else Run(Reconciled(w, inps[0]).0, inps[1..])
  }

  predicate ValidSpec(spec: NodeSwapSpec) {
    Created(spec.swaps).Ok? && ParseLabelSelector(spec.machineConfigPoolSelector).Ok?
  }

  // ---------- what the operator's own steps do ----------

  /** A reconcile of the NodeSwap that was read, and how reconciling its spec ends. */
  datatype Attempt = Attempt(read: NodeSwap, outcome: SpecOutcome, inp: Inputs)

  /** The kubelet machine config is created where there was none, for a valid NodeSwap. */
  ghost predicate CreatesKubelet(step: Step, a: Attempt) {
    && ValidSpec(a.read.spec)
    && a.inp.template.Ok?
    && KUBELET_CGROUPS_NAME !in step.before.configs
    && var (key, value) := ParseLabelSelector(a.read.spec.machineConfigPoolSelector).value;
       step.after == step.before.(
         configs := step.before.configs[KUBELET_CGROUPS_NAME := KubeletConfig(a.inp.template.value, key, value)],
         clock := step.before.clock + 1)
  }

  function NewConditions(a: Attempt): (cs: seq<Condition>) {
    StatusAfter(a.read.conditions, ErrorOf(a.outcome), a.inp.now)
  }

  /** The NodeSwap that was read is still there unchanged, and gets the conditions that follow from
      the ones it had and from how reconciling its spec ended; a panic writes none. */
  ghost predicate WritesStatus(step: Step, a: Attempt) {
    && !a.outcome.Panicked?
    && step.before.swap == Some(a.read)
    && step.after == step.before.(
         swap := Some(a.read.(conditions := NewConditions(a), version := step.before.clock + 1)),
         clock := step.before.clock + 1)
  }

  ghost predicate Allowed(step: Step, a: Attempt) {
    step.actor == OtherActors || CreatesKubelet(step, a) || WritesStatus(step, a)
  }

  /** `w2` has the history of `w1` and then only steps allowed to the attempt, the first of them from
      where `w1` was. */
  ghost predicate Continues(w1: World, w2: World, a: Attempt) {
    && |w1.history| <= |w2.history|
    && w2.history[..|w1.history|] == w1.history
    && (if |w1.history| == |w2.history| then w1 == w2 else w2.history[|w1.history|].before == w1.server)
    && forall i :: |w1.history| <= i < |w2.history| ==> Allowed(w2.history[i], a)
  }

  /** Each step starts where the one before it ended, and the last one ends at the server. */
  ghost predicate Linked(w: World) {
    && (forall i :: 0 < i < |w.history| ==> w.history[i].before == w.history[i - 1].after)
    && (w.history != [] ==> w.history[|w.history| - 1].after == w.server)
    && (w.server.swap.Some? ==> w.server.swap.value.version <= w.server.clock)
  }

  /** Nobody has written the NodeSwap since it was read, if it still has the version it had. */
  ghost predicate StillKnown(w: World, read: NodeSwap) {
    && read.version <= w.server.clock
    && (w.server.swap.Some? && w.server.swap.value.version == read.version ==> w.server.swap.value == read)
  }

  lemma {:induction false} TakeContinues(w: World, actor: Actor, after: Server, a: Attempt)
    requires Linked(w) && Allowed(Step(actor, w.server, after), a)
    requires after.swap.Some? ==> after.swap.value.version <= after.clock
    ensures Continues(w, Take(w, actor, after), a) && Linked(Take(w, actor, after))
  {
    var h := Take(w, actor, after).history;
    assert forall i :: 0 <= i < |w.history| ==> h[i] == w.history[i];
  }

  lemma {:induction false} ContinuesFurther(w1: World, w2: World, w3: World, a: Attempt)
    requires Continues(w1, w2, a) && Continues(w2, w3, a)
    ensures Continues(w1, w3, a)
  {
  }

  lemma {:induction false} OthersContinue(w: World, o: Others, a: Attempt)
    requires Linked(w)
    ensures Continues(w, Interfere(w, o), a) && Linked(Interfere(w, o))
    ensures StillKnown(w, a.read) ==> StillKnown(Interfere(w, o), a.read)
  {
    if o != NOBODY {
      TakeContinues(w, OtherActors, Edited(w.server, o), a);
    } else {
      assert w.history[..|w.history|] == w.history;
    }
  }

  /** The world after other actors and then, perhaps, the operator have acted. */
  function AfterCall(w: World, o: Others, own: Option<Server>): (w': World) {
    var w1 := Interfere(w, o);
    if own.Some? then Take(w1, Operator, own.value) else w1
  }

  lemma {:induction false} CallContinues(w: World, o: Others, own: Option<Server>, a: Attempt)
    requires Linked(w)
    requires own.Some? ==>
               && Allowed(Step(Operator, Interfere(w, o).server, own.value), a)
               && (own.value.swap.Some? ==> own.value.swap.value.version <= own.value.clock)
    ensures Continues(w, AfterCall(w, o, own), a) && Linked(AfterCall(w, o, own))
  {
    var w1 := Interfere(w, o);
    OthersContinue(w, o, a);
    if own.Some? {
      TakeContinues(w1, Operator, own.value, a);
      ContinuesFurther(w, w1, Take(w1, Operator, own.value), a);
    }
  }

  /** The kubelet machine config of a valid NodeSwap and a template that rendered. */
  function ConfigFor(spec: NodeSwapSpec, body: string): (mc: MachineConfig)
    requires ParseLabelSelector(spec.machineConfigPoolSelector).Ok?
  {
    var (key, value) := ParseLabelSelector(spec.machineConfigPoolSelector).value;
    KubeletConfig(body, key, value)
  }

  /** A creation leaves things as the other actors left them, or adds the config that was missing. */
  lemma {:induction false} CreateCases(w: World, call: Call, mc: MachineConfig) returns (own: Option<Server>)
    ensures var s := Interfere(w, call.others).server;
            && CreateConfig(w, call, KUBELET_CGROUPS_NAME, mc).0 == AfterCall(w, call.others, own)
            && (own.Some? ==>
                  && KUBELET_CGROUPS_NAME !in s.configs
                  && own == Some(s.(configs := s.configs[KUBELET_CGROUPS_NAME := mc], clock := s.clock + 1)))
  {
    var s := Interfere(w, call.others).server;
    own := if call.fault.Refused? || KUBELET_CGROUPS_NAME in s.configs then None
           else Some(s.(configs := s.configs[KUBELET_CGROUPS_NAME := mc], clock := s.clock + 1));
  }

  lemma {:induction false} CreateContinues(w: World, a: Attempt)
    requires Linked(w) && StillKnown(w, a.read) && ValidSpec(a.read.spec) && a.inp.template.Ok?
    ensures var r := CreateConfig(w, a.inp.create, KUBELET_CGROUPS_NAME, ConfigFor(a.read.spec, a.inp.template.value)).0;
            Continues(w, r, a) && Linked(r) && StillKnown(r, a.read)
  {
    var own := CreateCases(w, a.inp.create, ConfigFor(a.read.spec, a.inp.template.value));
    OthersContinue(w, a.inp.create.others, a);
    if own.Some? {
      assert CreatesKubelet(Step(Operator, Interfere(w, a.inp.create.others).server, own.value), a);
    }
    CallContinues(w, a.inp.create.others, own, a);
  }

  /** Reconciling the kubelet machine config ends with reading it, or goes on to create it. */
  lemma {:induction false} KubeletCases(w: World, spec: NodeSwapSpec, inp: Inputs)
    ensures var w1, r := Interfere(w, inp.getConfig.others), KubeletReconciled(w, spec, inp).0;
            || r == w1
            || (inp.template.Ok? && ParseLabelSelector(spec.machineConfigPoolSelector).Ok?
                && r == CreateConfig(w1, inp.create, KUBELET_CGROUPS_NAME, ConfigFor(spec, inp.template.value)).0)
  {
  }

  lemma {:induction false} KubeletContinues(w: World, a: Attempt)
    requires Linked(w) && StillKnown(w, a.read) && Created(a.read.spec.swaps).Ok?
    ensures var r := KubeletReconciled(w, a.read.spec, a.inp).0;
            Continues(w, r, a) && Linked(r) && StillKnown(r, a.read)
  {
    var w1, r := Interfere(w, a.inp.getConfig.others), KubeletReconciled(w, a.read.spec, a.inp).0;
    KubeletCases(w, a.read.spec, a.inp);
    OthersContinue(w, a.inp.getConfig.others, a);
    if r != w1 {
      CreateContinues(w1, a);
      ContinuesFurther(w, w1, r, a);
    }
  }

  /** Reconciling the spec does nothing, lists the pools, or lists them and goes on to the kubelet
      machine config. */
  lemma {:induction false} SpecCases(w: World, spec: NodeSwapSpec, inp: Inputs)
    ensures var w1, r := Interfere(w, inp.list.others), SpecReconciled(w, spec, inp).0;
            r == w || r == w1 || (Created(spec.swaps).Ok? && r == KubeletReconciled(w1, spec, inp).0)
  {
  }

  lemma {:induction false} SpecContinues(w: World, a: Attempt)
    requires Linked(w) && StillKnown(w, a.read)
    ensures var r := SpecReconciled(w, a.read.spec, a.inp).0;
            Continues(w, r, a) && Linked(r) && StillKnown(r, a.read)
  {
    var w1, r := Interfere(w, a.inp.list.others), SpecReconciled(w, a.read.spec, a.inp).0;
    SpecCases(w, a.read.spec, a.inp);
    OthersContinue(w, a.inp.list.others, a);
    if r == w {
      assert w.history[..|w.history|] == w.history;
    } else if r != w1 {
      KubeletContinues(w1, a);
      ContinuesFurther(w, w1, r, a);
    }
  }

  /** A status update leaves things as the other actors left them, or writes the NodeSwap it was
      computed for. */
  lemma {:induction false} UpdateCases(w: World, call: Call, swap: NodeSwap) returns (own: Option<Server>)
    ensures var s := Interfere(w, call.others).server;
            && UpdateStatus(w, call, swap).0 == AfterCall(w, call.others, own)
            && (own.Some? ==>
                  s.swap.Some? && s.swap.value.version == swap.version
                  && own == Some(s.(swap := Some(s.swap.value.(conditions := swap.conditions, version := s.clock + 1)),
                                    clock := s.clock + 1)))
  {
    var s := Interfere(w, call.others).server;
    own := None;
    if UpdateStatus(w, call, swap).0 != Interfere(w, call.others) {
      own := Some(s.(swap := Some(s.swap.value.(conditions := swap.conditions, version := s.clock + 1)),
                     clock := s.clock + 1));
    }
  }

  lemma {:induction false} UpdateContinues(w: World, a: Attempt) returns (own: Option<Server>)
    requires Linked(w) && StillKnown(w, a.read) && !a.outcome.Panicked?
    ensures var r := StatusReconciled(w, a.read, a.outcome, a.inp).0;
            && r == AfterCall(w, a.inp.update.others, own)
            && Continues(w, r, a) && Linked(r)
    ensures own.Some? ==> WritesStatus(Step(Operator, Interfere(w, a.inp.update.others).server, own.value), a)
  {
    own := UpdateCases(w, a.inp.update, a.read.(conditions := NewConditions(a)));
    OthersContinue(w, a.inp.update.others, a);
    if own.Some? {
      assert WritesStatus(Step(Operator, Interfere(w, a.inp.update.others).server, own.value), a);
    }
    CallContinues(w, a.inp.update.others, own, a);
  }

  /** The NodeSwap a reconcile reads, if it reads one. */
  function ReadBy(w: World, inp: Inputs): (read: Option<NodeSwap>) {
    var reply := GetSwap(w, inp.get).1;
    if reply.Reply? then Some(reply.value) else None
  }

  /** The attempt a reconcile makes when it reads a NodeSwap. */
  function AttemptOf(w: World, inp: Inputs): (a: Attempt)
    requires ReadBy(w, inp).Some?
  {
    var read := ReadBy(w, inp).value;
    Attempt(read, SpecReconciled(Interfere(w, inp.get.others), read.spec, inp).1, inp)
  }

  lemma {:induction false} AttemptContinues(w: World, inp: Inputs)
    requires Linked(w) && ReadBy(w, inp).Some?
    ensures var r := Reconciled(w, inp).0;
            Linked(r) && Continues(Interfere(w, inp.get.others), r, AttemptOf(w, inp))
  {
    var w1 := Interfere(w, inp.get.others);
    var a := AttemptOf(w, inp);
    var w2 := SpecReconciled(w1, a.read.spec, inp).0;
    OthersContinue(w, inp.get.others, a);
    SpecContinues(w1, a);
    if !a.outcome.Panicked? {
      var _ := UpdateContinues(w2, a);
      ContinuesFurther(w1, w2, Reconciled(w, inp).0, a);
    }
  }

  /** In any cluster and under any interleaving and faults, the operator's own steps in a reconcile
      are only these: creating the kubelet machine config where there is none, for a NodeSwap whose
      swaps and selector are valid; and writing, on the very NodeSwap that was read, the conditions
      that follow from those it had and from how reconciling its spec ended, whether or not the
      update's reply arrives. A reconcile that reads no NodeSwap takes no step of its own. */
  lemma {:induction false} ReconcileAllowed(w: World, inp: Inputs)
    requires Linked(w)
    ensures var r := Reconciled(w, inp).0;
            && Linked(r)
            && if ReadBy(w, inp).None? then r == Interfere(w, inp.get.others)
               else Continues(w, r, AttemptOf(w, inp))
  {
    var w1 := Interfere(w, inp.get.others);
    if ReadBy(w, inp).None? {
      OthersContinue(w, inp.get.others, Attempt(NodeSwap(NodeSwapSpec("", []), [], 0), Panicked, inp));
    } else {
      var a := AttemptOf(w, inp);
      OthersContinue(w, inp.get.others, a);
      AttemptContinues(w, inp);
      ContinuesFurther(w, w1, Reconciled(w, inp).0, a);
    }
  }

  /** A status update that is answered with success has been carried out on the NodeSwap it was
      computed for. */
  lemma {:induction false} UpdateTruthful(w: World, call: Call, read: NodeSwap, conditions: seq<Condition>)
    requires StillKnown(Interfere(w, call.others), read)
    ensures var (r, reply) := UpdateStatus(w, call, read.(conditions := conditions));
            reply.Reply? ==>
              r.server.swap.Some? && r.server.swap.value.spec == read.spec && r.server.swap.value.conditions == conditions
  {
  }

  /** The status on the server is what the outcome of a reconcile of `read` says it is. */
  ghost predicate Truthful(s: Server, o: Outcome, read: NodeSwap, now: int) {
    o == Completed || o.ReconcileErr? ==>
      && s.swap.Some?
      && s.swap.value.spec == read.spec
      && s.swap.value.conditions == StatusAfter(read.conditions, if o == Completed then None else Some(o.error), now)
  }

  lemma {:induction false} StatusTruthful(w: World, a: Attempt)
    requires Linked(w) && StillKnown(w, a.read)
    ensures var (r, out) := StatusReconciled(w, a.read, a.outcome, a.inp);
            Truthful(r.server, out, a.read, a.inp.now)
  {
    OthersContinue(w, a.inp.update.others, a);
    UpdateTruthful(w, a.inp.update, a.read, NewConditions(a));
    StatusOutcome(w, a);
  }

  /** Only an update that is answered with success leads to completion or to the error of the spec. */
  lemma {:induction false} StatusOutcome(w: World, a: Attempt)
    ensures var swap := a.read.(conditions := NewConditions(a));
            var (r, o) := StatusReconciled(w, a.read, a.outcome, a.inp);
            && r == UpdateStatus(w, a.inp.update, swap).0
            && (o == Completed || o.ReconcileErr? ==>
                  && UpdateStatus(w, a.inp.update, swap).1.Reply?
                  && ErrorOf(a.outcome) == (if o == Completed then None else Some(o.error)))
  {
  }

  /** A reconcile tells the truth: when it completes, or returns the error of the spec, the status of
      the very spec it read says so on the server, whatever else other actors did and whichever
      calls failed. If it read no NodeSwap, only other actors have acted. */
  lemma {:induction false} OutcomeTruthful(w: World, inp: Inputs)
    requires Linked(w)
    ensures var (r, o) := Reconciled(w, inp);
            var read := ReadBy(w, inp);
            if read.None? then r == Interfere(w, inp.get.others)
            else Truthful(r.server, o, read.value, inp.now)
  {
    if ReadBy(w, inp).Some? {
      var a := AttemptOf(w, inp);
      var w1 := Interfere(w, inp.get.others);
      OthersContinue(w, inp.get.others, a);
      SpecContinues(w1, a);
      StatusTruthful(SpecReconciled(w1, a.read.spec, inp).0, a);
    }
  }

  // ---------- how a reconcile ends ----------

  function FaultError(f: Fault): (r: Option<ReconcileError>) {
    if f == NoFault then None else Some(ApiFailed(f.text))
  }

  /** What goes wrong at each stage of reconciling a spec, in order: rendering, listing the pools, parsing
      the selector, and the stages of the kubelet machine config. */
  function StageErrors(w: World, spec: NodeSwapSpec, inp: Inputs): (errors: seq<Option<ReconcileError>>) {
    var created, selector := Created(spec.swaps), ParseLabelSelector(spec.machineConfigPoolSelector);
    [if created.Err? then Some(RenderFailed(created.error)) else None,
     FaultError(inp.list.fault),
     if selector.Err? then Some(SelectorInvalid(selector.error)) else None]
    + KubeletErrors(Interfere(w, inp.list.others), inp)
  }

  /** Reading the kubelet machine config, and, if it is not there, rendering its template and creating it. */
  function KubeletErrors(w: World, inp: Inputs): (errors: seq<Option<ReconcileError>>) {
    var there := KUBELET_CGROUPS_NAME in Interfere(w, inp.getConfig.others).server.configs;
    [FaultError(inp.getConfig.fault),
     if !there && inp.template.Err? then Some(TemplateFailed(inp.template.error)) else None,
     if !there then FaultError(inp.create.fault) else None]
  }

  /** The outcome is done if there is no error, and otherwise fails with the first. */
  ghost predicate EndsWith(errors: seq<Option<ReconcileError>>, o: SpecOutcome) {
    if forall i :: 0 <= i < |errors| ==> errors[i].None? then o == Done
    else o.SpecFailed? && FirstError(errors, o.error)
  }

  ghost predicate FirstError(errors: seq<Option<ReconcileError>>, error: ReconcileError) {
    exists i :: 0 <= i < |errors| && errors[i] == Some(error) && forall j :: 0 <= j < i ==> errors[j].None?
  }

  lemma {:induction false} EndsAt(errors: seq<Option<ReconcileError>>, i: nat)
    requires i < |errors| && errors[i].Some? && forall j :: 0 <= j < i ==> errors[j].None?
    ensures EndsWith(errors, SpecFailed(errors[i].value))
  {
  }

  lemma {:induction false} EndsLater(a: seq<Option<ReconcileError>>, b: seq<Option<ReconcileError>>, o: SpecOutcome)
    requires (forall i :: 0 <= i < |a| ==> a[i].None?) && EndsWith(b, o)
    ensures EndsWith(a + b, o)
  {
    assert forall i :: 0 <= i < |b| ==> (a + b)[|a| + i] == b[i];
    if o.SpecFailed? {
      var i :| 0 <= i < |b| && b[i] == Some(o.error) && forall j :: 0 <= j < i ==> b[j].None?;
      EndsAt(a + b, |a| + i);
    }
  }

  lemma {:induction false} KubeletOutcome(w: World, spec: NodeSwapSpec, inp: Inputs)
    requires ParseLabelSelector(spec.machineConfigPoolSelector).Ok?
    ensures var there := KUBELET_CGROUPS_NAME in Interfere(w, inp.getConfig.others).server.configs;
            var o := KubeletReconciled(w, spec, inp).1;
            o == if inp.getConfig.fault != NoFault then SpecFailed(ApiFailed(inp.getConfig.fault.text))
                 else if there then Done
                 else if inp.template.Err? then SpecFailed(TemplateFailed(inp.template.error))
                 else if inp.create.fault != NoFault then SpecFailed(ApiFailed(inp.create.fault.text))
                 else Done
  {
  }

  lemma {:induction false} KubeletEnds(w: World, spec: NodeSwapSpec, inp: Inputs)
    requires ParseLabelSelector(spec.machineConfigPoolSelector).Ok?
    ensures EndsWith(KubeletErrors(w, inp), KubeletReconciled(w, spec, inp).1)
  {
    var errors := KubeletErrors(w, inp);
    KubeletOutcome(w, spec, inp);
    if errors[0].Some? {
      EndsAt(errors, 0);
    } else if errors[1].Some? {
      EndsAt(errors, 1);
    } else if errors[2].Some? {
      EndsAt(errors, 2);
    }
  }

  lemma {:induction false} SpecOutcome(w: World, spec: NodeSwapSpec, inp: Inputs)
    requires !MissesFile(spec.swaps)
    ensures var created, selector := Created(spec.swaps), ParseLabelSelector(spec.machineConfigPoolSelector);
            SpecReconciled(w, spec, inp).1
            == if created.Err? then SpecFailed(RenderFailed(created.error))
               else if inp.list.fault != NoFault then SpecFailed(ApiFailed(inp.list.fault.text))
               else if selector.Err? then SpecFailed(SelectorInvalid(selector.error))
               else KubeletReconciled(Interfere(w, inp.list.others), spec, inp).1
  {
    PanicsExactly(spec.swaps);
  }

  /** Unless a file section is missing, reconciling a spec is done exactly when no stage goes wrong, and
      otherwise fails with the error of the first that does. */
  lemma {:induction false} SpecOutcomeExactly(w: World, spec: NodeSwapSpec, inp: Inputs)
    requires !MissesFile(spec.swaps)
    ensures EndsWith(StageErrors(w, spec, inp), SpecReconciled(w, spec, inp).1)
  {
    var w1 := Interfere(w, inp.list.others);
    var errors, last := StageErrors(w, spec, inp), KubeletErrors(w1, inp);
    SpecOutcome(w, spec, inp);
    if errors[0].Some? {
      EndsAt(errors, 0);
    } else if errors[1].Some? {
      EndsAt(errors, 1);
    } else if errors[2].Some? {
      EndsAt(errors, 2);
    } else {
      KubeletEnds(w1, spec, inp);
      EndsLater([None, None, None], last, KubeletReconciled(w1, spec, inp).1);
      assert errors == [None, None, None] + last;
    }
  }

  /** Why an update of the status of the NodeSwap that was read is answered with an error, if it is: the
      call's fault, or the NodeSwap is gone, or has been written since. */
  function UpdateError(s: Server, fault: Fault, read: NodeSwap): (error: Option<string>) {
    if fault != NoFault then Some(fault.text)
    else if s.swap.None? then Some("not found")
    else if s.swap.value.version != read.version then Some("the object has been modified")
    else None
  }

  lemma {:induction false} StatusOutcomeExactly(w: World, read: NodeSwap, so: SpecOutcome, inp: Inputs)
    ensures var failed := UpdateError(Interfere(w, inp.update.others).server, inp.update.fault, read);
            StatusReconciled(w, read, so, inp).1
            == if failed.Some? then StatusErr(ErrorOf(so), failed.value)
               else if so.SpecFailed? then ReconcileErr(so.error) else Completed
  {
  }

  /** How a reconcile ends, under any interleaving and faults. A get that fails is reported with the
      text of its fault, and a NodeSwap that is not there is nothing to do. Otherwise, unless a file
      section is missing: a status update that fails is reported together with the error of the spec, if
      it had one; else the error of the spec is, if it had one. Nothing else ends in completion. */
  lemma {:induction false} OutcomeExactly(w: World, inp: Inputs)
    ensures var (r, o) := Reconciled(w, inp);
            var w1 := Interfere(w, inp.get.others);
            if inp.get.fault != NoFault then r == w1 && o == ReconcileErr(ApiFailed(inp.get.fault.text))
            else if w1.server.swap.None? then r == w1 && o == Completed
            else
              var read := w1.server.swap.value;
              var (w2, so) := SpecReconciled(w1, read.spec, inp);
              var failed := UpdateError(Interfere(w2, inp.update.others).server, inp.update.fault, read);
              && (MissesFile(read.spec.swaps) ==> o == Crashed)
              && (!MissesFile(read.spec.swaps) ==>
                    && (o == Completed <==> so == Done && failed.None?)
                    && (so == Done && failed.Some? ==> o == StatusErr(None, failed.value))
                    && (so.SpecFailed? && failed.None? ==> o == ReconcileErr(so.error))
                    && (so.SpecFailed? && failed.Some? ==> o == StatusErr(Some(so.error), failed.value)))
  {
    var w1 := Interfere(w, inp.get.others);
    if inp.get.fault == NoFault && w1.server.swap.Some? {
      var read := w1.server.swap.value;
      var (w2, so) := SpecReconciled(w1, read.spec, inp);
      SpecPanics(w1, read.spec, inp);
      StatusOutcomeExactly(w2, read, so, inp);
    }
  }

  // ---------- what holds of every step of a run ----------

  /** No machine config that exists is changed or removed, none but the kubelet one is created, and
      the NodeSwap's existence and spec are left alone. */
  ghost predicate Harmless(step: Step) {
    && (forall k :: k in step.before.configs ==> k in step.after.configs && step.after.configs[k] == step.before.configs[k])
    && step.after.configs.Keys <= step.before.configs.Keys + {KUBELET_CGROUPS_NAME}
    && (step.after.swap.Some? <==> step.before.swap.Some?)
    && (step.after.swap.Some? ==> step.after.swap.value.spec == step.before.swap.value.spec)
  }

  lemma {:induction false} AllowedHarmless(step: Step, a: Attempt)
    requires Allowed(step, a) && step.actor == Operator
    ensures Harmless(step)
  {
  }

  ghost predicate AvailableIn(s: Server) {
    s.swap.Some? && StatusOf(s.swap.value.conditions, AVAILABLE) == Some(IsTrue)
  }

  /** The operator writes the NodeSwap so that it is available. */
  ghost predicate ReportsAvailable(step: Step) {
    step.actor == Operator && step.after.swap != step.before.swap && AvailableIn(step.after)
  }

  /** The `i`-th step reports the NodeSwap available only if its spec is valid and the kubelet machine
      config was there at some moment from the `n`-th step on at which the NodeSwap was the one the
      report was written on. */
  ghost predicate Honest(h: seq<Step>, n: nat, i: nat)
    requires i < |h|
  {
    ReportsAvailable(h[i]) ==>
      && ValidSpec(h[i].after.swap.value.spec)
      && exists j :: n <= j <= i && KUBELET_CGROUPS_NAME in h[j].before.configs && h[j].before.swap == h[i].before.swap
  }

  /** Every step from the `n`-th on is honest, and harmless if it is the operator's. */
  ghost predicate GoodFrom(w: World, n: nat) {
    forall i :: n <= i < |w.history| ==> Honest(w.history, n, i) && (w.history[i].actor == Operator ==> Harmless(w.history[i]))
  }

  /** Available is written only after the spec was reconciled without an error. */
  lemma {:induction false} AvailableMeansDone(a: Attempt)
    requires !a.outcome.Panicked? && StatusOf(NewConditions(a), AVAILABLE) == Some(IsTrue)
    ensures a.outcome == Done
  {
    if a.outcome.SpecFailed? {
      FailureShown(a.read.conditions, a.outcome.error, a.inp.now);
    }
  }

  lemma {:induction false} KubeletDone(w: World, spec: NodeSwapSpec, inp: Inputs)
    ensures var (r, o) := KubeletReconciled(w, spec, inp);
            o == Done ==> KUBELET_CGROUPS_NAME in r.server.configs
  {
    var w1 := Interfere(w, inp.getConfig.others);
    if KUBELET_CGROUPS_NAME !in w1.server.configs && inp.template.Ok?
       && ParseLabelSelector(spec.machineConfigPoolSelector).Ok? {
      var _ := CreateCases(w1, inp.create, ConfigFor(spec, inp.template.value));
    }
  }

  /** Whatever other actors do and whichever calls fail, the spec is done only if it is valid, and
      then the kubelet machine config is there: losing the race to create it counts as success. When
      no call fails and the template renders, every valid spec is done. */
  lemma {:induction false} LostRaceIsSuccess(w: World, spec: NodeSwapSpec, inp: Inputs)
    ensures var (r, o) := SpecReconciled(w, spec, inp);
            && (o == Done ==> ValidSpec(spec) && KUBELET_CGROUPS_NAME in r.server.configs)
            && (ValidSpec(spec) && inp.template.Ok? && inp.list.fault == inp.getConfig.fault == inp.create.fault == NoFault
                ==> o == Done)
  {
    KubeletDone(Interfere(w, inp.list.others), spec, inp);
  }

  /** The steps up to the status update report nothing. */
  lemma {:induction false} SpecReportsNothing(w1: World, w2: World, a: Attempt, i: nat)
    requires a.outcome.Panicked? && Continues(w1, w2, a) && |w1.history| <= i < |w2.history|
    ensures !ReportsAvailable(w2.history[i])
  {
    assert Allowed(w2.history[i], a);
  }

  lemma {:induction false} UntouchedByOthers(w: World, o: Others, read: NodeSwap)
    requires StillKnown(w, read) && Interfere(w, o).server.swap == Some(read)
    ensures w.server.swap == Some(read)
  {
  }

  /** The status update of an attempt, if it is carried out, is honest. */
  lemma {:induction false} UpdateHonest(w: World, a: Attempt, n: nat, own: Option<Server>)
    requires StillKnown(w, a.read) && n <= |w.history|
    requires a.outcome == Done ==> ValidSpec(a.read.spec) && KUBELET_CGROUPS_NAME in w.server.configs
    requires own.Some? ==> WritesStatus(Step(Operator, Interfere(w, a.inp.update.others).server, own.value), a)
    ensures var h := AfterCall(w, a.inp.update.others, own).history;
            forall i :: |w.history| <= i < |h| ==> Honest(h, n, i)
  {
    var others := a.inp.update.others;
    var h := AfterCall(w, others, own).history;
    var j := |w.history|;
    if own.Some? && ReportsAvailable(h[|h| - 1]) {
      AvailableMeansDone(a);
      UntouchedByOthers(w, others, a.read);
      assert h[j].before == w.server;
    }
  }

  ghost predicate Prefix(w1: World, w2: World) {
    |w1.history| <= |w2.history| && w2.history[..|w1.history|] == w1.history
  }

  lemma {:induction false} SpecHonest(w1: World, w2: World, r: World, a: Attempt)
    requires a.outcome.Panicked? && Continues(w1, w2, a) && Prefix(w2, r)
    ensures forall i :: |w1.history| <= i < |w2.history| ==> Honest(r.history, |w1.history|, i)
  {
    forall i | |w1.history| <= i < |w2.history| ensures Honest(r.history, |w1.history|, i) {
      SpecReportsNothing(w1, w2, a, i);
      assert r.history[i] == r.history[..|w2.history|][i];
    }
  }

  lemma {:induction false} AttemptHonest(w: World, inp: Inputs)
    requires Linked(w) && ReadBy(w, inp).Some?
    ensures var r := Reconciled(w, inp).0;
            forall i :: |w.history| <= i < |r.history| ==> Honest(r.history, |w.history|, i)
  {
    var a := AttemptOf(w, inp);
    var p := a.(outcome := Panicked);
    var w1, r := Interfere(w, inp.get.others), Reconciled(w, inp).0;
    var w2 := SpecReconciled(w1, a.read.spec, inp).0;
    OthersContinue(w, inp.get.others, p);
    SpecContinues(w1, p);
    ContinuesFurther(w, w1, w2, p);
    if a.outcome.Panicked? {
      assert r == w2 && r.history[..|w2.history|] == w2.history;
    } else {
      var own := UpdateContinues(w2, a);
      LostRaceIsSuccess(w1, a.read.spec, inp);
      UpdateHonest(w2, a, |w.history|, own);
    }
    SpecHonest(w, w2, r, p);
  }

  lemma {:induction false} ReconcileGood(w: World, inp: Inputs)
    requires Linked(w)
    ensures var r := Reconciled(w, inp).0;
            Linked(r) && Prefix(w, r) && GoodFrom(r, |w.history|)
  {
    var r := Reconciled(w, inp).0;
    ReconcileAllowed(w, inp);
    if ReadBy(w, inp).Some? {
      AttemptHonest(w, inp);
      forall i | |w.history| <= i < |r.history| && r.history[i].actor == Operator ensures Harmless(r.history[i]) {
        AllowedHarmless(r.history[i], AttemptOf(w, inp));
      }
    } else if inp.get.others == NOBODY {
      assert r.history[..|w.history|] == w.history;
    }
  }

  lemma {:induction false} HonestInPrefix(w1: World, w2: World, n: nat, i: nat)
    requires Prefix(w1, w2) && n <= i < |w1.history| && Honest(w1.history, n, i)
    ensures Honest(w2.history, n, i)
  {
    assert forall j :: 0 <= j < |w1.history| ==> w2.history[j] == w2.history[..|w1.history|][j] == w1.history[j];
  }

  lemma {:induction false} GoodFurther(w1: World, w2: World, w3: World)
    requires Prefix(w1, w2) && Prefix(w2, w3)
    requires GoodFrom(w2, |w1.history|) && GoodFrom(w3, |w2.history|)
    ensures Prefix(w1, w3) && GoodFrom(w3, |w1.history|)
  {
    var n := |w1.history|;
    assert w3.history[..n] == w3.history[..|w2.history|][..n];
    forall i | n <= i < |w3.history|
      ensures Honest(w3.history, n, i) && (w3.history[i].actor == Operator ==> Harmless(w3.history[i]))
    {
      if i < |w2.history| {
        HonestInPrefix(w2, w3, n, i);
        assert w3.history[i] == w3.history[..|w2.history|][i];
      } else {
        assert Honest(w3.history, |w2.history|, i);
      }
    }
  }

  // ---------- which machine configs are created ----------

  /** The body is the rendered template; the labels are the role label and the selector's, which wins
      where they are the same. */
  ghost predicate Labelled(mc: MachineConfig, body: string, key: string, value: string) {
    var role := "machineconfiguration.openshift.io/role";
    && mc.body == body
    && mc.labels.Keys == {role, key}
    && mc.labels[key] == value
    && (key != role ==> mc.labels[role] == "worker")
  }

  lemma {:induction false} KubeletConfigExactly(mc: MachineConfig, body: string, key: string, value: string)
    ensures mc == KubeletConfig(body, key, value) <==> Labelled(mc, body, key, value)
  {
    var labels := map["machineconfiguration.openshift.io/role" := "worker"][key := value];
    if Labelled(mc, body, key, value) {
      assert mc.labels.Keys == labels.Keys;
      assert mc.labels == labels;
    }
  }

  /** The step adds the kubelet machine config, and nothing else, for the selector of the spec and the
      rendered template. */
  ghost predicate CreatesFor(step: Step, spec: NodeSwapSpec, body: string) {
    var name := "99-swap-kubelet-cgroups";
    && name !in step.before.configs && name in step.after.configs
    && step.after.configs == step.before.configs[name := step.after.configs[name]]
    && ValidSpec(spec)
    && var (key, value) := ParseLabelSelector(spec.machineConfigPoolSelector).value;
       Labelled(step.after.configs[name], body, key, value)
  }

  /** If the operator's `i`-th step changes the machine configs, it creates the kubelet one for a NodeSwap
      that was there at some moment from the `n`-th step on, and for the template of one of the reconciles. */
  ghost predicate CreatesKnown(h: seq<Step>, n: nat, i: nat, inps: seq<Inputs>)
    requires i < |h|
  {
    h[i].actor == Operator && h[i].after.configs != h[i].before.configs ==>
      exists j, inp :: n <= j <= i && inp in inps && CreatesFrom(h, i, j, inp)
  }

  ghost predicate CreatesFrom(h: seq<Step>, i: nat, j: nat, inp: Inputs)
    requires i < |h| && j < |h|
  {
    h[j].before.swap.Some? && inp.template.Ok? && CreatesFor(h[i], h[j].before.swap.value.spec, inp.template.value)
  }

  lemma {:induction false} CreatesKubeletFor(step: Step, a: Attempt)
    requires CreatesKubelet(step, a)
    ensures a.inp.template.Ok? && CreatesFor(step, a.read.spec, a.inp.template.value)
  {
    var (key, value) := ParseLabelSelector(a.read.spec.machineConfigPoolSelector).value;
    KubeletConfigExactly(KubeletConfig(a.inp.template.value, key, value), a.inp.template.value, key, value);
    assert KUBELET_CGROUPS_NAME == "99-swap-kubelet-cgroups";
  }

  ghost predicate CreationsKnown(h: seq<Step>, n: nat, inps: seq<Inputs>) {
    forall i :: n <= i < |h| ==> CreatesKnown(h, n, i, inps)
  }

  lemma {:induction false} StepCreates(h: seq<Step>, n: nat, p: nat, i: nat, a: Attempt)
    requires n <= p <= i < |h| && h[p].before.swap == Some(a.read) && Allowed(h[i], a)
    ensures CreatesKnown(h, n, i, [a.inp])
  {
    if h[i].actor == Operator && h[i].after.configs != h[i].before.configs {
      CreatesKubeletFor(h[i], a);
      assert a.inp in [a.inp] && CreatesFrom(h, i, p, a.inp);
    }
  }

  lemma {:induction false} ReconcileCreates(w: World, inp: Inputs)
    requires Linked(w)
    ensures CreationsKnown(Reconciled(w, inp).0.history, |w.history|, [inp])
  {
    var h, w1 := Reconciled(w, inp).0.history, Interfere(w, inp.get.others);
    if ReadBy(w, inp).Some? {
      var a, p := AttemptOf(w, inp), |w1.history|;
      AttemptContinues(w, inp);
      forall i | |w.history| <= i < |h| ensures CreatesKnown(h, |w.history|, i, [inp]) {
        if i < p {
          assert h[..p][i].actor == OtherActors;
        } else {
          StepCreates(h, |w.history|, p, i, a);
        }
      }
    }
  }

  lemma {:induction false} CreatesInPrefix(h: seq<Step>, longer: seq<Step>, n: nat, i: nat, first: Inputs, rest: seq<Inputs>)
    requires |h| <= |longer| && longer[..|h|] == h && i < |h| && CreatesKnown(h, n, i, [first])
    ensures CreatesKnown(longer, n, i, [first] + rest)
  {
    assert longer[i] == longer[..|h|][i];
    if h[i].actor == Operator && h[i].after.configs != h[i].before.configs {
      var j, inp :| n <= j <= i && inp in [first] && CreatesFrom(h, i, j, inp);
      assert longer[j] == longer[..|h|][j];
      assert inp in [first] + rest && CreatesFrom(longer, i, j, inp);
    }
  }

  lemma {:induction false} CreatesLater(h: seq<Step>, n: nat, m: nat, i: nat, first: Inputs, rest: seq<Inputs>)
    requires n <= m && i < |h| && CreatesKnown(h, m, i, rest)
    ensures CreatesKnown(h, n, i, [first] + rest)
  {
    if h[i].actor == Operator && h[i].after.configs != h[i].before.configs {
      var j, inp :| m <= j <= i && inp in rest && CreatesFrom(h, i, j, inp);
      assert inp in [first] + rest && CreatesFrom(h, i, j, inp);
    }
  }

  lemma {:induction false} RunCreates(w: World, inps: seq<Inputs>)
    requires Linked(w)
    ensures CreationsKnown(Run(w, inps).history, |w.history|, inps)
    decreases |inps|
  {
    if inps != [] {
      var first, rest := inps[0], inps[1..];
      var w1 := Reconciled(w, first).0;
      var r := Run(w1, rest);
      assert inps == [first] + rest;
      ReconcileCreates(w, first);
      ReconcileGood(w, first);
      RunCreates(w1, rest);
      RunPrefix(w1, rest);
      forall i | |w.history| <= i < |r.history| ensures CreatesKnown(r.history, |w.history|, i, inps) {
        if i < |w1.history| {
          CreatesInPrefix(w1.history, r.history, |w.history|, i, first, rest);
        } else {
          assert CreatesKnown(r.history, |w1.history|, i, rest);
          CreatesLater(r.history, |w.history|, |w1.history|, i, first, rest);
        }
      }
    }
  }

  lemma {:induction false} RunPrefix(w: World, inps: seq<Inputs>)
    requires Linked(w)
    ensures Prefix(w, Run(w, inps))
    decreases |inps|
  {
    if inps == [] {
      assert w.history[..|w.history|] == w.history;
    } else {
      var w1, r := Reconciled(w, inps[0]).0, Run(w, inps);
      ReconcileGood(w, inps[0]);
      RunPrefix(w1, inps[1..]);
      assert r.history[..|w.history|] == r.history[..|w1.history|][..|w.history|];
    }
  }

  /** Over any run, under any interleaving and faults: the operator's steps are harmless; each one that
      changes the machine configs creates the kubelet one, with the rendered template as its body and
      the labels of a NodeSwap that was there; and whenever it reports a NodeSwap available, the spec is
      valid and, while the NodeSwap was the one reported on, the kubelet machine config was there. */
  lemma {:induction false} RunGood(w: World, inps: seq<Inputs>)
    requires Linked(w)
    ensures var r := Run(w, inps);
            && Linked(r) && Prefix(w, r) && GoodFrom(r, |w.history|)
            && CreationsKnown(r.history, |w.history|, inps)
    decreases |inps|
  {
    RunCreates(w, inps);
    if inps == [] {
      assert w.history[..|w.history|] == w.history;
    } else {
      var w1 := Reconciled(w, inps[0]).0;
      ReconcileGood(w, inps[0]);
      RunGood(w1, inps[1..]);
      GoodFurther(w, w1, Run(w1, inps[1..]));
    }
  }

  // ---------- the status over a run ----------

  ghost predicate ServerShaped(s: Server) {
    s.swap.Some? ==> Shaped(s.swap.value.conditions)
  }

  /** The server's status is shaped, and was at every step. */
  ghost predicate AlwaysShaped(w: World) {
    ServerShaped(w.server) && forall i :: 0 <= i < |w.history| ==> ServerShaped(w.history[i].after)
  }

  lemma {:induction false} TakeShaped(w: World, actor: Actor, after: Server)
    requires AlwaysShaped(w) && ServerShaped(after)
    ensures AlwaysShaped(Take(w, actor, after))
  {
  }

  lemma {:induction false} OthersShaped(w: World, o: Others)
    requires AlwaysShaped(w)
    ensures AlwaysShaped(Interfere(w, o))
  {
  }

  lemma {:induction false} CreateShaped(w: World, call: Call, mc: MachineConfig)
    requires AlwaysShaped(w)
    ensures AlwaysShaped(CreateConfig(w, call, KUBELET_CGROUPS_NAME, mc).0)
  {
    var own := CreateCases(w, call, mc);
    OthersShaped(w, call.others);
    if own.Some? {
      TakeShaped(Interfere(w, call.others), Operator, own.value);
    }
  }

  lemma {:induction false} KubeletShaped(w: World, spec: NodeSwapSpec, inp: Inputs)
    requires AlwaysShaped(w)
    ensures AlwaysShaped(KubeletReconciled(w, spec, inp).0)
  {
    var w1 := Interfere(w, inp.getConfig.others);
    KubeletCases(w, spec, inp);
    OthersShaped(w, inp.getConfig.others);
    if KubeletReconciled(w, spec, inp).0 != w1 {
      CreateShaped(w1, inp.create, ConfigFor(spec, inp.template.value));
    }
  }

  lemma {:induction false} SpecShaped(w: World, spec: NodeSwapSpec, inp: Inputs)
    requires AlwaysShaped(w)
    ensures AlwaysShaped(SpecReconciled(w, spec, inp).0)
  {
    var w1 := Interfere(w, inp.list.others);
    SpecCases(w, spec, inp);
    OthersShaped(w, inp.list.others);
    KubeletShaped(w1, spec, inp);
  }

  lemma {:induction false} ReconcileShaped(w: World, inp: Inputs)
    requires AlwaysShaped(w)
    ensures AlwaysShaped(Reconciled(w, inp).0)
  {
    var w1 := Interfere(w, inp.get.others);
    OthersShaped(w, inp.get.others);
    if ReadBy(w, inp).Some? {
      var read := ReadBy(w, inp).value;
      var (w2, o) := SpecReconciled(w1, read.spec, inp);
      SpecShaped(w1, read.spec, inp);
      var conditions := StatusAfter(read.conditions, ErrorOf(o), inp.now);
      StatusStaysShaped(read.conditions, ErrorOf(o), inp.now);
      var w3 := Interfere(w2, inp.update.others);
      OthersShaped(w2, inp.update.others);
      var s := w3.server;
      if s.swap.Some? {
        TakeShaped(w3, Operator, s.(swap := Some(s.swap.value.(conditions := conditions, version := s.clock + 1)),
                                    clock := s.clock + 1));
      }
    }
  }

  /** Over any run of successes, failures, crashes, lost updates and edits by others, a status that
      starts empty is always empty, in progress, failed or succeeded, with unique types; so (by
      ShapedIsExclusive) it is never available while degraded or progressing. */
  lemma {:induction false} RunShaped(w: World, inps: seq<Inputs>)
    requires AlwaysShaped(w)
    ensures AlwaysShaped(Run(w, inps))
    decreases |inps|
  {
    if inps != [] {
      ReconcileShaped(w, inps[0]);
      RunShaped(Reconciled(w, inps[0]).0, inps[1..]);
    }
  }

  // ---------- convergence ----------

  /** No other actor, no fault, and a template that renders. */
  predicate Undisturbed(inp: Inputs) {
    && inp.get == inp.list == inp.getConfig == inp.create == inp.update == QUIET
    && inp.template.Ok?
  }

  /** The machine configs with the kubelet one added if there is none: one that exists stays, whatever
      it says. */
  function WithKubelet(configs: map<string, MachineConfig>, spec: NodeSwapSpec, body: string): (r: map<string, MachineConfig>)
    requires ParseLabelSelector(spec.machineConfigPoolSelector).Ok?
  {
    if KUBELET_CGROUPS_NAME in configs then configs else configs[KUBELET_CGROUPS_NAME := ConfigFor(spec, body)]
  }

  /** What one undisturbed reconcile of a valid spec leaves. */
  lemma {:induction false} QuietReconcile(w: World, inp: Inputs)
    requires Undisturbed(inp) && w.server.swap.Some? && ValidSpec(w.server.swap.value.spec)
    ensures var (r, o) := Reconciled(w, inp);
            var before := w.server.swap.value;
            && o == Completed
            && r.server.configs == WithKubelet(w.server.configs, before.spec, inp.template.value)
            && r.server.swap.Some?
            && r.server.swap.value.spec == before.spec
            && r.server.swap.value.conditions == StatusAfter(before.conditions, None, inp.now)
            && (KUBELET_CGROUPS_NAME in w.server.configs && before.conditions == StatusAfter(before.conditions, None, inp.now)
                ==> r == w)
  {
  }

  /** From any status and any machine configs, two undisturbed reconciles of a valid NodeSwap reach
      a state with a succeeded status, where the kubelet machine config is added if there was none and
      nothing else among the machine configs has changed; and every further undisturbed reconcile
      leaves the server exactly as it is. */
  lemma {:induction false} Converges(w: World, first: Inputs, second: Inputs)
    requires Undisturbed(first) && Undisturbed(second)
    requires w.server.swap.Some? && ValidSpec(w.server.swap.value.spec)
    ensures var r := Run(w, [first, second]);
            && r.server.configs == WithKubelet(w.server.configs, w.server.swap.value.spec, first.template.value)
            && r.server.swap.Some?
            && r.server.swap.value.spec == w.server.swap.value.spec
            && StatusOf(r.server.swap.value.conditions, AVAILABLE) == Some(IsTrue)
            && StatusOf(r.server.swap.value.conditions, DEGRADED) == Some(IsFalse)
            && StatusOf(r.server.swap.value.conditions, PROGRESSING) == Some(IsFalse)
            && forall inp :: Undisturbed(inp) ==> Reconciled(r, inp) == (r, Completed)
  {
    var before := w.server.swap.value.conditions;
    var w1 := Reconciled(w, first).0;
    var w2 := Reconciled(w1, second).0;
    QuietReconcile(w, first);
    QuietReconcile(w1, second);
    var c1, c2 := w1.server.swap.value.conditions, w2.server.swap.value.conditions;
    StatusAfterHolds(before, None, first.now);
    SuccessIsStable(c1, second.now, second.now);
    assert [first, second][1..] == [second] && [second][1..] == [];
    assert Run(w1, [second]) == w2;
    forall inp | Undisturbed(inp) ensures Reconciled(w2, inp) == (w2, Completed) {
      SuccessIsStable(c1, second.now, inp.now);
      QuietReconcile(w2, inp);
    }
  }

  /** The one created, where there was none: with the rendered template as its body and the labels of the
      role and the selector. */
  lemma {:induction false} KubeletCreated(w: World, inp: Inputs)
    requires Undisturbed(inp) && w.server.swap.Some? && ValidSpec(w.server.swap.value.spec)
    requires "99-swap-kubelet-cgroups" !in w.server.configs
    ensures var configs, name := Reconciled(w, inp).0.server.configs, "99-swap-kubelet-cgroups";
            var (key, value) := ParseLabelSelector(w.server.swap.value.spec.machineConfigPoolSelector).value;
            && name in configs && configs == w.server.configs[name := configs[name]]
            && Labelled(configs[name], inp.template.value, key, value)
  {
    assert KUBELET_CGROUPS_NAME == "99-swap-kubelet-cgroups";
    QuietReconcile(w, inp);
    var (key, value) := ParseLabelSelector(w.server.swap.value.spec.machineConfigPoolSelector).value;
    KubeletConfigExactly(KubeletConfig(inp.template.value, key, value), inp.template.value, key, value);
  }

  /** The kubelet machine config that a NodeSwap and a template call for is the one in the cluster, after
      any number of undisturbed reconciles, if and only if it was before or there was none. */
  lemma {:induction false} KubeletCurrentExactly(w: World, first: Inputs, rest: seq<Inputs>)
    requires Undisturbed(first) && forall i :: 0 <= i < |rest| ==> Undisturbed(rest[i])
    requires w.server.swap.Some? && ValidSpec(w.server.swap.value.spec)
    ensures var configs, r := w.server.configs, Run(w, [first] + rest).server.configs;
            var called := ConfigFor(w.server.swap.value.spec, first.template.value);
            && KUBELET_CGROUPS_NAME in r
            && (r[KUBELET_CGROUPS_NAME] == called
                <==> (KUBELET_CGROUPS_NAME in configs ==> configs[KUBELET_CGROUPS_NAME] == called))
  {
    var w1 := Reconciled(w, first).0;
    QuietReconcile(w, first);
    assert ([first] + rest)[1..] == rest;
    QuietRunKeeps(w1, rest);
  }

  lemma {:induction false} QuietRunKeeps(w: World, inps: seq<Inputs>)
    requires forall i :: 0 <= i < |inps| ==> Undisturbed(inps[i])
    requires w.server.swap.Some? && ValidSpec(w.server.swap.value.spec) && KUBELET_CGROUPS_NAME in w.server.configs
    ensures Run(w, inps).server.configs == w.server.configs
    decreases |inps|
  {
    if inps != [] {
      QuietReconcile(w, inps[0]);
      QuietRunKeeps(Reconciled(w, inps[0]).0, inps[1..]);
    }
  }

  /** A NodeSwap whose selector now asks for another value of the label: the kubelet machine config
      keeps the old one for ever. */
  lemma {:induction false} OutdatedLabelStays(w: World, key: string, value: string, former: string,
                                              first: Inputs, rest: seq<Inputs>)
    requires Undisturbed(first) && forall i :: 0 <= i < |rest| ==> Undisturbed(rest[i])
    requires w.server.swap.Some? && ValidSpec(w.server.swap.value.spec) && value != former
    requires ParseLabelSelector(w.server.swap.value.spec.machineConfigPoolSelector) == Ok((key, value))
    requires KUBELET_CGROUPS_NAME in w.server.configs
    requires w.server.configs[KUBELET_CGROUPS_NAME] == KubeletConfig(first.template.value, key, former)
    ensures var r := Run(w, [first] + rest).server.configs;
            var called := ConfigFor(w.server.swap.value.spec, first.template.value);
            && r == w.server.configs && r[KUBELET_CGROUPS_NAME].labels[key] == former
            && key in called.labels && called.labels[key] == value && r[KUBELET_CGROUPS_NAME] != called
  {
    forall i | 0 <= i < |[first] + rest| ensures Undisturbed(([first] + rest)[i]) {
    }
    QuietRunKeeps(w, [first] + rest);
  }

  /** An undisturbed reconcile of an invalid NodeSwap creates nothing. It reports the error in a
      failed status, or, exactly where it comes upon a missing file section, crashes. */
  lemma {:induction false} InvalidSpecReported(w: World, inp: Inputs)
    requires Undisturbed(inp) && w.server.swap.Some? && !ValidSpec(w.server.swap.value.spec)
    ensures var (r, o) := Reconciled(w, inp);
            && r.server.configs == w.server.configs
            && (o == Crashed || o.ReconcileErr?)
            && (o == Crashed <==> MissesFile(w.server.swap.value.spec.swaps))
            && (o.ReconcileErr? ==>
                  r.server.swap.Some?
                  && StatusOf(r.server.swap.value.conditions, DEGRADED) == Some(IsTrue)
                  && StatusOf(r.server.swap.value.conditions, AVAILABLE) == Some(IsFalse)
                  && StatusOf(r.server.swap.value.conditions, PROGRESSING) == Some(IsFalse))
  {
    var before := w.server.swap.value;
    var (w2, o) := SpecReconciled(w, before.spec, inp);
    CrashesExactly(w, inp);
    assert w2 == w;
    if o.SpecFailed? {
      FailureShown(before.conditions, o.error, inp.now);
    }
  }

  lemma {:induction false} KubeletNeverPanics(w: World, spec: NodeSwapSpec, inp: Inputs)
    ensures !KubeletReconciled(w, spec, inp).1.Panicked?
  {
  }

  lemma {:induction false} SpecPanics(w: World, spec: NodeSwapSpec, inp: Inputs)
    ensures SpecReconciled(w, spec, inp).1.Panicked? <==> MissesFile(spec.swaps)
    ensures SpecReconciled(w, spec, inp).1.Panicked? ==> SpecReconciled(w, spec, inp).0 == w
  {
    PanicsExactly(spec.swaps);
    KubeletNeverPanics(Interfere(w, inp.list.others), spec, inp);
  }

  lemma {:induction false} StatusNeverCrashes(w: World, swap: NodeSwap, o: SpecOutcome, inp: Inputs)
    ensures StatusReconciled(w, swap, o, inp).1 != Crashed
  {
  }

  /** Under any interleaving and faults, a reconcile crashes if and only if the NodeSwap it reads has
      a file-based swap without a file section behind renderable swaps only. Then the operator has
      taken no step: no status says what happened. */
  lemma {:induction false} CrashesExactly(w: World, inp: Inputs)
    ensures var (r, o) := Reconciled(w, inp);
            && (o == Crashed <==> ReadBy(w, inp).Some? && MissesFile(ReadBy(w, inp).value.spec.swaps))
            && (o == Crashed ==> r == Interfere(w, inp.get.others))
  {
    if ReadBy(w, inp).Some? {
      var w1, read := Interfere(w, inp.get.others), ReadBy(w, inp).value;
      SpecPanics(w1, read.spec, inp);
      StatusNeverCrashes(SpecReconciled(w1, read.spec, inp).0, read, SpecReconciled(w1, read.spec, inp).1, inp);
    }
  }

  /** The smallest such NodeSwap: one swap of type file and nothing else. It stays without a status
      for ever. */
  lemma {:induction false} MissingFileCrashes(w: World, inp: Inputs)
    requires Undisturbed(inp)
    requires w.server.swap == Some(NodeSwap(NodeSwapSpec("role:worker", [SwapSpec(0, FILE_BASED_SWAP, None)]), [], 0))
    ensures Reconciled(w, inp) == (w, Crashed)
  {
    CrashesExactly(w, inp);
    var swaps := w.server.swap.value.spec.swaps;
    assert swaps[0].swapType == FILE_BASED_SWAP && swaps[0].file.None?;
  }
}
