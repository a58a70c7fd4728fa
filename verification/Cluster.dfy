/** The API server as the operator sees it: every call is preceded by whatever other actors have
    written in the meantime, may be refused, and may take effect although its reply is lost. */
module Cluster {
  import opened Wrappers
  import opened RenderConfigs
  import opened Conditions

  datatype NodeSwapSpec = NodeSwapSpec(machineConfigPoolSelector: string, swaps: seq<SwapSpec>)

  /** A NodeSwap and the version of its last write. */
  datatype NodeSwap = NodeSwap(spec: NodeSwapSpec, conditions: seq<Condition>, version: nat)

  datatype MachineConfig = MachineConfig(labels: map<string, string>, body: string)

  /** The server's objects, and its write counter. */
  datatype Server = Server(configs: map<string, MachineConfig>, swap: Option<NodeSwap>, clock: nat)

  /** What other actors do to the NodeSwap: its status is the operator's alone. */
  datatype SwapEdit = Untouched | Respecified(spec: NodeSwapSpec) | Deleted | Recreated(spec: NodeSwapSpec)

  /** What other actors do before a call: any machine configs written or removed. */
  datatype Others = Others(configs: map<string, Option<MachineConfig>>, swap: SwapEdit)

  datatype Fault = NoFault | Refused(text: string) | ReplyLost(text: string)

  datatype Call = Call(others: Others, fault: Fault)

  const NOBODY: Others := Others(map[], Untouched)

  const QUIET: Call := Call(NOBODY, NoFault)

  datatype Reply<T> = Reply(value: T) | NotFound | AlreadyExists | Error(text: string)

  datatype Actor = Operator | OtherActors

  datatype Step = Step(actor: Actor, before: Server, after: Server)

  /** The server and every step it has taken. */
  datatype World = World(server: Server, history: seq<Step>)

  function Take(w: World, actor: Actor, after: Server): (r: World) {
    World(after, w.history + [Step(actor, w.server, after)])
  }

  function EditSwap(swap: Option<NodeSwap>, edit: SwapEdit, version: nat): (r: Option<NodeSwap>) {
    match edit
    case Untouched => swap
    case Respecified(spec) => if swap.None? then None else Some(swap.value.(spec := spec, version := version))
    case Deleted => None
    case Recreated(spec) => Some(NodeSwap(spec, [], version))
  }

  function Interfere(w: World, o: Others): (r: World) {
    if o == NOBODY then w else Take(w, OtherActors, Edited(w.server, o))
  }

  function Edited(s: Server, o: Others): (r: Server) {
    var configs := map k | k in s.configs.Keys + o.configs.Keys && (k in o.configs ==> o.configs[k].Some?) ::
      if k in o.configs then o.configs[k].value else s.configs[k];
    Server(configs, EditSwap(s.swap, o.swap, s.clock + 1), s.clock + 1)
  }

  function Read<T>(call: Call, found: Option<T>): (r: Reply<T>) {
    match call.fault
    case NoFault => if found.Some? then Reply(found.value) else NotFound
    case Refused(text) => Error(text)
    case ReplyLost(text) => Error(text)
  }

  function GetSwap(w: World, call: Call): (r: (World, Reply<NodeSwap>)) {
    var w1 := Interfere(w, call.others);
    (w1, Read(call, w1.server.swap))
  }

  function GetConfig(w: World, call: Call, name: string): (r: (World, Reply<MachineConfig>)) {
    var w1 := Interfere(w, call.others);
    (w1, Read(call, if name in w1.server.configs then Some(w1.server.configs[name]) else None))
  }

  /** Listing is a read whose answer, the pools, the operator does not act on in the cluster. */
  function List(w: World, call: Call): (r: (World, Reply<()>)) {
    (Interfere(w, call.others), Read(call, Some(())))
  }

  /** The reply to a write that the server carried out, or would have. */
  function Answer(call: Call, reply: Reply<()>): (r: Reply<()>) {
    if call.fault.ReplyLost? then Error(call.fault.text) else reply
  }

  function CreateConfig(w: World, call: Call, name: string, mc: MachineConfig): (r: (World, Reply<()>)) {
    var w1 := Interfere(w, call.others);
    var s := w1.server;
    if call.fault.Refused? then (w1, Error(call.fault.text))
    else if name in s.configs then (w1, Answer(call, AlreadyExists))
    else (Take(w1, Operator, s.(configs := s.configs[name := mc], clock := s.clock + 1)), Answer(call, Reply(())))
  }

  /** Writes the conditions of a NodeSwap that nobody has written since it was read; a write that
      changes nothing leaves the version alone. */
  function UpdateStatus(w: World, call: Call, swap: NodeSwap): (r: (World, Reply<()>)) {
    var w1 := Interfere(w, call.others);
    var s := w1.server;
    if call.fault.Refused? then (w1, Error(call.fault.text))
    else if s.swap.None? then (w1, Answer(call, NotFound))
    else if s.swap.value.version != swap.version then (w1, Answer(call, Error("the object has been modified")))
    else if s.swap.value.conditions == swap.conditions then (w1, Answer(call, Reply(())))
    else
      var written := s.swap.value.(conditions := swap.conditions, version := s.clock + 1);
      (Take(w1, Operator, s.(swap := Some(written), clock := s.clock + 1)), Answer(call, Reply(())))
  }

  /** The server as an object the operator calls. */
  class ApiServer {
    var server: Server
    ghost var history: seq<Step>

    ghost function TheWorld(): (r: World)
      reads this
    {
      World(server, history)
    }

    method Act(actor: Actor, after: Server)
      modifies this
      ensures TheWorld() == Take(old(TheWorld()), actor, after)
    {
      history := history + [Step(actor, server, after)];
      server := after;
    }

    method OthersAct(o: Others)
      modifies this
      ensures TheWorld() == Interfere(old(TheWorld()), o)
    {
      if o != NOBODY {
        Act(OtherActors, Edited(server, o));
      }
    }

    method GetNodeSwap(call: Call) returns (reply: Reply<NodeSwap>)
      modifies this
      ensures (TheWorld(), reply) == GetSwap(old(TheWorld()), call)
    {
      OthersAct(call.others);
      reply := Read(call, server.swap);
    }

    method GetMachineConfig(call: Call, name: string) returns (reply: Reply<MachineConfig>)
      modifies this
      ensures (TheWorld(), reply) == GetConfig(old(TheWorld()), call, name)
    {
      OthersAct(call.others);
      reply := Read(call, if name in server.configs then Some(server.configs[name]) else None);
    }

    method ListPools(call: Call) returns (reply: Reply<()>)
      modifies this
      ensures (TheWorld(), reply) == List(old(TheWorld()), call)
    {
      OthersAct(call.others);
      reply := Read(call, Some(()));
    }

    method CreateMachineConfig(call: Call, name: string, mc: MachineConfig) returns (reply: Reply<()>)
      modifies this
      ensures (TheWorld(), reply) == CreateConfig(old(TheWorld()), call, name, mc)
    {
      OthersAct(call.others);
      if call.fault.Refused? {
        return Error(call.fault.text);
      }
      if name in server.configs {
        return Answer(call, AlreadyExists);
      }
      Act(Operator, server.(configs := server.configs[name := mc], clock := server.clock + 1));
      reply := Answer(call, Reply(()));
    }

    method UpdateNodeSwapStatus(call: Call, swap: NodeSwap) returns (reply: Reply<()>)
      modifies this
      ensures (TheWorld(), reply) == UpdateStatus(old(TheWorld()), call, swap)
    {
      OthersAct(call.others);
      if call.fault.Refused? {
        return Error(call.fault.text);
      }
      if server.swap.None? {
        return Answer(call, NotFound);
      }
      if server.swap.value.version != swap.version {
        return Answer(call, Error("the object has been modified"));
      }
      if server.swap.value.conditions != swap.conditions {
        var written := server.swap.value.(conditions := swap.conditions, version := server.clock + 1);
        Act(Operator, server.(swap := Some(written), clock := server.clock + 1));
      }
      reply := Answer(call, Reply(()));
    }
  }
}
