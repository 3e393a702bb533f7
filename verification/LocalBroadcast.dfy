// src/local/broadcast/op.rs, centralized.rs, tree.rs: one broadcast among the peers of a node, and what the
// other nodes bring to it.
module LocalBroadcast {
  import opened Wrappers
  import opened TreeReduce
  import Agreement
  import RootedBroadcast

  datatype Strategy = Centralized | Tree(arity: nat)

  datatype GlobalError = NoTensor | ParentLost

  datatype BroadcastError = BroadcastMultipleTensors | BroadcastNoTensor | Global(error: GlobalError)

  datatype Call = Call(caller: PeerId, device: Device)

  // A call as the server hands it on: the device is the one the caller registered with.
  datatype Registration<T> = Registration(caller: PeerId, device: Device, input: Option<Tensor<T>>)

  // The nodes' broadcast as one node meets it: whether the round made it the root and, if not, what it
  // downloads from its parent, if it still can.
  datatype GlobalClient<+T> = GlobalClient(isRoot: bool, download: Option<T>)

  // ---- what the calls so far amount to ------------------------------------------------------------

  type History<T> = seq<Registration<T>>

  function CallsOf<T>(history: History<T>): (calls: seq<Call>)
    ensures |calls| == |history|
  {
    seq(|history|, i requires 0 <= i < |history| => Call(history[i].caller, history[i].device))
  }

  // The latest call that brought a tensor.
  function SourceOf<T>(history: History<T>): (source: Option<Registration<T>>)
    ensures source.Some? ==> source.value in history && source.value.input.Some?
    ensures source.None? ==> forall r | r in history :: r.input.None?
  {
    if history == [] then None
    else
      var last := history[|history| - 1];
      assert forall r | r in history :: r == last || r in history[..|history| - 1];
      if last.input.Some? then Some(last) else SourceOf(history[..|history| - 1])
  }

  ghost predicate OneSource<T>(history: History<T>) {
    forall i, j | 0 <= i < j < |history| :: history[i].input.None? || history[j].input.None?
  }

  function RootOf<T>(history: History<T>): (root: PeerId)
    requires history != []
  {
    if SourceOf(history).Some? then SourceOf(history).value.caller else history[0].caller
  }

  function DevicesOf<T>(history: History<T>): (devices: map<PeerId, Device>)
    ensures forall r | r in history :: r.caller in devices
    ensures forall p | p in devices :: Registered(history, p, devices[p])
  {
    if history == [] then map[]
    else
      var front, last := history[..|history| - 1], history[|history| - 1];
      assert forall r | r in history :: r == last || r in front;
      assert forall p | p in DevicesOf(front) :: exists r :: r in front && r.caller == p && r.device == DevicesOf(front)[p];
      DevicesOf(front)[last.caller := last.device]
  }

  ghost predicate Registered<T>(history: History<T>, peer: PeerId, device: Device) {
    exists r :: r in history && r.caller == peer && r.device == device
  }

  // The server looks every caller's device up, so a caller has one.
  ghost predicate OneDeviceEach<T>(history: History<T>) {
    forall a, b | a in history && b in history && a.caller == b.caller :: a.device == b.device
  }

  // The tensor to spread. The root of a global round keeps its own tensor where it is; any other node
  // puts what it downloads on the first caller's device.
  function Answer<T>(history: History<T>, client: Option<GlobalClient<T>>): Result<Tensor<T>, BroadcastError>
    requires history != []
  {
    var own := if SourceOf(history).Some? then SourceOf(history).value.input else None;
    if client.None? then OkOr(own, BroadcastNoTensor)
    else if client.value.isRoot then OkOr(own, Global(NoTensor))
    else if client.value.download.Some? then Ok(Tensor(history[0].device, client.value.download.value))
    else Err(Global(ParentLost))
  }

  // Everybody's copy: moved to the peer's device, but the root's stays where the tensor was.
  function Copies<T>(devices: map<PeerId, Device>, root: PeerId, tensor: Tensor<T>): map<PeerId, Tensor<T>> {
    map p | p in devices :: if p == root then tensor else ToDevice(tensor, devices[p])
  }

  function Outcome<T>(history: History<T>, client: Option<GlobalClient<T>>): Result<map<PeerId, Tensor<T>>, BroadcastError>
    requires history != []
  {
    match Answer(history, client)
    case Err(error) => Err(error)
    case Ok(tensor) => Ok(Copies(DevicesOf(history), RootOf(history), tensor))
  }

  // ---- spreading it ------------------------------------------------------------------------------

  method BroadcastCentralized<T>(devices: map<PeerId, Device>, central: PeerId, tensor: Tensor<T>) returns (output: map<PeerId, Tensor<T>>)
    requires central in devices
    ensures output == Copies(devices, central, tensor)
  {
    output := map[];
    var left := devices - {central};
    while left != map[]
      invariant left.Keys <= devices.Keys - {central} && forall p | p in left :: left[p] == devices[p]
      invariant output.Keys == devices.Keys - {central} - left.Keys
      invariant forall p | p in output :: output[p] == ToDevice(tensor, devices[p])
      decreases |left|
    {
      var p :| p in left;
      output := output[p := ToDevice(tensor, left[p])];
      left := left - {p};
    }
    output := output[central := tensor];
  }

  // Taking the places out of the map in any order, which includes every order sorted by device.
  method ListPlaces(devices: map<PeerId, Device>, root: PeerId) returns (places: seq<Place>)
    requires root in devices
    ensures places != [] && places[0] == (root, devices[root]) && |places| == |devices|
    ensures forall p | p in devices :: (p, devices[p]) in places
    ensures forall i | 0 <= i < |places| :: places[i].0 in devices && places[i] == (places[i].0, devices[places[i].0])
    ensures forall i, j | 0 <= i < j < |places| :: places[i].0 != places[j].0
  {
    places := [(root, devices[root])];
    var left := devices - {root};
    while left != map[]
      invariant |places| + |left| == |devices| && places != [] && places[0] == (root, devices[root])
      invariant left.Keys <= devices.Keys && forall p | p in left :: left[p] == devices[p]
      invariant forall p | p in devices :: p in left || (p, devices[p]) in places
      invariant forall i | 0 <= i < |places| :: places[i].0 in devices && places[i].0 !in left && places[i] == (places[i].0, devices[places[i].0])
      invariant forall i, j | 0 <= i < j < |places| :: places[i].0 != places[j].0
      decreases |left|
    {
      var p :| p in left;
      places := places + [(p, left[p])];
      left := left - {p};
    }
  }

  method BroadcastTree<T>(devices: map<PeerId, Device>, root: PeerId, tensor: Tensor<T>, arity: nat) returns (output: map<PeerId, Tensor<T>>)
    requires root in devices && (arity > 0 || |devices| == 1)
    ensures output == Copies(devices, root, tensor)
  {
    var places := ListPlaces(devices, root);
    var out := BroadcastInner(tensor, places, arity);
    output := map[];
    for i := 0 to |out|
      invariant forall k | 0 <= k < i :: out[k].0 in output
      invariant forall p | p in output :: exists k :: 0 <= k < |out| && out[k] == (p, output[p])
    {
      output := output[out[i].0 := out[i].1];
    }
    forall p | p in devices ensures p in output { LandedSomewhere(tensor, places, out, devices, p); }
    forall p | p in output ensures p in devices && output[p] == Copies(devices, root, tensor)[p] {
      var k :| 0 <= k < |out| && out[k] == (p, output[p]);
      LandedAsCopy(tensor, places, out, devices, root, k);
    }
  }

  ghost predicate Lists(places: seq<Place>, devices: map<PeerId, Device>, root: PeerId) {
    && places != [] && root in devices && places[0] == (root, devices[root])
    && (forall p | p in devices :: (p, devices[p]) in places)
    && (forall i | 0 <= i < |places| :: places[i].0 in devices && places[i] == (places[i].0, devices[places[i].0]))
    && (forall i, j | 0 <= i < j < |places| :: places[i].0 != places[j].0)
  }

  lemma LandedSomewhere<T>(tensor: Tensor<T>, places: seq<Place>, out: seq<Entry<T>>, devices: map<PeerId, Device>, p: PeerId)
    requires places != [] && p in devices && (p, devices[p]) in places
    requires multiset(Places(out)) == multiset(Landed(tensor, places))
    ensures exists k :: 0 <= k < |out| && out[k].0 == p
  {
    var i :| 0 <= i < |places| && places[i] == (p, devices[p]);
    var landed := Landed(tensor, places);
    assert landed[i].0 == p;
    assert landed[i] in multiset(landed);
    assert landed[i] in Places(out);
    var k :| 0 <= k < |out| && Places(out)[k] == landed[i];
  }

  lemma LandedAsCopy<T>(tensor: Tensor<T>, places: seq<Place>, out: seq<Entry<T>>, devices: map<PeerId, Device>, root: PeerId, k: nat)
    requires Lists(places, devices, root) && AllHold(out, tensor.value) && k < |out|
    requires multiset(Places(out)) == multiset(Landed(tensor, places))
    ensures out[k].0 in devices && out[k].1 == Copies(devices, root, tensor)[out[k].0]
  {
    var landed := Landed(tensor, places);
    assert Places(out)[k] in multiset(Places(out));
    assert Places(out)[k] in landed;
    var i :| 0 <= i < |landed| && landed[i] == Places(out)[k];
    assert out[k].1.value == tensor.value;
    assert landed[i].0 == places[i].0;
  }

  // ---- the operation -----------------------------------------------------------------------------

  class BroadcastOp<T> {
    var calls: seq<Call>
    var tensor: Option<Tensor<T>>
    var root: Option<PeerId>
    ghost var history: History<T>

    ghost predicate Valid()
      reads this
    {
      var source := SourceOf(history);
      && calls == CallsOf(history) && OneSource(history)
      && tensor == (if source.Some? then source.value.input else None)
      && root == (if source.Some? then Some(source.value.caller) else None)
    }

    constructor ()
      ensures Valid() && history == []
    {
      calls, tensor, root := [], None, None;
      history := [];
    }

    function EffectiveRoot(): PeerId
      requires calls != []
      reads this
    {
      if root.Some? then root.value else calls[0].caller
    }

    // A second tensor is refused; otherwise the call is kept, and the last of `peerCount` calls makes
    // the operation ready.
    method RegisterCall(caller: PeerId, input: Option<Tensor<T>>, device: Device, peerCount: nat) returns (result: Result<bool, BroadcastError>)
      requires Valid()
      modifies this
      ensures Valid()
      ensures result.Err? <==> input.Some? && SourceOf(old(history)).Some?
      ensures result.Err? ==> result == Err(BroadcastMultipleTensors) && history == old(history)
      ensures result.Ok? ==> history == old(history) + [Registration(caller, device, input)] && result.value == (|history| == peerCount)
    {
      if input.Some? {
        if tensor.Some? { return Err(BroadcastMultipleTensors); }
        tensor, root := input, Some(caller);
      }
      calls := calls + [Call(caller, device)];
      ghost var registration := Registration(caller, device, input);
      Registering(history, registration);
      history := history + [registration];
      return Ok(|calls| == peerCount);
    }

    method PeerDevices() returns (devices: map<PeerId, Device>)
      requires calls == CallsOf(history)
      ensures devices == DevicesOf(history)
    {
      devices := map[];
      assert history[..0] == [];
      for i := 0 to |calls|
        invariant devices == DevicesOf(history[..i])
      {
        assert history[..i + 1][..i] == history[..i];
        devices := devices[calls[i].caller := calls[i].device];
      }
      assert history[..|calls|] == history;
    }

    // The node's part in the nodes' broadcast: the root gets its own tensor back.
    method GlobalBroadcast(client: GlobalClient<T>) returns (result: Result<Tensor<T>, BroadcastError>)
      requires Valid() && history != []
      ensures result == Answer(history, Some(client))
    {
      if client.isRoot {
        if tensor.None? { return Err(Global(NoTensor)); }
        return Ok(tensor.value);
      }
      if client.download.None? { return Err(Global(ParentLost)); }
      return Ok(Tensor(calls[0].device, client.download.value));
    }

    method Broadcast(strategy: Strategy, client: Option<GlobalClient<T>>) returns (result: Result<map<PeerId, Tensor<T>>, BroadcastError>)
      requires Valid() && history != [] && (strategy.Centralized? || strategy.arity > 0 || |DevicesOf(history)| == 1)
      modifies this
      ensures history == old(history) && calls == old(calls) && root == old(root)
      ensures result == Outcome(history, client)
      ensures tensor == if result.Ok? then None else old(tensor)
    {
      if client.Some? {
        var answer := GlobalBroadcast(client.value);
        if answer.Err? { return Err(answer.error); }
        tensor := Some(answer.value);
      }
      if tensor.None? { return Err(BroadcastNoTensor); }
      var taken := tensor.value;
      tensor := None;
      var central := EffectiveRoot();
      var devices := PeerDevices();
      RootRegistered(history);
      var copies;
      match strategy {
        case Tree(arity) => copies := BroadcastTree(devices, central, taken, arity);
        case Centralized => copies := BroadcastCentralized(devices, central, taken);
      }
      return Ok(copies);
    }

    // Every caller gets one reply: its own copy, or the error. The copies are used up.
    method Execute(strategy: Strategy, client: Option<GlobalClient<T>>) returns (replies: seq<Reply<T>>)
      requires Valid() && history != [] && (strategy.Centralized? || strategy.arity > 0 || |DevicesOf(history)| == 1)
      requires DistinctCallers(CallsOf(history))
      modifies this
      ensures history == old(history)
      ensures AnswersEach(CallsOf(history), Outcome(history, client), replies)
    {
      var result := Broadcast(strategy, client);
      match result {
        case Err(error) => replies := Fail(calls, error);
        case Ok(copies) =>
          CallersServed(history, copies);
          replies := HandOut(calls, copies);
      }
    }
  }

  type Reply<T> = (PeerId, Result<Tensor<T>, BroadcastError>)

  ghost predicate AnswersEach<T>(calls: seq<Call>, result: Result<map<PeerId, Tensor<T>>, BroadcastError>, replies: seq<Reply<T>>) {
    |replies| == |calls| && forall i | 0 <= i < |calls| :: replies[i].0 == calls[i].caller && IsAnswer(result, calls[i].caller, replies[i].1)
  }

  ghost predicate IsAnswer<T>(result: Result<map<PeerId, Tensor<T>>, BroadcastError>, caller: PeerId, answer: Result<Tensor<T>, BroadcastError>) {
    match result
    case Err(error) => answer == Err(error)
    case Ok(copies) => caller in copies && answer == Ok(copies[caller])
  }

  method Fail<T>(calls: seq<Call>, error: BroadcastError) returns (replies: seq<Reply<T>>)
    ensures AnswersEach(calls, Err(error), replies)
  {
    replies := seq(|calls|, i requires 0 <= i < |calls| => (calls[i].caller, Err(error)));
  }

  ghost predicate DistinctCallers(calls: seq<Call>) { forall i, j | 0 <= i < j < |calls| :: calls[i].caller != calls[j].caller }

  ghost predicate CallersFrom(calls: seq<Call>, from: nat, peers: set<PeerId>) {
    forall p :: p in peers <==> exists k :: from <= k < |calls| && calls[k].caller == p
  }

  lemma OneCallerLess(calls: seq<Call>, from: nat, peers: set<PeerId>)
    requires DistinctCallers(calls) && from < |calls| && CallersFrom(calls, from, peers)
    ensures calls[from].caller in peers && CallersFrom(calls, from + 1, peers - {calls[from].caller})
  {
  }

  // Each caller takes its copy out of the map, which is empty in the end.
  method HandOut<T>(calls: seq<Call>, copies: map<PeerId, Tensor<T>>) returns (replies: seq<Reply<T>>)
    requires DistinctCallers(calls) && CallersFrom(calls, 0, copies.Keys)
    ensures AnswersEach(calls, Ok(copies), replies)
  {
    var tensors := copies;
    replies := [];
    for i := 0 to |calls|
      invariant AnswersEach(calls[..i], Ok(copies), replies)
      invariant CallersFrom(calls, i, tensors.Keys) && tensors.Keys <= copies.Keys
      invariant forall p | p in tensors :: tensors[p] == copies[p]
    {
      var caller := calls[i].caller;
      OneCallerLess(calls, i, tensors.Keys);
      replies := replies + [(caller, Ok(tensors[caller]))];
      tensors := tensors - {caller};
    }
    assert calls[..|calls|] == calls;
    assert tensors.Keys == {};
    assert tensors == map[];
  }

  lemma CallersServed<T>(history: History<T>, copies: map<PeerId, Tensor<T>>)
    requires copies.Keys == DevicesOf(history).Keys
    ensures CallersFrom(CallsOf(history), 0, copies.Keys)
  {
    var calls := CallsOf(history);
    forall p ensures p in copies.Keys <==> exists k :: 0 <= k < |calls| && calls[k].caller == p {
      if p in copies.Keys {
        assert Registered(history, p, DevicesOf(history)[p]);
        var r :| r in history && r.caller == p;
        var k :| 0 <= k < |history| && history[k] == r;
        assert calls[k].caller == p;
      }
      if k :| 0 <= k < |calls| && calls[k].caller == p { assert history[k] in history; }
    }
  }

  function ReplyTo<T>(history: History<T>, client: Option<GlobalClient<T>>, caller: PeerId): Result<Tensor<T>, BroadcastError>
    requires exists r :: r in history && r.caller == caller
  {
    match Outcome(history, client)
    case Err(error) => Err(error)
    case Ok(copies) => Ok(copies[caller])
  }

  lemma Registering<T>(history: History<T>, registration: Registration<T>)
    requires OneSource(history) && (registration.input.Some? ==> SourceOf(history).None?)
    ensures OneSource(history + [registration]) && CallsOf(history + [registration]) == CallsOf(history) + [Call(registration.caller, registration.device)]
    ensures SourceOf(history + [registration]) == if registration.input.Some? then Some(registration) else SourceOf(history)
  {
    assert (history + [registration])[..|history|] == history;
  }

  lemma RootRegistered<T>(history: History<T>)
    requires history != []
    ensures RootOf(history) in DevicesOf(history)
  {
    assert history[0] in history;
  }

  // ---- where the copies end ----------------------------------------------------------------------

  ghost predicate AtHome<T>(history: History<T>, copies: map<PeerId, Tensor<T>>) {
    forall r | r in history :: r.caller in copies && copies[r.caller].device == r.device
  }

  ghost predicate SourcesAtHome<T>(history: History<T>) {
    forall r | r in history && r.input.Some? :: r.input.value.device == r.device
  }

  ghost predicate Carries<T>(copies: map<PeerId, Tensor<T>>, value: T) {
    forall p | p in copies :: copies[p].value == value
  }

  // A node is told that it is the root exactly when one of its peers brought the tensor.
  ghost predicate RootBrings<T>(history: History<T>, client: Option<GlobalClient<T>>) {
    client.Some? ==> (client.value.isRoot <==> SourceOf(history).Some?)
  }

  lemma OnlySource<T>(history: History<T>, r: Registration<T>)
    requires OneSource(history) && r in history && r.input.Some?
    ensures SourceOf(history) == Some(r)
    decreases |history|
  {
    var front, last := history[..|history| - 1], history[|history| - 1];
    var i :| 0 <= i < |history| && history[i] == r;
    if i < |history| - 1 {
      assert front[i] == r && last.input.None?;
      OnlySource(front, r);
    }
  }

  lemma DeviceOfCaller<T>(history: History<T>, r: Registration<T>)
    requires OneDeviceEach(history) && r in history
    ensures DevicesOf(history)[r.caller] == r.device
  {
    assert Registered(history, r.caller, DevicesOf(history)[r.caller]);
  }

  // All copies are at home if and only if the tensor that a caller handed in was on the device that
  // this caller registered with. Where no caller brought one they always are: what comes from the
  // other nodes is put on the first caller's device, and the first caller is the root here.
  lemma CopiesAtHomeExactlyWhen<T>(history: History<T>, client: Option<GlobalClient<T>>)
    requires history != [] && OneSource(history) && OneDeviceEach(history) && RootBrings(history, client)
    requires Outcome(history, client).Ok?
    ensures AtHome(history, Outcome(history, client).value) <==> SourcesAtHome(history)
    ensures SourceOf(history).None? ==> AtHome(history, Outcome(history, client).value)
  {
    var copies, source := Outcome(history, client).value, SourceOf(history);
    assert history[0] in history;
    forall r | r in history
      ensures r.caller in copies && (r.caller != RootOf(history) ==> copies[r.caller].device == r.device)
    {
      DeviceOfCaller(history, r);
    }
    if source.Some? {
      forall r | r in history && r.input.Some? ensures r == source.value { OnlySource(history, r); }
    }
  }

  // Every copy has the tensor's value, wherever it ends.
  lemma CopiesCarryTheTensor<T>(history: History<T>, client: Option<GlobalClient<T>>)
    requires history != []
    ensures Outcome(history, client).Ok? <==> Answer(history, client).Ok?
    ensures Outcome(history, client).Ok? ==>
      Outcome(history, client).value.Keys == DevicesOf(history).Keys && Carries(Outcome(history, client).value, Answer(history, client).value.value)
  {
  }

  // The concrete failure: a peer registered with device 0 hands in a tensor that is on device 1.
  lemma CopyMayStray<T>(value: T, client: Option<GlobalClient<T>>) returns (history: History<T>)
    requires client.None? || client.value.isRoot
    ensures history == [Registration(0, 0, Some(Tensor(1, value)))] && OneSource(history) && OneDeviceEach(history)
    ensures RootBrings(history, client) && Outcome(history, client) == Ok(map[0 := Tensor(1, value)])
    ensures !AtHome(history, Outcome(history, client).value)
  {
    var r := Registration(0, 0, Some(Tensor(1, value)));
    history := [r];
    assert r in history && history[..0] == [];
    assert DevicesOf(history) == map[0 := 0];
    assert Copies(map[0 := 0], 0, Tensor(1, value)) == map[0 := Tensor(1, value)];
  }

  // In an agreed broadcast the root is the node that announced a tensor, and no other node did.
  lemma RootAnnouncedTheTensor(specs: seq<(Agreement.NodeId, Agreement.CollectiveSpec)>, peers: Agreement.Peers, i: nat, root: Agreement.NodeId)
    requires i < |specs| && Agreement.DistinctNodes(specs) && specs[i].1.Broadcast?
    requires Agreement.Agree(specs, peers) == Result.Ok(root)
    ensures specs[i].0 == root <==> specs[i].1.metadata.Some?
  {
    var strategy := specs[0].1.strategy;
    Agreement.BroadcastMeaning(specs, strategy, 0, None);
    var k :| 0 <= k < |specs| && Agreement.SourceAt(specs, |specs|, k, root);
  }

  function OwnValue<T>(history: History<T>): Option<T> {
    if SourceOf(history).Some? then Some(SourceOf(history).value.input.value.value) else None
  }

  // In every run of the nodes' broadcast, whoever finishes its part spreads the source's value to every
  // peer of its node; the node that brought the tensor is position 0.
  lemma EveryPeerGetsTheSource<T>(plan: RootedBroadcast.Plan<T>, run: seq<RootedBroadcast.State<T>>, i: nat, p: nat, history: History<T>)
    requires plan.Valid() && RootedBroadcast.IsRun(plan, run) && i < |run| && p < plan.Size() == |run[i].nodes| && run[i].nodes[p].Done?
    requires history != [] && OneSource(history) && OneDeviceEach(history)
    requires plan.tensors[p] == OwnValue(history) && (p == 0 <==> SourceOf(history).Some?)
    ensures var outcome := Outcome(history, Some(GlobalClient(p == 0, Some(run[i].nodes[p].tensor))));
      && plan.tensors[0].Some? && outcome.Ok? && outcome.value.Keys == DevicesOf(history).Keys
      && Carries(outcome.value, plan.tensors[0].value) && (AtHome(history, outcome.value) <==> SourcesAtHome(history))
  {
    var client := Some(GlobalClient(p == 0, Some(run[i].nodes[p].tensor)));
    RootedBroadcast.FinishedNodesHoldTheRoots(plan, run, i, p);
    CopiesCarryTheTensor(history, client);
    CopiesAtHomeExactlyWhen(history, client);
  }
}
