// src/local/broadcast: what every peer of a broadcast gets, in terms of the calls it was made with.
module BroadcastAnswers {
  import opened Wrappers
  import opened TreeReduce
  import opened LocalBroadcast

  // Nobody called again after call i in the same caller's name.
  ghost predicate IsLastCall<T>(history: History<T>, p: PeerId, i: nat) {
    i < |history| && history[i].caller == p && forall j | i < j < |history| :: history[j].caller != p
  }

  // The root keeps the tensor as it is; everybody else gets it on the device of its last call.
  ghost predicate Spreads<T>(copies: map<PeerId, Tensor<T>>, history: History<T>, root: PeerId, tensor: Tensor<T>) {
    && (forall p :: p in copies <==> exists i :: 0 <= i < |history| && history[i].caller == p)
    && (root in copies ==> copies[root] == tensor)
    && (forall p, i: nat | p != root && IsLastCall(history, p, i) :: p in copies && copies[p] == Tensor(history[i].device, tensor.value))
  }

  lemma {:induction false} DevicesMean<T>(history: History<T>, p: PeerId, i: nat)
    requires IsLastCall(history, p, i)
    ensures p in DevicesOf(history) && DevicesOf(history)[p] == history[i].device
  {
    if i < |history| - 1 { DevicesMean(history[..|history| - 1], p, i); }
  }

  lemma CallersMean<T>(history: History<T>, p: PeerId)
    ensures p in DevicesOf(history) <==> exists i :: 0 <= i < |history| && history[i].caller == p
  {
    if p in DevicesOf(history) {
      var r :| r in history && r.caller == p;
      var i :| 0 <= i < |history| && history[i] == r;
      assert history[i].caller == p;
    }
    if i :| 0 <= i < |history| && history[i].caller == p { assert history[i] in history; }
  }

  lemma CopiesSpread<T>(history: History<T>, root: PeerId, tensor: Tensor<T>)
    ensures Spreads(Copies(DevicesOf(history), root, tensor), history, root, tensor)
  {
    forall p { CallersMean(history, p); }
    forall p, i: nat | IsLastCall(history, p, i) { DevicesMean(history, p, i); }
  }

  // The root of a broadcast: the caller that brought the tensor, or the first caller if none did.
  ghost predicate IsRoot<T>(history: History<T>, root: PeerId) {
    if exists i :: 0 <= i < |history| && history[i].input.Some? then
      exists i :: 0 <= i < |history| && history[i].input.Some? && history[i].caller == root
    else history != [] && history[0].caller == root
  }

  lemma RootIs<T>(history: History<T>)
    requires history != []
    ensures IsRoot(history, RootOf(history))
  {
    if SourceOf(history).Some? {
      var i :| 0 <= i < |history| && history[i] == SourceOf(history).value;
      assert history[i].input.Some?;
    } else {
      assert forall i | 0 <= i < |history| :: history[i] in history;
    }
  }

  // On one node, or on the node that the tensor comes from, the tensor that was brought reaches everybody.
  lemma SourceReachesAll<T>(history: History<T>, client: Option<GlobalClient<T>>, i: nat)
    requires OneSource(history) && i < |history| && history[i].input.Some? && (client.None? || client.value.isRoot)
    ensures Outcome(history, client).Ok? && Spreads(Outcome(history, client).value, history, history[i].caller, history[i].input.value)
  {
    OnlySource(history, history[i]);
    CopiesSpread(history, history[i].caller, history[i].input.value);
  }

  // Elsewhere what was downloaded does, as if the first caller's device had held it.
  lemma DownloadReachesAll<T>(history: History<T>, client: GlobalClient<T>)
    requires history != [] && !client.isRoot && client.download.Some?
    ensures Outcome(history, Some(client)).Ok? && IsRoot(history, RootOf(history))
    ensures Spreads(Outcome(history, Some(client)).value, history, RootOf(history), Tensor(history[0].device, client.download.value))
  {
    RootIs(history);
    CopiesSpread(history, RootOf(history), Tensor(history[0].device, client.download.value));
  }

  // Without a tensor there is an error, which names where it is missing.
  lemma NothingReaches<T>(history: History<T>, client: Option<GlobalClient<T>>)
    requires history != []
    ensures client.Some? && !client.value.isRoot && client.value.download.None? ==> Outcome(history, client) == Err(Global(ParentLost))
    ensures (forall i | 0 <= i < |history| :: history[i].input.None?) ==>
      (client.None? ==> Outcome(history, client) == Err(BroadcastNoTensor)) &&
      (client.Some? && client.value.isRoot ==> Outcome(history, client) == Err(Global(NoTensor)))
  {
    if SourceOf(history).Some? { assert exists i :: 0 <= i < |history| && history[i] == SourceOf(history).value; }
  }
}
