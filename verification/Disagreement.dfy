// src/global/orchestrator/state.rs: which answer a round of submissions gets, error by error.
module Disagreement {
  import opened Wrappers
  import opened Agreement

  // Submission i is not a broadcast of that strategy.
  ghost predicate Strays(specs: seq<(NodeId, CollectiveSpec)>, strategy: Strategy, i: nat)
    requires i < |specs|
  {
    !specs[i].1.Broadcast? || specs[i].1.strategy != strategy
  }

  ghost predicate BringsTensor(specs: seq<(NodeId, CollectiveSpec)>, i: nat) {
    i < |specs| && specs[i].1.Broadcast? && specs[i].1.metadata.Some?
  }

  ghost predicate BringsAnother(specs: seq<(NodeId, CollectiveSpec)>, i: nat) {
    BringsTensor(specs, i) && exists j: nat :: j < i && BringsTensor(specs, j)
  }

  // Nothing is wrong with the submissions before i.
  ghost predicate FineTo(specs: seq<(NodeId, CollectiveSpec)>, strategy: Strategy, i: nat) {
    i <= |specs| && forall j: nat | j < i :: !Strays(specs, strategy, j) && !BringsAnother(specs, j)
  }

  // What a scan of the submissions answers: the first one that strays or brings a second tensor decides;
  // if there is none the answer is who brought the tensor.
  ghost predicate ScanAnswers(specs: seq<(NodeId, CollectiveSpec)>, strategy: Strategy, answer: Result<NodeId, GlobalError>) {
    match answer
    case Ok(root) => FineTo(specs, strategy, |specs|) && exists i: nat :: BringsTensor(specs, i) && specs[i].0 == root
    case Err(error) =>
      if FineTo(specs, strategy, |specs|) then error == BroadcastNoTensor && forall i: nat :: !BringsTensor(specs, i)
      else exists i: nat :: i < |specs| && FineTo(specs, strategy, i) && StopsAt(specs, strategy, i, error)
  }

  ghost predicate StopsAt(specs: seq<(NodeId, CollectiveSpec)>, strategy: Strategy, i: nat, error: GlobalError)
    requires i < |specs|
  {
    if Strays(specs, strategy, i) then error == CollectiveParamsMismatch
    else BringsAnother(specs, i) && error == BroadcastMultipleTensors
  }

  ghost predicate SourceSoFar(specs: seq<(NodeId, CollectiveSpec)>, i: nat, source: Option<NodeId>) {
    match source
    case None => forall j: nat | j < i :: !BringsTensor(specs, j)
    case Some(node) => exists j: nat :: j < i && BringsTensor(specs, j) && specs[j].0 == node
  }

  lemma {:induction false} ScanMeans(specs: seq<(NodeId, CollectiveSpec)>, strategy: Strategy, i: nat, source: Option<NodeId>)
    requires FineTo(specs, strategy, i) && SourceSoFar(specs, i, source)
    ensures ScanAnswers(specs, strategy, BroadcastFrom(specs, strategy, i, source))
    decreases |specs| - i
  {
    if i < |specs| {
      if Strays(specs, strategy, i) || BringsAnother(specs, i) {
        assert StopsAt(specs, strategy, i, BroadcastFrom(specs, strategy, i, source).error);
      } else {
        var next := if BringsTensor(specs, i) then Some(specs[i].0) else source;
        assert SourceSoFar(specs, i + 1, next);
        ScanMeans(specs, strategy, i + 1, next);
      }
    }
  }

  // What a round answers, by the kind of its first submission.
  lemma AnswerMeans(specs: seq<(NodeId, CollectiveSpec)>, peers: Peers)
    ensures var answer := Agree(specs, peers);
      if specs == [] then answer == Err(CollectiveParamsMismatch)
      else if specs[0].1.Broadcast? then
        if specs[0].1.strategy == Tree(0) then answer == Err(InvalidTreeArity) else ScanAnswers(specs, specs[0].1.strategy, answer)
      else if exists i :: 0 <= i < |specs| && specs[i].1 != specs[0].1 then answer == Err(CollectiveParamsMismatch)
      else if specs[0].1.strategy == Tree(0) then answer == Err(InvalidTreeArity)
      else if specs[0].1.AllReduce? then
        if peers == map[] then answer == Err(CollectiveBeforeRegister)
        else answer.Ok? && answer.value in peers && forall n | n in peers :: answer.value <= n
      else if exists n :: n in peers && specs[0].1.root in peers[n] then answer.Ok? && answer.value in peers && specs[0].1.root in peers[answer.value]
      else answer == Err(UnknownRoot(specs[0].1.root))
  {
    if specs != [] && specs[0].1.Broadcast? && specs[0].1.strategy != Tree(0) { ScanMeans(specs, specs[0].1.strategy, 0, None); }
  }
}
