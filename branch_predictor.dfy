/** The branch-prediction table of pin/branch_predictor.cpp: a list of branch records,
    each holding a branch id, the last recorded outcome `taken` and a hysteresis bit,
    with a static predictor and one-bit and two-bit predictors that look a branch up,
    answer with its stored outcome, update the record, and append a record for a branch
    they have not seen. The C code marks "not found" with the prediction value -1, so a
    record whose stored outcome is -1 is treated as a miss. */
module BranchPredictor {

  /** The "no prediction yet" value of the predictors' local `prediction`. */
  const NOT_FOUND: int := -1

  /** One node of the list: its `next` link is the list order of `BranchList.nodes`. */
  datatype BranchNode = BranchNode(branch: int, taken: int, hysteresis: int)

  /** The static predictor: always "taken". */
  function StaticPrediction(): (r: int)
    ensures r == 1 && r != NOT_FOUND
  {
    1
  }

  /** The index of the first node for `branch`, or `|nodes|` when there is none. */
  function Find(nodes: seq<BranchNode>, branch: int): (k: nat)
    ensures k <= |nodes|
    ensures k < |nodes| ==> nodes[k].branch == branch
    ensures forall m :: 0 <= m < k ==> nodes[m].branch != branch
  {
    if |nodes| == 0 then 0
    else if nodes[0].branch == branch then 0
    else
      var k := 1 + Find(nodes[1..], branch);
      assert forall m :: 1 <= m < k ==> nodes[m] == nodes[1..][m - 1];
      k
  }

  /** What both predictors do after the lookup: a `prediction` still equal to -1 is
      replaced by the static prediction, and a node for `branch` with outcome `actual`
      and hysteresis `h` is appended. */
  function Settle(nodes: seq<BranchNode>, prediction: int, branch: int, actual: int, h: int): (r: (int, seq<BranchNode>))
    ensures r.0 != NOT_FOUND
    ensures prediction != NOT_FOUND ==> r.0 == prediction
    ensures |r.1| == |nodes| + (if prediction == NOT_FOUND then 1 else 0)
    ensures r.1[..|nodes|] == nodes
  {
    if prediction == NOT_FOUND then (StaticPrediction(), nodes + [BranchNode(branch, actual, h)])
    else (prediction, nodes)
  }

  /** The one-bit predictor on the list `nodes`: the prediction it returns and the list
      it leaves. `h` is the hysteresis of a node it appends, which the C code never sets. */
  function OneBit(nodes: seq<BranchNode>, branch: int, actual: int, h: int): (r: (int, seq<BranchNode>))
    ensures r.0 != NOT_FOUND
    ensures r.0 != StaticPrediction() ==> Find(nodes, branch) < |nodes| && r.0 == nodes[Find(nodes, branch)].taken
    ensures |nodes| <= |r.1| <= |nodes| + 1
    ensures forall m :: 0 <= m < |nodes| && nodes[m].branch != branch ==> r.1[m] == nodes[m]
  {
    var k := Find(nodes, branch);
    if k < |nodes| then Settle(nodes[k := nodes[k].(taken := actual)], nodes[k].taken, branch, actual, h)
    else Settle(nodes, NOT_FOUND, branch, actual, h)
  }

  /** The two-bit state machine on one node after the outcome `actual`. A wrong
      prediction first clears a set hysteresis bit and only otherwise changes `taken`; a
      right one sets a clear hysteresis bit. */
  function TwoBitUpdate(node: BranchNode, actual: int): (r: BranchNode)
    ensures r.branch == node.branch
    ensures r.taken == node.taken || r.taken == actual
    ensures r.taken != node.taken ==> node.hysteresis != 1
  {
    if actual != node.taken then
      if node.hysteresis == 1 then node.(hysteresis := 0) else node.(taken := actual)
    else
      if node.hysteresis == 0 then node.(hysteresis := 1) else node
  }

  /** The two-bit predictor on the list `nodes`: the prediction it returns and the list
      it leaves. `h` is the hysteresis of a node it appends, which the C code never sets. */
  function TwoBit(nodes: seq<BranchNode>, branch: int, actual: int, h: int): (r: (int, seq<BranchNode>))
    ensures r.0 != NOT_FOUND
    ensures r.0 != StaticPrediction() ==> Find(nodes, branch) < |nodes| && r.0 == nodes[Find(nodes, branch)].taken
    ensures |nodes| <= |r.1| <= |nodes| + 1
    ensures forall m :: 0 <= m < |nodes| && nodes[m].branch != branch ==> r.1[m] == nodes[m]
  {
    var k := Find(nodes, branch);
    if k < |nodes| then Settle(nodes[k := TwoBitUpdate(nodes[k], actual)], nodes[k].taken, branch, actual, h)
    else Settle(nodes, NOT_FOUND, branch, actual, h)
  }

  /** The list the predictors keep, `branchListHead` and the nodes it links. */
  class BranchList {
    var nodes: seq<BranchNode>

    /** The empty list: `branchListHead == NULL`. */
    constructor ()
      ensures nodes == []
    {
      nodes := [];
    }

    /** Appends a node for `branch` with outcome `taken` after the last node. The C code
        leaves the new node's hysteresis uninitialised; here it is the argument
        `hysteresis`. */
    method AddBranchInfo(branch: int, taken: int, hysteresis: int)
      modifies this
      ensures nodes == old(nodes) + [BranchNode(branch, taken, hysteresis)]
    {
      var node := BranchNode(branch, taken, hysteresis);
      if |nodes| == 0 {
        nodes := [node];
      } else {
        var current := 0;
        while current + 1 < |nodes|
          invariant current < |nodes|
        {
          current := current + 1;
        }
        // The walk stops on the tail node, the only one without a successor.
        assert current == |nodes| - 1;
        nodes := nodes[..current + 1] + [node];
      }
    }

    /** Frees every node and leaves the list empty. */
    method FreeBranchList()
      modifies this
      ensures nodes == []
    {
      nodes := [];
    }

    /** The linear search both predictors start with: the index of the first node for
        `branch`, or `|nodes|` when the walk reaches the end. */
    method Lookup(branch: int) returns (k: nat)
      ensures k == Find(nodes, branch)
    {
      k := 0;
      while k < |nodes| && nodes[k].branch != branch
        invariant k <= |nodes|
        invariant forall m :: 0 <= m < k ==> nodes[m].branch != branch
      {
        k := k + 1;
      }
    }

    /** `one_bit_prediction`: returns the stored outcome of the first node for `branch`
        and overwrites it with `actual`; on a miss returns the static prediction and
        appends a node. */
    method OneBitPrediction(branch: int, actual: int, h: int) returns (prediction: int)
      modifies this
      ensures (prediction, nodes) == OneBit(old(nodes), branch, actual, h)
    {
      var k := Lookup(branch);
      prediction := NOT_FOUND;
      if k < |nodes| {
        prediction := nodes[k].taken;
        nodes := nodes[k := nodes[k].(taken := actual)];
      }
      if prediction == NOT_FOUND {
        prediction := StaticPrediction();
        AddBranchInfo(branch, actual, h);
      }
    }

    /** `two_bit_prediction`: returns the stored outcome of the first node for `branch`
        and steps its two-bit state; on a miss returns the static prediction and appends
        a node. */
    method TwoBitPrediction(branch: int, actual: int, h: int) returns (prediction: int)
      modifies this
      ensures (prediction, nodes) == TwoBit(old(nodes), branch, actual, h)
    {
      var k := Lookup(branch);
      prediction := NOT_FOUND;
      if k < |nodes| {
        prediction := nodes[k].taken;
        var p := nodes[k];
        if actual != prediction {
          if p.hysteresis == 1 {
            p := p.(hysteresis := 0);
          } else {
            p := p.(taken := actual);
          }
        } else {
          if p.hysteresis == 0 {
            p := p.(hysteresis := 1);
          }
        }
        nodes := nodes[k := p];
      }
      if prediction == NOT_FOUND {
        prediction := StaticPrediction();
        AddBranchInfo(branch, actual, h);
      }
    }
  }

  /** Each branch id has at most one node, and no node stores the outcome -1. */
  ghost predicate Tracked(nodes: seq<BranchNode>)
  {
    && (forall x, y :: 0 <= x < y < |nodes| ==> nodes[x].branch != nodes[y].branch)
    && (forall x :: 0 <= x < |nodes| ==> nodes[x].taken != NOT_FOUND)
  }

  /** The node stored for `branch`, if any. */
  function Entry(nodes: seq<BranchNode>, branch: int): (r: Option<BranchNode>)
    ensures r.Some? <==> exists m :: 0 <= m < |nodes| && nodes[m].branch == branch
    ensures r.Some? ==> r.value in nodes && r.value.branch == branch
  {
    var k := Find(nodes, branch);
    if k < |nodes| then Some(nodes[k]) else None
  }

  datatype Option<T> = None | Some(value: T)

  /** Appending a node for a branch that has none makes it that branch's entry and
      leaves every other branch's entry alone. */
  lemma {:induction false} FindAppend(nodes: seq<BranchNode>, n: BranchNode, branch: int)
    ensures Find(nodes + [n], branch) ==
              if Find(nodes, branch) < |nodes| || n.branch == branch then Find(nodes, branch) else |nodes| + 1
  {
    var k := Find(nodes, branch);
    var k2 := Find(nodes + [n], branch);
    assert forall m :: 0 <= m < |nodes| ==> (nodes + [n])[m] == nodes[m];
    if k < |nodes| {
      assert (nodes + [n])[k].branch == branch;
    } else if n.branch == branch {
      assert (nodes + [n])[|nodes|].branch == branch;
    }
  }

  /** The one-bit predictor on a miss returns the static prediction and appends a node
      holding the actual outcome; on a hit whose stored outcome is not -1 it returns the
      stored outcome of the first matching node and overwrites only that outcome. */
  lemma OneBitCases(nodes: seq<BranchNode>, branch: int, actual: int, h: int)
    ensures Find(nodes, branch) == |nodes| ==>
              OneBit(nodes, branch, actual, h) == (1, nodes + [BranchNode(branch, actual, h)])
    ensures var k := Find(nodes, branch);
            k < |nodes| && nodes[k].taken != NOT_FOUND ==>
              && OneBit(nodes, branch, actual, h).0 == nodes[k].taken
              && |OneBit(nodes, branch, actual, h).1| == |nodes|
              && OneBit(nodes, branch, actual, h).1[k] == BranchNode(branch, actual, nodes[k].hysteresis)
              && (forall m :: 0 <= m < |nodes| && m != k ==> OneBit(nodes, branch, actual, h).1[m] == nodes[m])
  {
  }

  /** The one-bit predictor as a map: with a tracked list and an outcome other than -1,
      the list stays tracked, afterwards the branch's entry records `actual`, every
      other branch keeps its entry, and the prediction is the old recorded outcome or,
      for a new branch, 1. */
  lemma OneBitRemembersOutcome(nodes: seq<BranchNode>, branch: int, actual: int, h: int, other: int)
    requires Tracked(nodes) && actual != NOT_FOUND
    ensures Tracked(OneBit(nodes, branch, actual, h).1)
    ensures Entry(OneBit(nodes, branch, actual, h).1, branch).Some?
    ensures Entry(OneBit(nodes, branch, actual, h).1, branch).value.taken == actual
    ensures other != branch ==> Entry(OneBit(nodes, branch, actual, h).1, other) == Entry(nodes, other)
    ensures OneBit(nodes, branch, actual, h).0 ==
              if Entry(nodes, branch).Some? then Entry(nodes, branch).value.taken else 1
  {
    var k := Find(nodes, branch);
    var t := OneBit(nodes, branch, actual, h).1;
    if k < |nodes| {
      assert t == nodes[k := nodes[k].(taken := actual)];
      UpdateKeepsOthers(nodes, k, nodes[k].(taken := actual), other);
    } else {
      FindAppend(nodes, BranchNode(branch, actual, h), branch);
      FindAppend(nodes, BranchNode(branch, actual, h), other);
    }
  }

  /** Replacing the first node for its branch by one with the same id changes no other
      branch's first node and keeps that node first. */
  lemma UpdateKeepsOthers(nodes: seq<BranchNode>, k: int, n: BranchNode, other: int)
    requires 0 <= k < |nodes| && n.branch == nodes[k].branch && k == Find(nodes, n.branch)
    ensures Find(nodes[k := n], n.branch) == k
    ensures other != n.branch ==> Find(nodes[k := n], other) == Find(nodes, other)
  {
    var t := nodes[k := n];
    assert t[k] == n;
    assert forall m :: 0 <= m < |nodes| && m != k ==> t[m] == nodes[m];
  }

  /** A record whose stored outcome is -1 looks like a miss: the one-bit predictor
      returns 1 for it and appends a second node for the same branch. */
  lemma StoredSentinelLooksLikeMiss()
    ensures OneBit([BranchNode(7, -1, 0)], 7, 1, 0) == (1, [BranchNode(7, 1, 0), BranchNode(7, 1, 0)])
    ensures !Tracked(OneBit([BranchNode(7, -1, 0)], 7, 1, 0).1)
  {
    var nodes := [BranchNode(7, -1, 0)];
    assert Find(nodes, 7) == 0;
    assert nodes[0 := nodes[0].(taken := 1)] == [BranchNode(7, 1, 0)];
    var t := OneBit(nodes, 7, 1, 0).1;
    assert t == [BranchNode(7, 1, 0), BranchNode(7, 1, 0)];
    assert t[0].branch == t[1].branch;
  }

  /** The two-bit transitions: a right prediction keeps `taken` and sets a clear
      hysteresis bit; a wrong one clears a set bit and keeps `taken`, and otherwise takes
      the actual outcome and keeps the bit. */
  lemma TwoBitTransitions(node: BranchNode, actual: int)
    ensures TwoBitUpdate(node, actual).branch == node.branch
    ensures actual == node.taken ==>
              TwoBitUpdate(node, actual).taken == node.taken
              && TwoBitUpdate(node, actual).hysteresis == (if node.hysteresis == 0 then 1 else node.hysteresis)
    ensures actual != node.taken && node.hysteresis == 1 ==>
              TwoBitUpdate(node, actual) == node.(hysteresis := 0)
    ensures actual != node.taken && node.hysteresis != 1 ==>
              TwoBitUpdate(node, actual) == node.(taken := actual)
  {
  }

  /** With the hysteresis bit 0 or 1 the two-bit state stays in those four states, one
      wrong outcome never flips a node whose bit is set, and two wrong outcomes in a row
      always make it predict the actual outcome. */
  lemma {:induction false} TwoBitHysteresis(node: BranchNode, actual: int)
    requires node.hysteresis == 0 || node.hysteresis == 1
    ensures TwoBitUpdate(node, actual).hysteresis == 0 || TwoBitUpdate(node, actual).hysteresis == 1
    ensures actual != node.taken && node.hysteresis == 1 ==> TwoBitUpdate(node, actual).taken == node.taken
    ensures actual != node.taken ==> TwoBitUpdate(TwoBitUpdate(node, actual), actual).taken == actual
    ensures actual == node.taken ==> TwoBitUpdate(node, actual).taken == actual
  {
  }

  /** The two-bit predictor as a map: with a tracked list and an outcome other than -1,
      the list stays tracked, the branch's entry afterwards is the two-bit step of its old
      entry (or a fresh node holding `actual`), every other branch keeps its entry, and
      the prediction is the old recorded outcome or, for a new branch, 1. */
  lemma TwoBitStepsEntry(nodes: seq<BranchNode>, branch: int, actual: int, h: int, other: int)
    requires Tracked(nodes) && actual != NOT_FOUND
    ensures Tracked(TwoBit(nodes, branch, actual, h).1)
    ensures Entry(TwoBit(nodes, branch, actual, h).1, branch) ==
              if Entry(nodes, branch).Some? then Some(TwoBitUpdate(Entry(nodes, branch).value, actual))
              else Some(BranchNode(branch, actual, h))
    ensures other != branch ==> Entry(TwoBit(nodes, branch, actual, h).1, other) == Entry(nodes, other)
    ensures TwoBit(nodes, branch, actual, h).0 ==
              if Entry(nodes, branch).Some? then Entry(nodes, branch).value.taken else 1
  {
    var k := Find(nodes, branch);
    if k < |nodes| {
      var n := TwoBitUpdate(nodes[k], actual);
      assert n.taken == nodes[k].taken || n.taken == actual;
      UpdateKeepsOthers(nodes, k, n, other);
    } else {
      FindAppend(nodes, BranchNode(branch, actual, h), branch);
      FindAppend(nodes, BranchNode(branch, actual, h), other);
    }
  }
}
