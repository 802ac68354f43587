/**
 * One consensus node: its state record, the operations that change it
 * (stop, start, the message handler) and the round loop.
 *
 * The first half describes the state machine on values; the class `Node`
 * at the end holds the state in fields and is specified by those functions.
 */
module Nodes {
  import opened Types
  import opened Decision
  import opened Inbox

  /** The round cap: the loop stops undecided once `k` reaches it. */
  const MaxRounds: nat := 50

  /**
   * The invariant every reachable state keeps. A stopped node, and a faulty
   * one, hold `null` in `x`, `decided` and `k`; a running correct node holds
   * all three, its round within the cap, and a decided value that is 0 or 1.
   */
  predicate WellFormed(s: NodeState, faulty: bool)
  {
    if s.killed || faulty then
      s.x == None && s.decided == None && s.k == None
    else
      s.x.Some? && s.decided.Some? && s.k.Some? && s.k.value <= MaxRounds &&
      (s.decided == Some(true) ==> s.x.value != Undetermined)
  }

  /** The state a node is created in, which depends on whether it is faulty. */
  function InitialState(initialValue: Value, faulty: bool): (s: NodeState)
    ensures WellFormed(s, faulty)
    ensures !s.killed
    ensures !faulty ==> s.x == Some(initialValue) && s.decided == Some(false) && s.k == Some(0)
  {
    if faulty then NodeState(false, None, None, None)
    else NodeState(false, Some(initialValue), Some(false), Some(0))
  }

  /** The state after a stop: killed, with every other field cleared. */
  function Stopped(s: NodeState): (r: NodeState)
    ensures r.killed && r.x == None && r.decided == None && r.k == None
    ensures WellFormed(r, false) && WellFormed(r, true)
  {
    s.(killed := true, x := None, decided := None, k := None)
  }

  /** Stopping twice is the same as stopping once. */
  lemma StopIdempotent(s: NodeState)
    ensures Stopped(Stopped(s)) == Stopped(s)
  {
  }

  /** The guard of the round loop: not decided, not killed, and under the round cap. */
  predicate Continues(s: NodeState)
  {
    s.decided != Some(true) && !s.killed && RoundOrZero(s.k) < MaxRounds
  }

  /**
   * The votes a round works on: the node's own value alone when it is the
   * only node, otherwise the batch that arrived for its current round.
   */
  function RoundVotes(s: NodeState, n: int, arrived: nat -> seq<Vote>): seq<Value>
    requires s.x.Some? && s.k.Some?
  {
    if n == 1 then [s.x.value] else arrived(s.k.value)
  }

  /**
   * One iteration of the round loop on `votes`: decide when the rule allows
   * it, otherwise adopt the provisional value, and advance the round.
   */
  function RoundStep(s: NodeState, votes: seq<Value>, f: int): (r: NodeState)
    ensures r.killed == s.killed
    ensures r.k == Some(RoundOrZero(s.k) + 1)
    ensures r.x.Some? && r.x.value != Undetermined
    ensures r.decided == s.decided || r.decided == Some(true)
    ensures r.decided == Some(true) && s.decided != Some(true) ==> MeetsThreshold(votes, f, r.x.value)
    ensures r.decided == Some(true) && s.decided != Some(true) ==> MajorityValue(votes, f) == Some(r.x.value)
    ensures s.decided != Some(true) ==> (r.decided == Some(true) <==> MajorityValue(votes, f).Some?)
    ensures MajorityValue(votes, f).Some? ==> r.x == Some(MajorityValue(votes, f).value)
    ensures MajorityValue(votes, f).None? ==> r.decided == s.decided
    ensures r.decided != Some(true) ==> r.x == Some(SimpleMajority(votes))
    ensures WellFormed(s, false) && Continues(s) ==> WellFormed(r, false)
  {
    var k' := Some(RoundOrZero(s.k) + 1);
    match MajorityValue(votes, f)
    case Some(v) => s.(x := Some(v), decided := Some(true), k := k')
    case None => s.(x := Some(SimpleMajority(votes)), k := k')
  }

  /**
   * The round loop of a correct node from `s`, where `arrived(k)` is the
   * batch of votes the quorum wait returns in round `k`.
   */
  function Loop(s: NodeState, n: int, f: int, arrived: nat -> seq<Vote>): (r: NodeState)
    requires WellFormed(s, false)
    ensures WellFormed(r, false)
    ensures !Continues(r)
    ensures r.killed == s.killed
    ensures !s.killed ==> r.decided == Some(true) || r.k == Some(MaxRounds)
    ensures RoundOrZero(s.k) <= RoundOrZero(r.k)
    ensures s.decided == Some(true) ==> r == s
    decreases MaxRounds - RoundOrZero(s.k)
  {
    if !Continues(s) then s
    else Loop(RoundStep(s, RoundVotes(s, n, arrived), f), n, f, arrived)
  }

  /** A running node's loop is its first round followed by the loop from there. */
  lemma LoopUnfold(s: NodeState, n: int, f: int, arrived: nat -> seq<Vote>) returns (t: NodeState)
    requires WellFormed(s, false)
    requires Loop(s, n, f, arrived) != s
    ensures Continues(s) && t == RoundStep(s, RoundVotes(s, n, arrived), f)
    ensures WellFormed(t, false) && Loop(s, n, f, arrived) == Loop(t, n, f, arrived)
  {
    t := RoundStep(s, RoundVotes(s, n, arrived), f);
  }

  /** `t` is the state before a round on its own batch that decides and leaves `r`. */
  predicate DecidingRound(t: NodeState, n: int, f: int, arrived: nat -> seq<Vote>, r: NodeState)
  {
    WellFormed(t, false) && Continues(t) && t.decided != Some(true) &&
    RoundStep(t, RoundVotes(t, n, arrived), f) == r && r.decided == Some(true)
  }

  /**
   * A node that ends the loop decided, having started it undecided, decided in
   * its last round, on the value the rule gives for that round's batch.
   */
  lemma {:induction false} LoopDecidesInLastRound(s: NodeState, n: int, f: int, arrived: nat -> seq<Vote>)
    requires WellFormed(s, false) && s.decided == Some(false)
    requires Loop(s, n, f, arrived).decided == Some(true)
    ensures var r := Loop(s, n, f, arrived);
      exists t :: DecidingRound(t, n, f, arrived, r) &&
        t.k.value == r.k.value - 1 && MajorityValue(RoundVotes(t, n, arrived), f) == r.x
    ensures var r := Loop(s, n, f, arrived);
      n != 1 ==> r.k.value >= 1 && MajorityValue(arrived(r.k.value - 1), f) == r.x
    decreases MaxRounds - RoundOrZero(s.k)
  {
    var t := LoopUnfold(s, n, f, arrived);
    if t.decided == Some(false) {
      LoopDecidesInLastRound(t, n, f, arrived);
    } else {
      assert Loop(t, n, f, arrived) == t;
      assert DecidingRound(s, n, f, arrived, t);
    }
  }

  /**
   * Every round of a running undecided node adopts 0 or 1, so the undetermined
   * marker never survives the first round.
   */
  lemma {:induction false} LoopLeavesNoUndetermined(s: NodeState, n: int, f: int, arrived: nat -> seq<Vote>)
    requires WellFormed(s, false) && Continues(s)
    ensures Loop(s, n, f, arrived).x.value != Undetermined
    decreases MaxRounds - RoundOrZero(s.k)
  {
    var t := RoundStep(s, RoundVotes(s, n, arrived), f);
    if Continues(t) {
      LoopLeavesNoUndetermined(t, n, f, arrived);
    }
  }

  /** A round whose batch lets the rule give a value decides that value, and the loop ends there. */
  lemma RuleValueEndsLoop(s: NodeState, n: int, f: int, arrived: nat -> seq<Vote>, v: Vote)
    requires WellFormed(s, false) && Continues(s)
    requires MajorityValue(RoundVotes(s, n, arrived), f) == Some(v)
    ensures Loop(s, n, f, arrived) == s.(x := Some(v), decided := Some(true), k := Some(s.k.value + 1))
  {
  }

  /** A round whose batch is unanimous and large enough decides its value, and the loop ends there. */
  lemma UnanimousRoundDecides(s: NodeState, n: int, f: int, arrived: nat -> seq<Vote>, v: Vote)
    requires WellFormed(s, false) && Continues(s) && n != 1 && f >= 0
    requires forall i | 0 <= i < |arrived(s.k.value)| :: arrived(s.k.value)[i] == v
    requires if f == 0 then |arrived(s.k.value)| > 0 else |arrived(s.k.value)| >= 2 * f + 1
    ensures Loop(s, n, f, arrived) == NodeState(false, Some(v), Some(true), Some(s.k.value + 1))
  {
    Unanimity(arrived(s.k.value), f, v);
  }

  /** A node alone in its cluster with F == 0 decides its own 0/1 value in the round it is in. */
  lemma SingleNodeDecidesOwnValue(s: NodeState, arrived: nat -> seq<Vote>)
    requires WellFormed(s, false) && Continues(s) && s.x.value != Undetermined
    ensures Loop(s, 1, 0, arrived) == s.(decided := Some(true), k := Some(s.k.value + 1))
  {
  }

  /** A lone node starting from "?" with F == 0 adopts 1 in one round and decides 1 in the next. */
  lemma SingleNodeUndeterminedDecidesOne(s: NodeState, arrived: nat -> seq<Vote>)
    requires WellFormed(s, false) && Continues(s) && s.x == Some(Undetermined)
    requires s.k.value + 1 < MaxRounds
    ensures Loop(s, 1, 0, arrived) == s.(x := Some(One), decided := Some(true), k := Some(s.k.value + 2))
  {
  }

  /**
   * A lone node with F > 0 can never collect 2F+1 votes: it adopts 1 if it
   * started at "?" and then keeps its value, and stops undecided at the round cap.
   */
  lemma {:induction false} SingleNodeWithFaultsNeverDecides(s: NodeState, f: int, arrived: nat -> seq<Vote>)
    requires WellFormed(s, false) && !s.killed && s.decided == Some(false) && f > 0
    ensures Loop(s, 1, f, arrived).decided == Some(false)
    ensures Loop(s, 1, f, arrived).k == Some(MaxRounds)
    decreases MaxRounds - RoundOrZero(s.k)
  {
    if Continues(s) {
      var votes := RoundVotes(s, 1, arrived);
      assert Count(votes, Zero) <= 1 && Count(votes, One) <= 1;
      SingleNodeWithFaultsNeverDecides(RoundStep(s, votes, f), f, arrived);
    }
  }

  /** A node of a cluster of `n` nodes tolerating `f` faults, recording votes into `inbox`. */
  class Node {
    const nodeId: int
    const n: int
    const f: int
    const faulty: bool
    const inbox: MessageBuffer

    var killed: bool
    var x: Option<Value>
    var decided: Option<bool>
    var k: Option<nat>

    /** The state as a state query reports it. */
    function State(): NodeState
      reads this
    {
      NodeState(killed, x, decided, k)
    }

    ghost predicate Valid()
      reads this
    {
      WellFormed(State(), faulty)
    }

    constructor (nodeId: int, n: int, f: int, initialValue: Value, faulty: bool, inbox: MessageBuffer)
      ensures Valid()
      ensures State() == InitialState(initialValue, faulty)
      ensures this.nodeId == nodeId && this.n == n && this.f == f
      ensures this.faulty == faulty && this.inbox == inbox
    {
      this.nodeId := nodeId;
      this.n := n;
      this.f := f;
      this.faulty := faulty;
      this.inbox := inbox;
      killed := false;
      x := Some(initialValue);
      decided := Some(false);
      k := Some(0);
      if faulty {
        x := None;
        decided := None;
        k := None;
      }
    }

    /** The stop request: always accepted. */
    method Stop()
      modifies this
      ensures Valid()
      ensures State() == Stopped(old(State()))
    {
      killed := true;
      x := None;
      decided := None;
      k := None;
    }

    /**
     * The message handler: refused when the node is stopped or faulty;
     * otherwise a 0 or 1 is recorded under the node's current round and any
     * other value is accepted and dropped.
     */
    method Message(value: Option<Value>) returns (accepted: bool)
      requires Valid()
      modifies inbox
      ensures accepted == (!killed && !faulty)
      ensures accepted && value.Some? && value.value != Undetermined ==>
        inbox.entries == Appended(old(inbox.entries), k.value, value.value)
      ensures !(accepted && value.Some? && value.value != Undetermined) ==>
        inbox.entries == old(inbox.entries)
    {
      if killed || faulty {
        return false;
      }
      if value.Some? && value.value != Undetermined {
        inbox.Push(k.value, value.value);
      }
      return true;
    }

    /**
     * One poll of the quorum wait in the current round: the node's own value
     * when it is alone, otherwise the round's recorded votes once there are at
     * least N-1-F of them, and `None` while the wait goes on.
     */
    method PollInbox() returns (votes: Option<seq<Value>>)
      requires Valid() && !faulty && !killed
      ensures n == 1 ==> votes == Some([x.value])
      ensures n != 1 ==> (votes.Some? <==> k.value in inbox.entries && |inbox.entries[k.value]| >= n - 1 - f)
      ensures n != 1 && votes.Some? ==> votes.value == inbox.entries[k.value]
      ensures n != 1 && votes.Some? ==> Count(votes.value, Zero) + Count(votes.value, One) == |votes.value|
    {
      if n == 1 {
        return Some([x.value]);
      }
      if k.value in inbox.entries && |inbox.entries[k.value]| >= n - 1 - f {
        var messages: seq<Value> := inbox.entries[k.value];
        CountsWithinLength(messages);
        return Some(messages);
      }
      return None;
    }

    /** One iteration of the round loop, on the votes the quorum wait returned. */
    method Round(votes: seq<Value>)
      requires Valid() && !faulty && Continues(State())
      modifies this
      ensures Valid()
      ensures State() == RoundStep(old(State()), votes, f)
    {
      var majority := MajorityValue(votes, f);
      if majority.Some? {
        x := Some(majority.value);
        decided := Some(true);
      } else {
        x := Some(SimpleMajority(votes));
      }
      k := Some(RoundOrZero(k) + 1);
    }

    /** The round loop; a faulty node returns at once. */
    method StartConsensus(arrived: nat -> seq<Vote>)
      requires Valid()
      modifies this
      ensures Valid()
      ensures State() == if faulty then old(State()) else Loop(old(State()), n, f, arrived)
    {
      if faulty {
        return;
      }
      while Continues(State())
        invariant Valid()
        invariant Loop(State(), n, f, arrived) == Loop(old(State()), n, f, arrived)
        decreases MaxRounds - RoundOrZero(k)
      {
        var votes := RoundVotes(State(), n, arrived);
        Round(votes);
      }
    }

    /** The start request: refused by a stopped node, otherwise it runs the round loop. */
    method Start(arrived: nat -> seq<Vote>) returns (accepted: bool)
      requires Valid()
      modifies this
      ensures Valid()
      ensures accepted == !old(killed)
      ensures State() == if !accepted || faulty then old(State()) else Loop(old(State()), n, f, arrived)
    {
      if killed {
        return false;
      }
      StartConsensus(arrived);
      return true;
    }
  }

  /**
   * Two nodes created over the same buffer, as the program does: a vote sent
   * to node 1 completes the round-0 quorum of node 0, which received nothing.
   */
  method SharedInboxExample() returns (seen: Option<seq<Value>>)
    ensures seen == Some([One])
  {
    var buffer := new MessageBuffer();
    var a := new Node(0, 3, 1, Zero, false, buffer);
    var b := new Node(1, 3, 1, Zero, false, buffer);
    var accepted := b.Message(Some(One));
    assert accepted && buffer.entries == Appended(map[], 0, One);
    assert buffer.entries[0] == [One];
    seen := a.PollInbox();
  }
}
