/**
 * The decision rule of one round: whether the collected votes allow a node
 * to decide, and which value it adopts when they do not.
 */
module Decision {
  import opened Types

  /** The number of entries of `votes` equal to `v`. */
  function Count(votes: seq<Value>, v: Value): (c: nat)
    ensures c <= |votes|
  {
    if votes == [] then 0
    else (if votes[0] == v then 1 else 0) + Count(votes[1..], v)
  }

  /** The count of `v` is its multiplicity in the multiset of the votes. */
  lemma {:induction false} CountIsMultiplicity(votes: seq<Value>, v: Value)
    ensures Count(votes, v) == multiset(votes)[v]
  {
    if votes != [] {
      assert votes == [votes[0]] + votes[1..];
      CountIsMultiplicity(votes[1..], v);
    }
  }

  /** Appending a vote adds one to its own count and nothing to any other. */
  lemma {:induction false} CountAppend(votes: seq<Value>, v: Value, w: Value)
    ensures Count(votes + [v], w) == Count(votes, w) + (if w == v then 1 else 0)
  {
    if votes != [] {
      assert (votes + [v])[1..] == votes[1..] + [v];
      CountAppend(votes[1..], v, w);
    }
  }

  /** Every entry is 0 or 1. */
  predicate AllVotes(votes: seq<Value>)
  {
    forall i | 0 <= i < |votes| :: votes[i] != Undetermined
  }

  /**
   * The support a value needs to be decided: a strict majority of the votes
   * when no fault is tolerated, 2F+1 equal votes otherwise.
   */
  predicate MeetsThreshold(votes: seq<Value>, f: int, v: Value)
  {
    if f == 0 then 2 * Count(votes, v) > |votes| else Count(votes, v) >= 2 * f + 1
  }

  /**
   * The value a node may decide on after a round with `votes`, or `None`
   * when neither value has the support to be decided. With F == 0 the two
   * tests also compare the counts (a 0 needs more zeros than ones, a 1 at
   * least as many ones as zeros); with F != 0 the 0 test comes first.
   */
  function MajorityValue(votes: seq<Value>, f: int): (r: Option<Vote>)
    ensures r.Some? ==> MeetsThreshold(votes, f, r.value)
    ensures f == 0 && r.Some? ==> r.value == SimpleMajority(votes)
    ensures f != 0 && Count(votes, Zero) >= 2 * f + 1 ==> r == Some(Zero)
  {
    var count0 := Count(votes, Zero);
    var count1 := Count(votes, One);
    if f == 0 then
      if count0 > count1 && 2 * count0 > |votes| then Some(Zero)
      else if count1 >= count0 && 2 * count1 > |votes| then Some(One)
      else None
    else if count0 >= 2 * f + 1 then Some(Zero)
    else if count1 >= 2 * f + 1 then Some(One)
    else None
  }

  /**
   * The provisional value adopted when a round does not decide: a value with
   * the most votes, 1 on a tie.
   */
  function SimpleMajority(votes: seq<Value>): (r: Vote)
    ensures Count(votes, r) >= Count(votes, Zero) && Count(votes, r) >= Count(votes, One)
    ensures Count(votes, Zero) == Count(votes, One) ==> r == One
  {
    var count0 := Count(votes, Zero);
    var count1 := Count(votes, One);
    if count1 >= count0 then One else Zero
  }

  /** Zeros and ones together never outnumber the votes, and account for all of them when every vote is 0 or 1. */
  lemma {:induction false} CountsWithinLength(votes: seq<Value>)
    ensures Count(votes, Zero) + Count(votes, One) <= |votes|
    ensures AllVotes(votes) ==> Count(votes, Zero) + Count(votes, One) == |votes|
  {
    if votes != [] {
      CountsWithinLength(votes[1..]);
      assert AllVotes(votes) ==> AllVotes(votes[1..]) by {
        if AllVotes(votes) {
          forall i | 0 <= i < |votes[1..]| ensures votes[1..][i] != Undetermined {
            assert votes[1..][i] == votes[i + 1];
          }
        }
      }
    }
  }

  /** When every vote equals `v`, `v` has all the votes and every other value none. */
  lemma {:induction false} CountUniform(votes: seq<Value>, v: Value)
    requires forall i | 0 <= i < |votes| :: votes[i] == v
    ensures Count(votes, v) == |votes|
    ensures forall w | w != v :: Count(votes, w) == 0
  {
    if votes != [] {
      forall i | 0 <= i < |votes[1..]| ensures votes[1..][i] == v {
        assert votes[1..][i] == votes[i + 1];
      }
      CountUniform(votes[1..], v);
    }
  }

  /**
   * With F == 0 the count comparisons are implied by the majority tests: the
   * rule decides `v` exactly when `v` holds a strict majority of the votes.
   */
  lemma FaultFreeDecisionIsStrictMajority(votes: seq<Value>, v: Vote)
    ensures MajorityValue(votes, 0) == Some(v) <==> 2 * Count(votes, v) > |votes|
  {
    CountsWithinLength(votes);
  }

  /** With F == 0 a round without decision is one where neither value has a strict majority. */
  lemma FaultFreeNoDecision(votes: seq<Value>)
    ensures MajorityValue(votes, 0).None? <==>
      2 * Count(votes, Zero) <= |votes| && 2 * Count(votes, One) <= |votes|
  {
  }

  /**
   * With F > 0, the rule decides 0 exactly at 2F+1 zeros, and decides 1
   * exactly at 2F+1 ones when zeros fall short.
   */
  lemma FaultTolerantDecision(votes: seq<Value>, f: int)
    requires f > 0
    ensures MajorityValue(votes, f) == Some(Zero) <==> Count(votes, Zero) >= 2 * f + 1
    ensures MajorityValue(votes, f) == Some(One) <==>
      Count(votes, Zero) < 2 * f + 1 <= Count(votes, One)
    ensures MajorityValue(votes, f).None? <==>
      Count(votes, Zero) <= 2 * f && Count(votes, One) <= 2 * f
  {
  }

  /**
   * With F > 0 and at most 4F+1 votes, 0 and 1 cannot both reach 2F+1, so
   * the precedence of the 0 test never changes a decision.
   */
  lemma ThresholdsExclusive(votes: seq<Value>, f: int)
    requires f > 0 && |votes| <= 4 * f + 1
    ensures !(MeetsThreshold(votes, f, Zero) && MeetsThreshold(votes, f, One))
  {
    CountsWithinLength(votes);
  }

  /** Validity: unanimous votes, enough of them, decide their value. */
  lemma Unanimity(votes: seq<Value>, f: int, v: Vote)
    requires forall i | 0 <= i < |votes| :: votes[i] == v
    requires f >= 0
    requires if f == 0 then |votes| > 0 else |votes| >= 2 * f + 1
    ensures MajorityValue(votes, f) == Some(v)
    ensures SimpleMajority(votes) == v
  {
    CountUniform(votes, v);
  }

  /** A plurality value with ties going to 1 is exactly what the provisional rule picks. */
  lemma SimpleMajorityIsPlurality(votes: seq<Value>, w: Vote)
    requires Count(votes, w) >= Count(votes, Zero) && Count(votes, w) >= Count(votes, One)
    requires Count(votes, Zero) == Count(votes, One) ==> w == One
    ensures SimpleMajority(votes) == w
  {
  }

  /** N = 4, F = 1, three peers voting 1: the round decides 1. */
  lemma ExampleUnanimousFour()
    ensures MajorityValue([One, One, One], 1) == Some(One)
  {
  }

  /** N = 4, F = 1, two zeros and two ones: no decision, and the tie adopts 1. */
  lemma ExampleSplitFour()
    ensures MajorityValue([Zero, Zero, One, One], 1).None?
    ensures SimpleMajority([Zero, Zero, One, One]) == One
  {
  }
}
