/**
 * The vote buffer: for each round number, the 0/1 votes received so far.
 * In the program one buffer is declared at module level, so every node
 * started in the same runtime records into, and reads from, the same one.
 */
module Inbox {
  import opened Types
  import opened Decision

  /** The votes recorded for `round`, empty when none arrived yet. */
  function Received(entries: map<nat, seq<Vote>>, round: nat): seq<Vote>
  {
    if round in entries then entries[round] else []
  }

  /** The buffer after `v` is pushed onto the entry for `round`, creating the entry if needed. */
  function Appended(entries: map<nat, seq<Vote>>, round: nat, v: Vote): (r: map<nat, seq<Vote>>)
    ensures r.Keys == entries.Keys + {round}
    ensures r[round] == Received(entries, round) + [v]
    ensures forall q | q in entries && q != round :: r[q] == entries[q]
  {
    entries[round := Received(entries, round) + [v]]
  }

  /** Pushing a vote adds one to its count for that round and leaves the other value's count alone. */
  lemma AppendedCounts(entries: map<nat, seq<Vote>>, round: nat, v: Vote, w: Vote)
    ensures Count(Appended(entries, round, v)[round], w) ==
      Count(Received(entries, round), w) + (if w == v then 1 else 0)
  {
    CountAppend(Received(entries, round), v, w);
  }

  class MessageBuffer {
    var entries: map<nat, seq<Vote>>

    /** A new, empty buffer. */
    constructor ()
      ensures entries == map[]
    {
      entries := map[];
    }

    /** Records `v` for `round`; no other round's entry changes. */
    method Push(round: nat, v: Vote)
      modifies this
      ensures entries == Appended(old(entries), round, v)
    {
      if round !in entries {
        entries := entries[round := []];
      }
      entries := entries[round := entries[round] + [v]];
    }
  }
}
