/** The values and state records a consensus node works with. */
module Types {

  /** Stands for a field that may be `null`. */
  datatype Option<+T> = None | Some(value: T)

  /** A node's value: 0, 1, or the undetermined marker "?". */
  datatype Value = Zero | One | Undetermined

  /** A vote as the inbox stores it: 0 or 1 only. */
  type Vote = v: Value | v != Undetermined witness Zero

  /**
   * The observable state of a node. `x`, `decided` and `k` are `None`
   * where the node holds `null` (a faulty node, or one that was stopped).
   */
  datatype NodeState = NodeState(killed: bool, x: Option<Value>, decided: Option<bool>, k: Option<nat>)

  /** The round counter as the round loop reads it: a missing round counts as 0. */
  function RoundOrZero(k: Option<nat>): nat
  {
    if k.Some? then k.value else 0
  }
}
