# Binary majority-vote consensus node, in Dafny

This project models one node of a round-based binary consensus protocol with
crash faults (a simplified Ben-Or style protocol). A node holds a value 0, 1
or "?", and in each round it broadcasts its value, waits until enough peer
votes have arrived for its round, and applies a decision rule:

- with F = 0 tolerated faults it decides on a value that holds a strict
  majority of the votes;
- with F > 0 it decides on a value with at least 2F+1 votes, testing 0 first;
- otherwise it adopts the plurality value for the next round, ties going to 1.

The loop runs until the node has decided, has been stopped, or has reached
round 50.

Files:

- `types.dfy` (module `Types`): the value `0 | 1 | "?"`, the vote (0 or 1),
  and the state record `{killed, x, decided, k}`. A `null` field is `None`.
- `decision.dfy` (module `Decision`): vote counting, the decision rule
  `MajorityValue`, the provisional rule `SimpleMajority`, and lemmas that
  characterise them.
- `inbox.dfy` (module `Inbox`): the vote buffer, a map from round number to the
  0/1 votes received for it. It is a class `MessageBuffer` that is appended in
  place.
- `node.dfy` (module `Nodes`): the node's state machine on values
  (`InitialState`, `Stopped`, `RoundStep`, `Loop`, the invariant
  `WellFormed`), lemmas about the loop, and the class `Node`. That class holds
  the state in fields and has the stop, start and message operations, the
  quorum poll, one round, and the round loop, each specified by those
  functions.

Modelling choices:

- The vote buffer is declared once at module level in `src/nodes/node.ts`, so
  every node started in the same runtime shares it. The model keeps that
  sharing: each `Node` holds a reference to a `MessageBuffer`, and several nodes
  may hold the same one. `Nodes.SharedInboxExample` shows a vote sent to one
  node completing another node's quorum.
- The round loop takes `arrived: nat -> seq<Vote>` as a parameter.
  `arrived(k)` is the batch of votes that the quorum wait returned in round `k`.
  Broadcasting and the readiness wait are left out. A single poll of the wait
  is modelled separately, as `Node.PollInbox`.
- When N = 1 the round's votes are the node's own value, which may be "?". So
  the decision rule works on sequences that may contain "?", and "?" counts as
  neither 0 nor 1.
- The payload of an incoming message is modelled as `Option<Value>`: what a
  peer broadcasts (its `x`). Any other JSON value would be treated like `null`
  and ignored.
- A lone node (N = 1) decides its initial value in its first round only when
  F = 0 and the value is 0 or 1. A lone node that starts at
  "?" adopts 1 and decides one round later. A lone node with F > 0 never decides
  and stops at the round cap. See `SingleNodeUndeterminedDecidesOne` and
  `SingleNodeWithFaultsNeverDecides`.
- `N`, `F` and the round counter are mathematical integers. JavaScript's
  `values.length / 2` is an exact division, so `c > length / 2` is written as
  `2 * c > length`.

## Model

| member | source | states |
|---|---|---|
| `Decision.Count` | src/nodes/node.ts:146-147 | the filtered count of a value never exceeds the number of votes |
| `Decision.CountIsMultiplicity` | src/nodes/node.ts:146-147 | the filtered count of a value equals its multiplicity in the multiset of the votes |
| `Decision.CountAppend` | src/nodes/node.ts:86 | appending a vote adds one to that value's count and nothing to any other value's count |
| `Decision.MajorityValue` | src/nodes/node.ts:145-157 | a decided value meets the threshold (strict majority when F = 0, at least 2F+1 votes otherwise); with F = 0 a decision agrees with the plurality value; with F != 0, 2F+1 zeros always decide 0 |
| `Decision.SimpleMajority` | src/nodes/node.ts:159-164 | the result has at least as many votes as 0 and as 1 (it is a plurality value), and a tie gives 1 |
| `Decision.CountsWithinLength` | src/nodes/node.ts:146-147 | zeros plus ones never exceed the number of votes, and equal it when every vote is 0 or 1 |
| `Decision.CountUniform` | src/nodes/node.ts:146-147 | when all votes equal v, v's count is the length and every other value's count is 0 |
| `Decision.FaultFreeDecisionIsStrictMajority` | src/nodes/node.ts:148-151 | with F = 0 the rule decides v exactly when v holds a strict majority, so its count comparisons are implied by the majority tests |
| `Decision.FaultFreeNoDecision` | src/nodes/node.ts:148-151 | with F = 0 there is no decision exactly when neither value holds a strict majority |
| `Decision.FaultTolerantDecision` | src/nodes/node.ts:153-156 | with F > 0: 0 is decided iff count0 >= 2F+1; 1 iff count0 < 2F+1 <= count1; no decision iff both counts are at most 2F |
| `Decision.ThresholdsExclusive` | src/nodes/node.ts:153-154 | with F > 0 and at most 4F+1 votes, 0 and 1 cannot both reach 2F+1, so testing 0 first never changes the outcome |
| `Decision.Unanimity` | src/nodes/node.ts:145-162 | unanimous votes for v, with enough votes for the threshold and F >= 0, decide v and also give v as the plurality value |
| `Decision.SimpleMajorityIsPlurality` | src/nodes/node.ts:162 | any plurality value that goes to 1 on a tie is the provisional value, so the provisional rule is determined by those two properties |
| `Decision.ExampleUnanimousFour` | src/nodes/node.ts:153-154 | N = 4, F = 1, three votes of 1 decide 1 |
| `Decision.ExampleSplitFour` | src/nodes/node.ts:153-162 | F = 1 and votes 0,0,1,1 give no decision, and the provisional value is 1 |
| `Inbox.Appended` | src/nodes/node.ts:85-86 | the pushed round's entry becomes its old entry (empty if it had none) followed by the vote; every other round's entry is unchanged |
| `Inbox.AppendedCounts` | src/nodes/node.ts:85-86 | pushing a vote raises that value's count for the round by one and leaves the other value's count unchanged |
| `Inbox.MessageBuffer.constructor` | src/nodes/node.ts:9 | the buffer starts empty |
| `Inbox.MessageBuffer.Push` | src/nodes/node.ts:85-86 | the buffer's new contents are the old contents with the vote appended to that round's entry, and nothing else changes |
| `Nodes.InitialState` | src/nodes/node.ts:24-38 | a correct node starts not killed, with x = its initial value, decided = false and k = 0; a faulty node starts with all three null; both satisfy the state invariant |
| `Nodes.Stopped` | src/nodes/node.ts:69-75 | after stop the node is killed and x, decided and k are null, which satisfies the invariant for faulty and correct nodes alike |
| `Nodes.StopIdempotent` | src/nodes/node.ts:70-73 | stopping twice gives the same state as stopping once |
| `Nodes.RoundStep` | src/nodes/node.ts:104-113 | one round raises k by exactly 1, leaves killed unchanged, and sets x to 0 or 1; an undecided node becomes decided exactly when the rule gives a value, and x is then that value; when the rule gives none, decided is unchanged and x is the plurality value; decided only ever becomes true; the state invariant is preserved |
| `Nodes.Loop` | src/nodes/node.ts:101-114 | the loop ends with its guard false; a node that was not killed ends decided or at round 50; k never decreases; killed is unchanged; an already decided node is left as it is; the invariant holds at exit |
| `Nodes.LoopUnfold` | src/nodes/node.ts:101-114 | a loop that changes the state first passed its guard, and is its first round followed by the loop from the state that round leaves |
| `Nodes.LoopDecidesInLastRound` | src/nodes/node.ts:101-113 | a node that enters the loop undecided and leaves it decided made its decision in its last round: some running undecided state at round k-1 passes to the final state in one round, and the final x is the rule's value on that round's batch (for N != 1, the batch that arrived for round k-1) |
| `Nodes.RuleValueEndsLoop` | src/nodes/node.ts:101-113 | a running node whose round batch makes the rule give v decides v in that round, with k one higher, and the loop ends there |
| `Nodes.LoopLeavesNoUndetermined` | src/nodes/node.ts:107-112 | after at least one round the node's value is 0 or 1, never "?" |
| `Nodes.UnanimousRoundDecides` | src/nodes/node.ts:101-113 | a running node whose round batch is unanimous for v and large enough decides v in that round, with k one higher, and then stops looping |
| `Nodes.SingleNodeDecidesOwnValue` | src/nodes/node.ts:128-131 | a lone node with F = 0 and a 0/1 value decides that value in its current round |
| `Nodes.SingleNodeUndeterminedDecidesOne` | src/nodes/node.ts:128-131 | a lone node with F = 0 starting at "?" adopts 1 and decides 1 one round later |
| `Nodes.SingleNodeWithFaultsNeverDecides` | src/nodes/node.ts:101-131 | a lone undecided node with F > 0 never decides and ends at round 50 |
| `Nodes.Node.constructor` | src/nodes/node.ts:24-38 | a new node's state is the initial state for its faulty flag, and the invariant holds |
| `Nodes.Node.Stop` | src/nodes/node.ts:69-75 | the new state is the stopped form of the old one, and the invariant holds |
| `Nodes.Node.Message` | src/nodes/node.ts:77-90 | the message is refused exactly when the node is killed or faulty; an accepted 0 or 1 is appended to the entry for the receiver's current round; anything else leaves the buffer unchanged; the node's own state never changes |
| `Nodes.Node.PollInbox` | src/nodes/node.ts:126-142 | a lone node resolves with its own value at once; otherwise the poll resolves exactly when the current round's entry exists and holds at least N-1-F votes, and then returns that entry, whose votes are all 0 or 1 |
| `Nodes.Node.Round` | src/nodes/node.ts:104-113 | the new state is the round step of the old state on the given votes, and the invariant holds |
| `Nodes.Node.StartConsensus` | src/nodes/node.ts:98-115 | a faulty node's state is unchanged; a correct node's new state is the loop's result from its old state |
| `Nodes.Node.Start` | src/nodes/node.ts:58-66 | start is refused exactly when the node is killed, and then the state is unchanged; otherwise the round loop runs |
| `Nodes.SharedInboxExample` | src/nodes/node.ts:9 | with one shared buffer, a vote delivered to node 1 completes the round-0 quorum of node 0, which has received nothing |

## Left out

- HTTP routing, status codes and response bodies. `/status` only reports the faulty flag, so it is not modelled separately.
- The `undefined`-to-`null` mapping of `/getState`. `Node.State` returns the fields as they are.
- `broadcastValue` and `sendMessage`: network output. Delivering a vote is modelled only by calling `Node.Message` on the receiver.
- `getStateFromNode`: network input and JSON parsing, and never called.
- `waitForAllNodes` and the 50 ms retry in `collectValues`: timers and async suspension. One poll is `Node.PollInbox`. The vote batch each round gets is the `arrived` parameter of the loop. The model does not require that batch to meet the quorum, and does not prove that the wait ends.
- `Nodes.Node.Start`: `/start` starts the loop without waiting for it and answers at once. The model runs the loop to completion inside the call.
- Concurrency: a vote arriving while a round is in progress, a `stop` racing with a running loop, or two loops started by two `/start` calls. Operations are modelled as sequential calls.
- Server startup and the readiness signal (`node.listen`, `setNodeIsReady`).
- Message payloads that are not a node value. These are ignored by the handler, just as `null` and "?" are.
