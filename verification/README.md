# Reply counting in the DDM manager agent

The manager agent of the Distributed Decision-Making framework asks its
classifier agents for their settings, and later for training results. Its
cyclic behaviour `ReceiveResponse` collects the replies. Each run of its
`action()` either takes one INFORM message from the mailbox (step 0) or hands
control back to the command prompt (step 1).

In step 0, a settings reply overwrites the sender's entry in the agent's
`ClassifierSettings` map and increments `count`. A training-result reply
increments `count2`. Anything else changes nothing. When the counter just
incremented equals `NumMessagesReturned * numberOfAgents`, the behaviour moves
to step 1. `NumMessagesReturned` is fixed at 2 because the agent platform
delivers every message twice. In step 1 the behaviour adds a new
`WaitUserCommandBehaviour`, zeroes both counters and goes back to step 0.

The project has four modules:

- `JavaInt` (java_int.dfy): Java's 32-bit `int`. `count++` and
  `NumMessagesReturned * numberOfAgents` wrap around as in Java.
- `Ontology` (ontology.dfy): the decoded messages. A message has a
  performative, a sender and a concept: settings, training result, or anything
  else.
- `Round` (round.dfy): the state machine as functions on values.
  `Next` is one call of `action()`. `Drive` is the behaviour being scheduled
  over and over until `receive` finds no INFORM message waiting. The lemmas about the state machine
  live here too.
- `Agents` (manager_agent.dfy): the objects. `ManagerAgent` holds
  `numberOfAgents`, the settings map and a count of hand-backs.
  `ReceiveResponse` holds `count`, `count2` and `step`. Its methods `Action`
  and `Run` update those fields in place. They are proved equal to `Next` and
  `Drive`.

The adding of a `WaitUserCommandBehaviour` at line 184 is modelled as
incrementing the agent field `handBacks`.

Some consequences of the code as written, which the model keeps:

- Replies that arrive after a round completes are not discarded. They count
  toward the next round (`Round.OneKindRounds`).
- There is no "kind currently collected". Both counters are live in every
  round, and completing a round zeroes both of them.
- Counters and the threshold are Java `int`s, so a round's length is the
  number of increments a counter needs, from 0, to equal the wrapped threshold
  (`Round.Period`). That length is `2N` for every positive `N`. This holds even
  for `N` of 2^30 and above, where the threshold itself wraps to a negative
  value. For `N == 0`, the value `setup` sets, the threshold is 0. A counter
  gets back to 0 only by wrapping around, so a round completes after exactly
  2^32 replies of one kind and never before (`Round.OneKindRounds`,
  `Round.NoRoundBeforePeriod`). For a negative `N` the length is `2^32 + 2N`, except for
  `Integer.MIN_VALUE`, whose double wraps to 0, where it is 2^32.
- A content-extraction failure is not a graceful drop. The code prints the
  exception and then dereferences a null content (line 149). See "Left out".

## Model

| member | source | states |
|---|---|---|
| `JavaInt.Wrap` | src/ddm/agents/ManagerAgent.java:124-125 | the Java `int` that a mathematical integer wraps to: in range, congruent modulo 2^32, and unchanged when the integer already fits |
| `JavaInt.Inc` | src/ddm/agents/ManagerAgent.java:158 | `c++` on an `int`: adds one below `Integer.MAX_VALUE`, wraps to `Integer.MIN_VALUE` at it |
| `JavaInt.Mul` | src/ddm/agents/ManagerAgent.java:164 | `int` multiplication: the exact product when it fits, congruent to it modulo 2^32 otherwise |
| `JavaInt.ToUnsigned` | src/ddm/agents/ManagerAgent.java:124-125 | the reading of an `int` counter as the number of increments from 0 that produce it: in [0, 2^32), the value itself when non-negative, and wrapping back to the counter |
| `JavaInt.UnsignedOfWrap` | src/ddm/agents/ManagerAgent.java:124-125 | wrapping is one-to-one on [0, 2^32): the unsigned reading of the wrap of such a value is that value |
| `JavaInt.IncUnsigned` | src/ddm/agents/ManagerAgent.java:158 | `c++` adds one to a counter's unsigned reading, and takes the reading 2^32 - 1 (the `int` -1) to 0 |
| `Round.Threshold` | src/ddm/agents/ManagerAgent.java:74-76 | `NumMessagesReturned * numberOfAgents`, with `NumMessagesReturned` fixed at 2, is twice the population for every population whose double does not overflow, that is every `N` in [-2^30, 2^30) |
| `Round.Period` | src/ddm/agents/ManagerAgent.java:164 | the number of increments from 0 after which a counter equals the threshold: `2N` for every positive `N`, 2^32 for `N == 0`, `2^32 + 2N` for a negative `N` other than `Integer.MIN_VALUE`, and 2^32 for `Integer.MIN_VALUE` |
| `Round.CounterStep` | src/ddm/agents/ManagerAgent.java:158-165 | for a counter below the period, the incremented counter equals the threshold if and only if it has reached the period; otherwise its unsigned reading goes up by one |
| `Round.Initial` | src/ddm/agents/ManagerAgent.java:117-130 | a fresh behaviour starts collecting with both counters at zero, which satisfies the round invariant for every population |
| `Round.Accept` | src/ddm/agents/ManagerAgent.java:136-181 | step 0 with a received message: at most one counter moves, no hand-back, the registry gains at most the sender of a settings reply and loses nothing, and the step either stays or becomes 1 |
| `Round.HandBack` | src/ddm/agents/ManagerAgent.java:183-188 | step 1: the state after it meets the round invariant for every population, the registry is kept and exactly one hand-back is added |
| `Round.Next` | src/ddm/agents/ManagerAgent.java:132-190 | one call of `action()`: step 0 is `Accept` on at most one message, step 1 is `HandBack`; it never removes a registry key, hands back exactly when it starts in step 1, and changes nothing for any other step |
| `Round.Drive` | src/ddm/agents/ManagerAgent.java:132-190 | running the behaviour until no INFORM message is waiting always ends in step 0, never loses a hand-back and never removes a registry key |
| `Round.SettingsReply` | src/ddm/agents/ManagerAgent.java:150-165 | in step 0 a settings reply from S sets `registry[S]`, keeps every other entry, adds no other key, increments `count` only, and sets step 1 if and only if the new `count` equals the threshold |
| `Round.ResultReply` | src/ddm/agents/ManagerAgent.java:166-178 | in step 0 a training-result reply increments `count2` only, leaves the registry alone, and sets step 1 if and only if the new `count2` equals the threshold |
| `Round.IgnoredMessage` | src/ddm/agents/ManagerAgent.java:136-181 | no message, NOT_UNDERSTOOD, another performative, or an INFORM that is neither settings nor result leaves the whole state unchanged |
| `Round.StepOneHandsBack` | src/ddm/agents/ManagerAgent.java:183-188 | in step 1, whatever is in the mailbox, both counters become 0, step becomes 0, control is handed back exactly once, and the registry is kept |
| `Round.HandBackOnlyAfterCompletion` | src/ddm/agents/ManagerAgent.java:164-188 | for every population, a call hands back if and only if it starts in step 1; while collecting no counter's unsigned reading goes down; a call that completes a round is followed by exactly one reset |
| `Round.NextKeepsInv` | src/ddm/agents/ManagerAgent.java:158-188 | for every population, every call keeps the invariant: in step 0 both counters lie below the period; in step 1 one counter equals the threshold and the other lies below the period |
| `Round.DriveKeepsInv` | src/ddm/agents/ManagerAgent.java:114-190 | the invariant holds after any mailbox has been processed, and the behaviour is back in step 0 |
| `Round.NoAgentsCompletesOnWrap` | src/ddm/agents/ManagerAgent.java:158-165 | with zero agents, a settings reply arriving when `count` has wrapped to -1 completes a round |
| `Round.NoRoundBeforePeriod` | src/ddm/agents/ManagerAgent.java:158-178 | while neither counter can reach the period (for `N == 0`, fewer than 2^32 replies of each kind), no round completes, nothing is handed back, and each counter grows by exactly the replies of its kind |
| `Round.DriveRegistry` | src/ddm/agents/ManagerAgent.java:150-153 | after a mailbox is processed, the registry entry of every name is the settings of the last settings reply from it, or its earlier entry when there was none (latest wins, nothing removed) |
| `Round.OneKindRounds` | src/ddm/agents/ManagerAgent.java:158-188 | for replies of one kind and any population, every period's worth of replies (`2N` for positive `N`) completes exactly one round and one hand-back; the counter ends at the remainder, and the other counter stays 0 |
| `Round.ThreeClassifiersScenario` | src/ddm/agents/ManagerAgent.java:150-188 | three classifiers each replying twice complete no round after five replies and exactly one round after six; the registry then holds exactly the three with their settings |
| `Agents.ManagerAgent.constructor` | src/ddm/agents/ManagerAgent.java:72-89 | the registry starts empty and `numberOfAgents` is 0 |
| `Agents.ManagerAgent.GetNumberOfAgents` | src/ddm/agents/ManagerAgent.java:197-199 | returns `numberOfAgents` |
| `Agents.ManagerAgent.SetNumberOfAgents` | src/ddm/agents/ManagerAgent.java:206-208 | sets `numberOfAgents` to any `int` and changes nothing else |
| `Agents.ReceiveResponse.constructor` | src/ddm/agents/ManagerAgent.java:117-130 | a new behaviour is bound to its agent with `count`, `count2` and `step` all 0, which satisfies the round invariant |
| `Agents.ReceiveResponse.Action` | src/ddm/agents/ManagerAgent.java:132-190 | `action()` changes the fields exactly as `Round.Next` says, touches only the counters, the step, the registry and the hand-back count, and keeps the round invariant |
| `Agents.ReceiveResponse.Run` | src/ddm/agents/ManagerAgent.java:114-190 | scheduling the cyclic behaviour over a mailbox leaves the state that `Round.Drive` gives, which ends in step 0 |

## Left out

- Agent platform plumbing: `setup`, codec and ontology registration, Directory
  Facilitator registration, and the scheduling of behaviours by
  `addBehaviour`. The hand-back at line 184 is modelled only as the
  `handBacks` counter.
- `myAgent.receive(mt)` and `block()`: the message arrives as an argument,
  with `None` when no INFORM message is waiting. The INFORM-only template
  (lines 127-128) leaves other messages in the mailbox and makes the
  NOT_UNDERSTOOD branch unreachable in practice. The model keeps that branch as
  a no-op. `Round.Drive` and `ReceiveResponse.Run` take such messages out of the
  mailbox as no-ops instead of leaving them there. The resulting state is the
  same.
- Content extraction (lines 143-149): messages arrive already decoded. The
  exception path, which goes on to dereference a null content, is not modelled.
- `Thread.sleep(1000)` (lines 160 and 173), logging through `sm.Log` and
  `System.out.println`: timing and output only.
- `ConfigureDataSet` and `DatasetManager` (lines 109-112): an external
  collaborator. The dataset manager class is not part of this model.
- The classifier ontology classes are not part of this model. Settings are
  kept as a name, a type and an option string. A training result is kept as
  its name, type and duration.
- The getters and setters for the container controller, dataset manager,
  configuration, logging and `createDefinedAgents`: they play no part in
  reply counting.
- Concurrency of the agent runtime: the behaviour runs on one thread, so the
  model is sequential.
- Changing `numberOfAgents` in the middle of a round: `setNumberOfAgents` may
  run between any two calls of `action()`, but `Round.Inv` is stated for one
  population, and every whole-mailbox lemma and `ReceiveResponse.Run` keep it
  fixed. The proofs therefore assume the population changes only while both
  counters are 0, as in a fresh behaviour or right after a hand-back. Both of
  those states satisfy the invariant for every population (`Round.Initial`,
  `Round.HandBack`). A change in mid-round, such as lowering `N` after `count`
  has passed the new threshold, can leave the invariant.
- Round.OneKindRounds: covers mailboxes of one reply kind only. For mixed
  mailboxes the model proves the round invariant (`Round.DriveKeepsInv`) and
  the registry contents (`Round.DriveRegistry`), but not the number of rounds.
