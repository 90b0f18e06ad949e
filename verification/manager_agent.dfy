/** The manager agent's own state and its `ReceiveResponse` behaviour, as
    objects whose fields `action()` updates in place. */
module Agents {
  import opened JavaInt
  import opened Ontology
  import opened Round

  /** The parts of the manager agent that the reply-counting behaviour uses. */
  class ManagerAgent {
    /** The configured classifier population, `numberOfAgents`. */
    var numberOfAgents: int32
    /** The `ClassifierSettings` hash map: classifier local name to its latest settings. */
    var classifierSettings: map<string, ClassifierSettings>
    /** How many times a `WaitUserCommandBehaviour` has been added back by
        `ReceiveResponse`, handing control to the command prompt. */
    var handBacks: nat

    /** A manager after its field initialisers and `setNumberOfAgents(0)` in `setup`. */
    constructor ()
      ensures numberOfAgents == 0 && classifierSettings == map[] && handBacks == 0
    {
      numberOfAgents := 0;
      classifierSettings := map[];
      handBacks := 0;
    }

    method GetNumberOfAgents() returns (n: int32)
      ensures n == numberOfAgents
    {
      n := numberOfAgents;
    }

    method SetNumberOfAgents(n: int32)
      modifies this`numberOfAgents
      ensures numberOfAgents == n
    {
      numberOfAgents := n;
    }
  }

  /** The cyclic behaviour that collects the classifiers' replies. */
  class ReceiveResponse {
    const myAgent: ManagerAgent
    /** Settings replies seen in this round. */
    var count: int32
    /** Training-result replies seen in this round. */
    var count2: int32
    /** 0 while collecting, 1 once the round is complete. */
    var step: int32

    constructor (a: ManagerAgent)
      ensures myAgent == a && count == 0 && count2 == 0 && step == 0
      ensures Inv(State(), a.numberOfAgents)
    {
      myAgent := a;
      count := 0;
      count2 := 0;
      step := 0;
    }

    /** The behaviour's fields together with the agent state it writes. */
    function State(): RoundState
      reads this, myAgent
    {
      RoundState(count, count2, step, myAgent.classifierSettings, myAgent.handBacks)
    }

    /** One run of `action()`; `m` is what `receive` would return in step 0. */
    method Action(m: Option<Message>)
      modifies this`count, this`count2, this`step, myAgent`classifierSettings, myAgent`handBacks
      ensures State() == Next(old(State()), myAgent.numberOfAgents, m)
      ensures Inv(old(State()), myAgent.numberOfAgents) ==> Inv(State(), myAgent.numberOfAgents)
    {
      ghost var before := State();
      if step == 0 {
        if m.Some? {
          var msg := m.value;
          if msg.performative == NotUnderstood {
          } else if msg.performative == Inform {
            match msg.concept
            case SettingsConcept(cs) =>
              myAgent.classifierSettings := myAgent.classifierSettings[msg.sender := cs];
              count := Inc(count);
              if count == Mul(NumMessagesReturned, myAgent.numberOfAgents) {
                step := 1;
              }
            case ResultConcept(tr) =>
              count2 := Inc(count2);
              if count2 == Mul(NumMessagesReturned, myAgent.numberOfAgents) {
                step := 1;
              }
            case OtherConcept =>
          }
        }
      } else if step == 1 {
        myAgent.handBacks := myAgent.handBacks + 1;
        count := 0;
        count2 := 0;
        step := 0;
      }
      if Inv(before, myAgent.numberOfAgents) {
        NextKeepsInv(before, myAgent.numberOfAgents, m);
      }
    }

    /** The agent's scheduler running this cyclic behaviour while the messages
        `inbox` wait in the mailbox, until `receive` in `action()` finds no INFORM
        message waiting and the behaviour blocks. */
    method Run(inbox: seq<Message>)
      modifies this`count, this`count2, this`step, myAgent`classifierSettings, myAgent`handBacks
      ensures State() == Drive(old(State()), myAgent.numberOfAgents, inbox)
      ensures old(step) == 0 || old(step) == 1 ==> step == 0
    {
      var rest := inbox;
      while step == 1 || (step == 0 && rest != [])
        invariant Drive(State(), myAgent.numberOfAgents, rest) == Drive(old(State()), myAgent.numberOfAgents, inbox)
        decreases |rest|, if step == 1 then 1 else 0
      {
        if step == 1 {
          Action(None);
        } else {
          Action(Some(rest[0]));
          rest := rest[1..];
        }
      }
    }
  }
}
