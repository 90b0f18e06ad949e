/** The reply-counting state machine of the manager agent's `ReceiveResponse`
    behaviour, as a function of values: one call of `action()` is `Next`, and the
    cyclic behaviour running `action()` until `receive` finds no INFORM message
    waiting is `Drive`. */
module Round {
  import opened JavaInt
  import opened Ontology

  /** `private int NumMessagesReturned = 2`: every reply is expected twice. */
  const NumMessagesReturned: int32 := 2

  /** The state `action()` reads and writes: the behaviour's `count`, `count2`
      and `step`, the agent's settings registry, and how many times the behaviour
      has handed control back to the command prompt. */
  datatype RoundState = RoundState(
    count: int32,
    count2: int32,
    step: int32,
    registry: map<string, ClassifierSettings>,
    handBacks: nat)
  {
    /** The counter of replies of kind `kind`. */
    function Counter(kind: Kind): int32
    {
      match kind
      case SettingsKind => count
      case ResultKind => count2
    }
  }

  /** `NumMessagesReturned * numberOfAgents`, with Java's wrap-around. */
  function Threshold(n: int32): (t: int32)
    ensures MinInt <= 2 * n as int <= MaxInt ==> t as int == 2 * n as int
  {
    Mul(NumMessagesReturned, n)
  }

  /** How many replies of one kind, counted from 0, it takes a counter to equal
      the threshold: `2n` for every positive population, 2^32 (a full wrap-around)
      for none, `2^32 + 2n` for a negative one other than `Integer.MIN_VALUE`,
      and 2^32 for `Integer.MIN_VALUE`, whose double wraps to 0. */
  function Period(n: int32): (p: int)
    ensures 1 <= p <= Modulus
    ensures n as int > 0 ==> p == 2 * n as int
    ensures n == 0 ==> p == Modulus
    ensures MinInt < n as int < 0 ==> p == Modulus + 2 * n as int
    ensures n as int == MinInt ==> p == Modulus
    ensures ToUnsigned(Threshold(n)) == p % Modulus
  {
    var x := 2 * n as int;
    if x < 0 then
      WrapNegative(x);
      UnsignedOfWrap(x + Modulus);
      var u := x + Modulus;
      if u == 0 then Modulus else u
    else
      UnsignedOfWrap(x);
      if x == 0 then Modulus else x
  }

  /** A counter below the period moves one step up when incremented, and it equals
      the threshold exactly when it has reached the period. */
  lemma CounterStep(c: int32, n: int32)
    requires ToUnsigned(c) < Period(n)
    ensures Inc(c) == Threshold(n) <==> ToUnsigned(c) + 1 == Period(n)
    ensures Inc(c) != Threshold(n) ==> ToUnsigned(Inc(c)) == ToUnsigned(c) + 1
  {
    IncUnsigned(c);
    var t := Threshold(n);
    if ToUnsigned(c) + 1 < Modulus {
      if Inc(c) == t {
        assert ToUnsigned(c) + 1 == Period(n) % Modulus;
      } else if ToUnsigned(c) + 1 == Period(n) {
        UnsignedInjective(Inc(c), t);
      }
    } else {
      assert ToUnsigned(t) == 0;
      UnsignedInjective(t, 0);
    }
  }

  /** Step 0 of `action()` once `receive` returned the message `m`. */
  function Accept(s: RoundState, n: int32, m: Message): (r: RoundState)
    ensures r.handBacks == s.handBacks
    ensures r.registry.Keys == s.registry.Keys + (if IsReply(m, SettingsKind) then {m.sender} else {})
    ensures r.count == s.count || r.count2 == s.count2
    ensures r.step == s.step || r.step == 1
  {
    match m.performative
    case NotUnderstood => s
    case OtherPerformative => s
    case Inform =>
      match m.concept
      case SettingsConcept(cs) =>
        var c := Inc(s.count);
        s.(registry := s.registry[m.sender := cs], count := c,
           step := if c == Threshold(n) then 1 else s.step)
      case ResultConcept(_) =>
        var c := Inc(s.count2);
        s.(count2 := c, step := if c == Threshold(n) then 1 else s.step)
      case OtherConcept => s
  }

  /** Step 1 of `action()`: hand back to the command prompt and zero the round. */
  function HandBack(s: RoundState): (r: RoundState)
    ensures forall n: int32 :: Inv(r, n)
    ensures r.registry == s.registry && r.handBacks == s.handBacks + 1
  {
    s.(count := 0, count2 := 0, step := 0, handBacks := s.handBacks + 1)
  }

  /** One call of `action()` with `n` agents; `m` is what `receive` returns in
      step 0 (`None` when the mailbox holds no INFORM message). In step 1 no
      message is received and `m` plays no part. */
  function Next(s: RoundState, n: int32, m: Option<Message>): (r: RoundState)
    ensures r.registry.Keys >= s.registry.Keys
    ensures r.handBacks == s.handBacks + (if s.step == 1 then 1 else 0)
    ensures s.step != 0 && s.step != 1 ==> r == s
  {
    if s.step == 0 then
      match m
      case None => s
      case Some(msg) => Accept(s, n, msg)
    else if s.step == 1 then HandBack(s)
    else s
  }

  /** The cyclic behaviour calling `action()` over and over while messages
      `inbox` wait in the mailbox, until it blocks because `receive` finds no
      INFORM message waiting. */
  function Drive(s: RoundState, n: int32, inbox: seq<Message>): (r: RoundState)
    ensures s.step == 0 || s.step == 1 ==> r.step == 0
    ensures r.handBacks >= s.handBacks
    ensures r.registry.Keys >= s.registry.Keys
    decreases |inbox|, if s.step == 1 then 1 else 0
  {
    if s.step == 1 then Drive(Next(s, n, None), n, inbox)
    else if s.step == 0 && inbox != [] then Drive(Next(s, n, Some(inbox[0])), n, inbox[1..])
    else s
  }

  /** The invariant of a round with `n` agents: collecting with both counters
      below the period, or done with one counter at the threshold and the other
      below the period. */
  predicate Inv(s: RoundState, n: int32)
  {
    var p, t := Period(n), Threshold(n);
    (s.step == 0 && ToUnsigned(s.count) < p && ToUnsigned(s.count2) < p) ||
    (s.step == 1 && ((s.count == t && ToUnsigned(s.count2) < p) ||
                     (s.count2 == t && ToUnsigned(s.count) < p)))
  }

  /** The state of a fresh `ReceiveResponse` over a registry `reg`. */
  function Initial(reg: map<string, ClassifierSettings>, handBacks: nat): (s: RoundState)
    ensures s.step == 0 && s.count == 0 && s.count2 == 0
    ensures forall n: int32 :: Inv(s, n)
  {
    RoundState(0, 0, 0, reg, handBacks)
  }

  // ----- one call of action() -----

  /** A settings reply from `k` overwrites `registry[k]`, keeps every other entry,
      counts one, and ends the round exactly when the count hits the threshold. */
  lemma SettingsReply(s: RoundState, n: int32, m: Message)
    requires s.step == 0 && IsReply(m, SettingsKind)
    ensures var r := Next(s, n, Some(m));
      && r.registry.Keys == s.registry.Keys + {m.sender}
      && r.registry[m.sender] == m.concept.settings
      && (forall k :: k in s.registry && k != m.sender ==> r.registry[k] == s.registry[k])
      && r.count == Inc(s.count) && r.count2 == s.count2 && r.handBacks == s.handBacks
      && (r.step == 1 <==> r.count == Threshold(n))
      && (r.step == 0 <==> r.count != Threshold(n))
  {
  }

  /** A training-result reply counts one in `count2` and touches nothing else
      but `step`, which ends the round exactly when `count2` hits the threshold. */
  lemma ResultReply(s: RoundState, n: int32, m: Message)
    requires s.step == 0 && IsReply(m, ResultKind)
    ensures var r := Next(s, n, Some(m));
      && r.registry == s.registry
      && r.count2 == Inc(s.count2) && r.count == s.count && r.handBacks == s.handBacks
      && (r.step == 1 <==> r.count2 == Threshold(n))
      && (r.step == 0 <==> r.count2 != Threshold(n))
  {
  }

  /** No message, a NOT_UNDERSTOOD message, and any message that is not a
      settings or result reply leave the whole state as it was. */
  lemma IgnoredMessage(s: RoundState, n: int32, m: Option<Message>)
    requires s.step == 0
    requires m.Some? ==> !IsReply(m.value, SettingsKind) && !IsReply(m.value, ResultKind)
    ensures Next(s, n, m) == s
  {
  }

  /** In step 1, whatever waits in the mailbox, `action()` zeroes both counters,
      returns to step 0, hands back exactly once and keeps the registry. */
  lemma StepOneHandsBack(s: RoundState, n: int32, m: Option<Message>)
    requires s.step == 1
    ensures var r := Next(s, n, m);
      && r.count == 0 && r.count2 == 0 && r.step == 0
      && r.handBacks == s.handBacks + 1 && r.registry == s.registry
  {
  }

  /** While collecting, a call never hands back and never moves a counter's
      unsigned reading down; a call that ends a round is followed by exactly one
      hand-back, on the next call, which zeroes the counters. Hand-backs happen
      in step 1 and nowhere else. */
  lemma HandBackOnlyAfterCompletion(s: RoundState, n: int32, m: Option<Message>, m': Option<Message>)
    requires Inv(s, n)
    ensures var r := Next(s, n, m);
      && (r.handBacks != s.handBacks <==> s.step == 1)
      && (s.step == 0 && r.step == 0 ==>
            ToUnsigned(r.count) >= ToUnsigned(s.count) && ToUnsigned(r.count2) >= ToUnsigned(s.count2))
      && (s.step == 0 && r.step == 1 ==>
            Next(r, n, m') == r.(count := 0, count2 := 0, step := 0, handBacks := r.handBacks + 1))
  {
    if s.step == 0 && m.Some? {
      CounterStep(s.count, n);
      CounterStep(s.count2, n);
    }
  }

  /** Every call of `action()` keeps the round invariant, for every population. */
  lemma NextKeepsInv(s: RoundState, n: int32, m: Option<Message>)
    requires Inv(s, n)
    ensures Inv(Next(s, n, m), n)
  {
    if s.step == 0 && m.Some? {
      CounterStep(s.count, n);
      CounterStep(s.count2, n);
    }
  }

  /** With no agents configured the threshold is 0 and a counter that starts at
      0 only gets back there by wrapping around: from -1, after 2^32 - 1 replies,
      the next settings reply ends the round. */
  lemma NoAgentsCompletesOnWrap(s: RoundState, m: Message)
    requires s.step == 0 && s.count == -1 && IsReply(m, SettingsKind)
    ensures Next(s, 0, Some(m)).step == 1
  {
  }

  // ----- the behaviour over a whole mailbox -----

  /** Running the behaviour keeps the round invariant and always ends in step 0. */
  lemma {:induction false} DriveKeepsInv(s: RoundState, n: int32, inbox: seq<Message>)
    requires Inv(s, n)
    ensures Inv(Drive(s, n, inbox), n) && Drive(s, n, inbox).step == 0
    decreases |inbox|, if s.step == 1 then 1 else 0
  {
    if s.step == 1 {
      NextKeepsInv(s, n, None);
      DriveKeepsInv(Next(s, n, None), n, inbox);
    } else if inbox != [] {
      NextKeepsInv(s, n, Some(inbox[0]));
      DriveKeepsInv(Next(s, n, Some(inbox[0])), n, inbox[1..]);
    }
  }

  /** The registry entry `reg[k]` as an option. */
  function Lookup(reg: map<string, ClassifierSettings>, k: string): Option<ClassifierSettings>
  {
    if k in reg then Some(reg[k]) else None
  }

  /** Latest wins: the settings of the last settings reply from `k` in `ms`,
      or the entry `reg` already held for `k` when there is none. */
  function Latest(reg: map<string, ClassifierSettings>, ms: seq<Message>, k: string): Option<ClassifierSettings>
    decreases |ms|
  {
    if ms == [] then Lookup(reg, k)
    else if SettingsFrom(ms[|ms| - 1], k) then Some(ms[|ms| - 1].concept.settings)
    else Latest(reg, ms[..|ms| - 1], k)
  }

  /** Taking one message first is the same as putting its settings before the rest. */
  lemma {:induction false} LatestAfterFirst(s: RoundState, n: int32, m: Message, ms: seq<Message>, k: string)
    requires s.step == 0
    ensures Latest(Accept(s, n, m).registry, ms, k) == Latest(s.registry, [m] + ms, k)
    decreases |ms|
  {
    if ms == [] {
      assert [m] + ms == [m];
    } else {
      var init := ms[..|ms| - 1];
      assert ([m] + ms)[..|[m] + ms| - 1] == [m] + init;
      assert ([m] + ms)[|[m] + ms| - 1] == ms[|ms| - 1];
      if !SettingsFrom(ms[|ms| - 1], k) {
        LatestAfterFirst(s, n, m, init, k);
      }
    }
  }

  /** After the behaviour has drained its mailbox, the registry holds, for every
      classifier name, the settings of the last settings reply from it, and
      otherwise what it held before: nothing is ever removed. */
  lemma {:induction false} DriveRegistry(s: RoundState, n: int32, inbox: seq<Message>, k: string)
    requires s.step == 0 || s.step == 1
    ensures Lookup(Drive(s, n, inbox).registry, k) == Latest(s.registry, inbox, k)
    decreases |inbox|, if s.step == 1 then 1 else 0
  {
    if s.step == 1 {
      DriveRegistry(Next(s, n, None), n, inbox, k);
    } else if inbox != [] {
      var m, rest := inbox[0], inbox[1..];
      DriveRegistry(Next(s, n, Some(m)), n, rest, k);
      LatestAfterFirst(s, n, m, rest, k);
      assert [m] + rest == inbox;
    }
  }

  /** Adding the period once more to a reply total adds one round. */
  lemma OneMoreRound(c: nat, t: nat)
    requires t > 0
    ensures (c + t) % t == c % t && (c + t) / t == c / t + 1
  {
    DivModUnique(c + t, t, c / t + 1, c % t);
  }

  /** One reply of the kind being counted, from a counter below the period: the
      counter moves one step up and the round ends exactly at the period. */
  lemma CountOneReply(s: RoundState, n: int32, m: Message, kind: Kind)
    requires s.step == 0 && IsReply(m, kind)
    requires ToUnsigned(s.Counter(kind)) < Period(n) && s.Counter(kind.Other()) == 0
    ensures var r := Next(s, n, Some(m));
      && r.Counter(kind.Other()) == 0
      && (r.step == 1 <==> ToUnsigned(s.Counter(kind)) + 1 == Period(n))
      && (r.step == 0 || r.step == 1)
      && (r.step == 0 ==> ToUnsigned(r.Counter(kind)) == ToUnsigned(s.Counter(kind)) + 1)
      && r.handBacks == s.handBacks
  {
    CounterStep(s.Counter(kind), n);
    if kind == SettingsKind {
      SettingsReply(s, n, m);
    } else {
      ResultReply(s, n, m);
    }
  }

  /** A mailbox of settings replies only counts each of them as a settings reply. */
  lemma {:induction false} AllSettings(ms: seq<Message>)
    requires forall i :: 0 <= i < |ms| ==> IsReply(ms[i], SettingsKind)
    ensures Replies(ms, SettingsKind) == |ms| && Replies(ms, ResultKind) == 0
  {
    if ms != [] {
      AllSettings(ms[1..]);
    }
  }

  /** A mailbox holding replies of only one kind, for any population: every
      `Period(n)` replies (`2n` when `n` is positive) complete exactly one round
      and hand back once; the replies past the last full round are carried into
      the next round, not discarded. */
  lemma {:induction false} OneKindRounds(s: RoundState, n: int32, inbox: seq<Message>, kind: Kind)
    requires s.step == 0
    requires ToUnsigned(s.Counter(kind)) < Period(n) && s.Counter(kind.Other()) == 0
    requires Replies(inbox, kind.Other()) == 0
    ensures var r := Drive(s, n, inbox);
      var total := ToUnsigned(s.Counter(kind)) + Replies(inbox, kind);
      && r.step == 0
      && ToUnsigned(r.Counter(kind)) == total % Period(n)
      && r.Counter(kind) == Wrap(total % Period(n))
      && r.Counter(kind.Other()) == 0
      && r.handBacks == s.handBacks + total / Period(n)
    decreases |inbox|
  {
    var p := Period(n);
    var c := ToUnsigned(s.Counter(kind));
    if inbox == [] {
      DivModUnique(c, p, 0, c);
    } else {
      var m, rest := inbox[0], inbox[1..];
      var s1 := Next(s, n, Some(m));
      assert Drive(s, n, inbox) == Drive(s1, n, rest);
      if IsReply(m, kind) {
        CountOneReply(s, n, m, kind);
        if c + 1 < p {
          OneKindRounds(s1, n, rest, kind);
        } else {
          var s2 := Next(s1, n, None);
          assert Drive(s1, n, rest) == Drive(s2, n, rest);
          OneKindRounds(s2, n, rest, kind);
          OneMoreRound(Replies(rest, kind), p);
        }
      } else {
        IgnoredMessage(s, n, Some(m));
        OneKindRounds(s1, n, rest, kind);
      }
    }
  }

  /** Never before: while neither counter can reach the period, no round
      completes, nothing is handed back, and each counter's unsigned reading
      grows by exactly the replies of its kind. With no agents (the value `setup`
      sets) the period is 2^32, so this covers every mailbox of fewer than 2^32
      replies of each kind. */
  lemma {:induction false} NoRoundBeforePeriod(s: RoundState, n: int32, inbox: seq<Message>)
    requires s.step == 0
    requires ToUnsigned(s.count) + Replies(inbox, SettingsKind) < Period(n)
    requires ToUnsigned(s.count2) + Replies(inbox, ResultKind) < Period(n)
    ensures var r := Drive(s, n, inbox);
      && r.step == 0 && r.handBacks == s.handBacks
      && ToUnsigned(r.count) == ToUnsigned(s.count) + Replies(inbox, SettingsKind)
      && ToUnsigned(r.count2) == ToUnsigned(s.count2) + Replies(inbox, ResultKind)
    decreases |inbox|
  {
    if inbox != [] {
      var m, rest := inbox[0], inbox[1..];
      var s1 := Next(s, n, Some(m));
      CounterStep(s.count, n);
      CounterStep(s.count2, n);
      NoRoundBeforePeriod(s1, n, rest);
    }
  }

  /** Three classifiers A, B and C each answering twice, in the order
      A, B, C, A, B, C: the round completes once, after the sixth reply, and the
      registry holds exactly the three, each with its settings. */
  lemma ThreeClassifiersScenario(a: ClassifierSettings, b: ClassifierSettings, c: ClassifierSettings,
                                 handBacks: nat)
    ensures var mA, mB, mC := Message(Inform, "A", SettingsConcept(a)),
                              Message(Inform, "B", SettingsConcept(b)),
                              Message(Inform, "C", SettingsConcept(c));
      var s := Initial(map[], handBacks);
      && Drive(s, 3, [mA, mB, mC, mA, mB]).handBacks == handBacks
      && var r := Drive(s, 3, [mA, mB, mC, mA, mB, mC]);
      && r.handBacks == handBacks + 1 && r.count == 0 && r.count2 == 0 && r.step == 0
      && r.registry == map["A" := a, "B" := b, "C" := c]
  {
    var mA, mB, mC := Message(Inform, "A", SettingsConcept(a)),
                      Message(Inform, "B", SettingsConcept(b)),
                      Message(Inform, "C", SettingsConcept(c));
    var s := Initial(map[], handBacks);
    var inbox := [mA, mB, mC, mA, mB, mC];
    var p5, p4, p3, p2, p1 := inbox[..5], inbox[..4], inbox[..3], inbox[..2], inbox[..1];
    assert p5 == [mA, mB, mC, mA, mB] && p4 == [mA, mB, mC, mA] && p3 == [mA, mB, mC];
    assert p2 == [mA, mB] && p1 == [mA] && p1[..0] == [];
    assert p5[..4] == p4 && p4[..3] == p3 && p3[..2] == p2 && p2[..1] == p1;
    AllSettings(inbox);
    AllSettings(p5);
    OneKindRounds(s, 3, inbox, SettingsKind);
    OneKindRounds(s, 3, p5, SettingsKind);
    var r := Drive(s, 3, inbox);
    var want := map["A" := a, "B" := b, "C" := c];
    forall k ensures Lookup(r.registry, k) == Lookup(want, k) {
      DriveRegistry(s, 3, inbox, k);
      if k == "C" {
      } else if k == "B" {
        assert Latest(map[], inbox, k) == Latest(map[], p5, k);
      } else if k == "A" {
        assert Latest(map[], inbox, k) == Latest(map[], p5, k) == Latest(map[], p4, k);
      } else {
        assert Latest(map[], inbox, k) == Latest(map[], p5, k) == Latest(map[], p4, k)
            == Latest(map[], p3, k) == Latest(map[], p2, k) == Latest(map[], p1, k)
            == Latest(map[], [], k);
      }
    }
    assert r.registry.Keys == want.Keys by {
      forall k ensures k in r.registry <==> k in want {
        assert Lookup(r.registry, k) == Lookup(want, k);
      }
    }
    forall k | k in r.registry ensures r.registry[k] == want[k] {
      assert Lookup(r.registry, k) == Lookup(want, k);
    }
  }
}
