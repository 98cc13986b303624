/** Why a confirmed write may still miss: the link can be replaced between the confirmation and the write (linux.rs). */
module WriteLimits {
  import opened Wrappers
  import opened Identity
  import opened IdentityProtocol
  import opened IdentityLimits

  const SUCCESSOR := Link(1, "eth1")
  const PLANNED := Exposure(1, 7, 0)
  const SUBMITTED := Write(3, 1, 7)
  const KNOWN := Transport(TOKENS, 0, false, false)

  const ASKED := HELD_LINKS.(phase := AwaitAddresses(1, 0, 0, SEEN), requests := 2)
  const SERVED := ASKED.(queue := [AddressDump(1)])
  const HELD := ASKED.(phase := HaveAddresses(0, 0, SEEN))
  const DRAWN := HELD.(transport := KNOWN, used := {7}, phase := HaveTokens(0, 0, SEEN, TOKENS))
  const EXPOSED := DRAWN.(phase := Idle, exposed := {PLANNED})
  const ASKED_NAME := EXPOSED.(phase := AwaitConfirm(2, 1, 7, "eth0"), requests := 3)
  const SERVED_NAME := ASKED_NAME.(queue := [LinkReply(2, Some(LINK))])
  const HELD_NAME := ASKED_NAME.(phase := Answered(1, 7, "eth0", Some(LINK)))
  const CONFIRMED := HELD_NAME.(phase := Confirmed(1, 7), confirmed := {PLANNED})
  const VANISHED := CONFIRMED.(links := map[], queue := [Note(Deleted(1))])
  const REPLACED :=
    VANISHED.(links := map[1 := SUCCESSOR], incarnations := 2, queue := [Note(Deleted(1)), Note(Unrelated)])
  const SENT := REPLACED.(phase := AwaitWrite(3, 1, 7), requests := 4, sent := {SUBMITTED})
  const MISSED := SENT.(queue := [Note(Deleted(1)), Note(Unrelated), WriteReply(3)], sent := {},
                        landed := {Landing(SUBMITTED, Some(1))})

  lemma AsksAddresses()
    ensures Leads(HELD_LINKS, RequestAddresses, ASKED)
  {
    hide Drain;
    EmptyDrain(HELD_LINKS);
  }

  lemma DumpsAddresses()
    ensures Leads(ASKED, Serve, SERVED) && Leads(SERVED, Deliver, HELD)
  {
    assert SERVED.queue[..0] + SERVED.queue[1..] == [];
  }

  lemma DrawsToken()
    ensures Leads(HELD, AssignTokens([1], TOKENS), DRAWN)
  {
    assert [1][1..] == [];
    assert Assigned(map[], [1], TOKENS) == TOKENS;
    assert TOKENS.Values == {7};
  }

  lemma ReturnsToken()
    ensures Leads(DRAWN, Finish, EXPOSED)
  {
    hide Drain;
    assert Retained(TOKENS, SEEN.Keys) == TOKENS;
    assert AfterRetaining(DRAWN) == DRAWN;
    EmptyDrain(DRAWN);
    assert Exposure(1, TOKENS[1], SEEN[1].incarnation) in HandedOut(SEEN, TOKENS);
  }

  lemma AsksName()
    ensures Leads(EXPOSED, BeginConfirm(1, 7, "eth0"), ASKED_NAME)
  {
    hide Drain;
    EmptyDrain(EXPOSED);
    assert PLANNED in EXPOSED.exposed;
  }

  lemma TellsName()
    ensures Leads(ASKED_NAME, Serve, SERVED_NAME) && Leads(SERVED_NAME, Deliver, HELD_NAME)
  {
    assert SERVED_NAME.queue[..0] + SERVED_NAME.queue[1..] == [];
  }

  lemma Confirms()
    ensures Leads(HELD_NAME, Conclude, CONFIRMED)
  {
    hide Drain;
    EmptyDrain(HELD_NAME);
  }

  lemma Replaces()
    ensures Leads(CONFIRMED, Delete(1, Deleted(1), 0), VANISHED)
    ensures Leads(VANISHED, Create(1, "eth1"), REPLACED)
  {
    assert CONFIRMED.queue[..0] + [Note(Deleted(1))] + CONFIRMED.queue[0..] == [Note(Deleted(1))];
    assert SEEN - {1} == map[];
    assert VANISHED.queue[..1] + [Note(Unrelated)] + VANISHED.queue[1..] == REPLACED.queue;
  }

  lemma Writes()
    ensures Leads(REPLACED, SubmitWrite, SENT)
    ensures Leads(SENT, Land(SUBMITTED), MISSED)
  {
    hide Drain;
    EmptyDrain(REPLACED);
    assert SENT.queue + [WriteReply(3)] == MISSED.queue;
  }

  lemma Run() returns (states: seq<System>, steps: seq<Step>)
    ensures EndsIn(states, steps, MISSED)
  {
    hide Leads, EndsIn;
    AsksAddresses();
    DumpsAddresses();
    DrawsToken();
    ReturnsToken();
    AsksName();
    TellsName();
    Confirms();
    Replaces();
    Writes();
    states, steps := UntilLinksAreHeld();
    states, steps := Extended(states, steps, HELD_LINKS, RequestAddresses, ASKED);
    states, steps := Extended(states, steps, ASKED, Serve, SERVED);
    states, steps := Extended(states, steps, SERVED, Deliver, HELD);
    states, steps := Extended(states, steps, HELD, AssignTokens([1], TOKENS), DRAWN);
    states, steps := Extended(states, steps, DRAWN, Finish, EXPOSED);
    states, steps := Extended(states, steps, EXPOSED, BeginConfirm(1, 7, "eth0"), ASKED_NAME);
    states, steps := Extended(states, steps, ASKED_NAME, Serve, SERVED_NAME);
    states, steps := Extended(states, steps, SERVED_NAME, Deliver, HELD_NAME);
    states, steps := Extended(states, steps, HELD_NAME, Conclude, CONFIRMED);
    states, steps := Extended(states, steps, CONFIRMED, Delete(1, Deleted(1), 0), VANISHED);
    states, steps := Extended(states, steps, VANISHED, Create(1, "eth1"), REPLACED);
    states, steps := Extended(states, steps, REPLACED, SubmitWrite, SENT);
    states, steps := Extended(states, steps, SENT, Land(SUBMITTED), MISSED);
  }

  /**
   A link replaced after its confirmation was answered: the write reaches the
   successor, while the retirement of the confirmed token is on its way.
   */
  lemma ConfirmedWritesCanMiss()
    ensures exists states, steps :: Behaviour(states, steps) && states[|steps|] == MISSED
    ensures PLANNED in MISSED.confirmed && Landing(SUBMITTED, Some(SUCCESSOR.incarnation)) in MISSED.landed
    ensures SUBMITTED.index == PLANNED.index && SUBMITTED.generation == PLANNED.generation
    ensures SUCCESSOR.incarnation != PLANNED.incarnation && Pending(MISSED.queue, PLANNED.index)
  {
    hide Behaviour;
    var states, steps := Run();
    BehaviourOf(states, steps, MISSED);
    assert Kills(MISSED.queue[0], PLANNED.index);
  }
}
