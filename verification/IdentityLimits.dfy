/** Why the token laws speak of tokens that inventories returned, not of every stored one (linux.rs). */
module IdentityLimits {
  import opened Wrappers
  import opened Identity
  import opened IdentityProtocol

  /** The table holds a token of a link that is gone, and nothing on its way will take it out. */
  ghost predicate HoldsStaleToken(s: System, index: u32) {
    index in s.transport.generations && index !in s.links && !Pending(s.queue, index)
  }

  ghost predicate NoStaleTokens(s: System) {
    forall index | index in s.transport.generations :: index in s.links || Pending(s.queue, index)
  }

  // ---------------------------------------------------------------- where stale tokens come from

  /** A deletion was recorded since the inventory began, so it can no longer succeed. */
  ghost predicate Doomed(s: System) {
    s.phase.HaveAddresses? && s.recorded != s.phase.since
  }

  lemma DrainLeavesNone(s: System)
    requires Inv(s) && NoStaleTokens(s)
    ensures NoStaleTokens(Drain(s).0)
  {
    hide Inv, Pending, Drain;
    DrainKeepsLinks(s);
    var d := Drain(s).0;
    forall index | index in d.transport.generations ensures index in d.links || Pending(d.queue, index) {
      DrainEffect(s, index);
    }
  }

  lemma DrainKeepsLinks(s: System)
    requires Inv(s)
    ensures Shaped(s) && Drain(s).0.links == s.links
  {
    hide Pending;
  }

  lemma KernelLeavesNone(s: System, step: Step)
    requires Inv(s) && Enabled(s, step) && (step.Create? || step.Delete? || step.Rename? || step.Mention?)
    requires NoStaleTokens(s)
    ensures NoStaleTokens(Do(s, step))
  {
    hide Pending, Inv, KeepsReply;
    var next := Do(s, step);
    match step {
      case Create(index, name) => ReportedQueue(s, |s.queue|, Unrelated, next);
      case Rename(index, name) => ReportedQueue(s, |s.queue|, Unrelated, next);
      case Mention(item) => ReportedQueue(s, |s.queue|, item, next);
      case Delete(index, report, position) =>
        ReportedQueue(s, position, report, next);
        DeletedIsPending(s, index, report, next);
        ClosedHoldsNothing(s);
    }
  }

  lemma ClosedHoldsNothing(s: System)
    requires Inv(s)
    ensures s.transport.notificationsClosed ==> s.transport.generations == map[]
  {
    hide Pending;
  }

  lemma SocketLeavesNone(s: System, step: Step)
    requires Inv(s) && Enabled(s, step) && (step.Serve? || step.Land? || step.Forward? || step.Deliver? || step.Close?)
    requires NoStaleTokens(s)
    ensures NoStaleTokens(Do(s, step))
  {
    hide Inv;
    var next := Do(s, step);
    match step {
      case Serve =>
        forall index | Pending(s.queue, index) ensures Pending(next.queue, index) {
          PendingGrows(s.queue, next.queue, index);
        }
      case Land(write) =>
        forall index | Pending(s.queue, index) ensures Pending(next.queue, index) {
          PendingGrows(s.queue, next.queue, index);
        }
      case Forward =>
      case Deliver =>
        forall index | Pending(s.queue, index) ensures Pending(next.queue, index) {
          DeliveredPending(s, next, index);
        }
      case Close =>
        forall index ensures Pending(next.queue, index) {
          assert next.queue[|next.queue| - 1] == Note(Closed) && Kills(Note(Closed), index);
        }
    }
  }

  lemma RecordingLeavesNone(s: System)
    requires Inv(s) && Enabled(s, RecordNext) && NoStaleTokens(s)
    ensures NoStaleTokens(Do(s, RecordNext))
  {
    hide Inv;
    var next := Do(s, RecordNext);
    assert s.queue == [s.queue[0]] + next.queue;
    forall index | index in next.transport.generations ensures index in next.links || Pending(next.queue, index) {
      RecordedToken(s, index);
    }
  }

  /** Tokens are stale from the start exactly when they are drawn for links that are gone. */
  lemma AssigningLeavesNone(s: System, order: seq<u32>, drawn: map<u32, u64>)
    requires Inv(s) && Enabled(s, AssignTokens(order, drawn)) && NoStaleTokens(s)
    ensures NoStaleTokens(Do(s, AssignTokens(order, drawn))) <==>
      forall index | index in order :: index in s.transport.generations || index in s.links || Pending(s.queue, index)
    ensures !Doomed(s) ==> NoStaleTokens(Do(s, AssignTokens(order, drawn)))
  {
    hide Inv, Pending;
    forall index
      ensures index in Assigned(s.transport.generations, order, drawn)
        <==> index in s.transport.generations || index in order
    {
      AssignedTokens(s.transport.generations, order, drawn, index);
    }
    if !Doomed(s) {
      DumpedIsAlive(s);
    }
  }

  lemma DumpedIsAlive(s: System)
    requires Inv(s) && s.phase.HaveAddresses? && s.recorded == s.phase.since
    ensures forall index | index in s.phase.links :: index in s.links || Pending(s.queue, index)
  {
    hide Pending, ReplySound, Fated;
    assert forall i, x :: Alive(s, i, x) ==> i in s.links;
  }

  lemma TransportLeavesNone(s: System, step: Step)
    requires Inv(s) && Enabled(s, step) && NoStaleTokens(s)
    requires step.Begin? || step.RequestLinks? || step.RequestAddresses? || step.GiveUp? || step.Finish?
      || step.BeginConfirm? || step.Conclude? || step.SubmitWrite?
    ensures NoStaleTokens(Do(s, step))
  {
    hide Inv, Pending, Drain;
    if step.Finish? {
      RetainKeepsInv(s);
      DrainLeavesNone(AfterRetaining(s));
    } else {
      DrainLeavesNone(s);
    }
  }

  /** Every step but the assignment of a doomed inventory leaves no stale token behind. */
  lemma OnlyDoomedInventoriesLeaveTokens(s: System, step: Step)
    requires Inv(s) && Enabled(s, step) && NoStaleTokens(s)
    ensures NoStaleTokens(Do(s, step)) || (step.AssignTokens? && Doomed(s))
  {
    hide Inv, NoStaleTokens, Enabled, Do;
    match step {
      case Create(_, _) => KernelLeavesNone(s, step);
      case Delete(_, _, _) => KernelLeavesNone(s, step);
      case Rename(_, _) => KernelLeavesNone(s, step);
      case Mention(_) => KernelLeavesNone(s, step);
      case Serve => SocketLeavesNone(s, step);
      case Land(_) => SocketLeavesNone(s, step);
      case Forward => SocketLeavesNone(s, step);
      case Deliver => SocketLeavesNone(s, step);
      case Close => SocketLeavesNone(s, step);
      case RecordNext => RecordingLeavesNone(s);
      case AssignTokens(order, drawn) => AssigningLeavesNone(s, order, drawn);
      case _ => TransportLeavesNone(s, step);
    }
  }

  /** In every behaviour a stale token was drawn by an inventory that a recorded deletion had already doomed. */
  lemma {:induction false} StaleTokensComeFromDoomedInventories(states: seq<System>, steps: seq<Step>, k: nat)
    returns (j: nat)
    requires Behaviour(states, steps) && k < |states| && !NoStaleTokens(states[k])
    ensures j < k && steps[j].AssignTokens? && Doomed(states[j])
  {
    hide Inv, NoStaleTokens, Do, Enabled;
    InitiallyNone();
    BehaviourKeepsInv(states, steps, k - 1);
    if NoStaleTokens(states[k - 1]) {
      OnlyDoomedInventoriesLeaveTokens(states[k - 1], steps[k - 1]);
      j := k - 1;
    } else {
      j := StaleTokensComeFromDoomedInventories(states, steps, k - 1);
    }
  }

  /** Such an inventory ends without handing out anything. */
  lemma DoomedInventoriesFail(s: System)
    requires Inv(s) && Enabled(s, Finish) && s.recorded != s.phase.since
    ensures Do(s, Finish).exposed == s.exposed
  {
    hide Inv, Pending;
    if Do(s, Finish).exposed != s.exposed {
      RetainKeepsInv(s);
      ClosedIsIdle(s);
      NothingRecorded(AfterRetaining(s));
    }
  }

  lemma ClosedIsIdle(s: System)
    requires Inv(s) && s.phase.HaveTokens?
    ensures !s.transport.notificationsClosed
  {
    hide Pending;
  }

  lemma InitiallyNone()
    ensures NoStaleTokens(INITIAL)
  {
  }

  // ---------------------------------------------------------------- a failed inventory

  const LINK := Link(0, "eth0")
  const SEEN: map<u32, Link> := map[1 := LINK]
  const TOKENS: map<u32, u64> := map[1 := 7]

  const FRESH := Transport(map[], 0, false, false)
  const COUNTED := Transport(map[], 1, false, false)
  const HOLDING := Transport(TOKENS, 1, false, false)

  const CREATED := System(SEEN, 1, [Note(Unrelated)], 0, false, FRESH, 0, Idle, 0, {}, {}, {}, {}, {})
  const FORWARDED := CREATED.(arrived := 1)
  const STARTED := CREATED.(queue := [], phase := Started(0, 0))
  const ASKED_LINKS := STARTED.(requests := 1, phase := AwaitLinks(0, 0, 0))
  const SERVED_LINKS := ASKED_LINKS.(queue := [LinkDump(0, SEEN)])
  const HELD_LINKS := ASKED_LINKS.(phase := HaveLinks(0, 0, SEEN))
  const DELETED := HELD_LINKS.(links := map[], queue := [Note(Deleted(1))])
  const TOLD := DELETED.(arrived := 1)
  const ASKED_ADDRESSES :=
    System(map[], 1, [], 0, false, COUNTED, 1, AwaitAddresses(1, 0, 0, SEEN), 2, {}, {}, {}, {}, {})
  const SERVED_ADDRESSES := ASKED_ADDRESSES.(queue := [AddressDump(1)])
  const HELD_ADDRESSES := ASKED_ADDRESSES.(phase := HaveAddresses(0, 0, SEEN))
  const ASSIGNED := HELD_ADDRESSES.(transport := HOLDING, used := {7}, phase := HaveTokens(0, 0, SEEN, TOKENS))
  const FAILED := ASSIGNED.(phase := Idle)

  ghost predicate Leads(s: System, step: Step, next: System) {
    Enabled(s, step) && Do(s, step) == next
  }

  /** Draining an empty channel changes nothing. */
  lemma EmptyDrain(s: System)
    requires s.arrived == 0 && !s.transport.invalidated
    ensures Drain(s) == (s, true)
  {
    assert Items(s.queue[..0]) == [];
    assert s.queue[0..] == s.queue;
  }

  /** Draining one item records it. */
  lemma OneDrained(s: System, item: Item)
    requires s.arrived == 1 && s.queue == [Note(item)] && !s.transport.notificationsClosed
    ensures var recorded := Recorded(s.transport, item);
            Drain(s) == (s.(queue := [], arrived := 0, transport := recorded.(invalidated := false),
                            recorded := s.recorded + if Counts(item) then 1 else 0), !recorded.invalidated)
  {
    hide Recorded, Counts;
    assert s.queue[..1] == s.queue && s.queue[1..] == [];
    var items := Items(s.queue[..1]);
    assert items == [item] && items[1..] == [];
    assert Drained(Recorded(s.transport, item), items[1..]) == Recorded(s.transport, item);
    assert Counted(item.Closed?, items[1..]) == 0;
  }

  lemma FirstSteps()
    ensures Leads(INITIAL, Create(1, "eth0"), CREATED)
    ensures Leads(CREATED, Forward, FORWARDED)
  {
    assert INITIAL.queue[..0] + [Note(Unrelated)] + INITIAL.queue[0..] == [Note(Unrelated)];
  }

  lemma Begins()
    ensures Leads(FORWARDED, Begin, STARTED)
    ensures Leads(STARTED, RequestLinks, ASKED_LINKS)
  {
    hide Drain;
    OneDrained(FORWARDED, Unrelated);
    EmptyDrain(STARTED);
  }

  lemma ServesLinks()
    ensures Leads(ASKED_LINKS, Serve, SERVED_LINKS)
    ensures Leads(SERVED_LINKS, Deliver, HELD_LINKS)
  {
    assert SERVED_LINKS.queue[..0] + SERVED_LINKS.queue[1..] == [];
  }

  lemma Deletes()
    ensures Leads(HELD_LINKS, Delete(1, Deleted(1), 0), DELETED)
    ensures Leads(DELETED, Forward, TOLD)
  {
    assert HELD_LINKS.queue[..0] + [Note(Deleted(1))] + HELD_LINKS.queue[0..] == [Note(Deleted(1))];
    assert SEEN - {1} == map[];
  }

  lemma RequestsAddresses()
    ensures Leads(TOLD, RequestAddresses, ASKED_ADDRESSES)
  {
    hide Drain;
    OneDrained(TOLD, Deleted(1));
    assert FRESH.generations - {1} == map[];
  }

  lemma ServesAddresses()
    ensures Leads(ASKED_ADDRESSES, Serve, SERVED_ADDRESSES)
    ensures Leads(SERVED_ADDRESSES, Deliver, HELD_ADDRESSES)
  {
    assert SERVED_ADDRESSES.queue[..0] + SERVED_ADDRESSES.queue[1..] == [];
  }

  lemma Assigns()
    ensures Leads(HELD_ADDRESSES, AssignTokens([1], TOKENS), ASSIGNED)
  {
    assert [1][1..] == [];
    assert Assigned(map[], [1], TOKENS) == TOKENS;
    assert TOKENS.Values == {7};
  }

  lemma Fails()
    ensures Leads(ASSIGNED, Finish, FAILED)
  {
    assert Retained(TOKENS, SEEN.Keys) == TOKENS;
    assert AfterRetaining(ASSIGNED) == ASSIGNED;
    EmptyDrain(ASSIGNED);
  }

  ghost predicate EndsIn(states: seq<System>, steps: seq<Step>, last: System) {
    Behaviour(states, steps) && states[|steps|] == last
  }

  /** One more step of a behaviour. */
  lemma Extended(states: seq<System>, steps: seq<Step>, last: System, step: Step, next: System)
    returns (states': seq<System>, steps': seq<Step>)
    requires EndsIn(states, steps, last) && Leads(last, step, next)
    ensures EndsIn(states', steps', next)
  {
    hide Enabled, Do;
    states', steps' := states + [next], steps + [step];
    forall k | 0 <= k < |steps'| ensures Enabled(states'[k], steps'[k]) && states'[k + 1] == Do(states'[k], steps'[k]) {
      if k < |steps| {
        assert states'[k] == states[k] && states'[k + 1] == states[k + 1];
      }
    }
  }

  lemma Starts()
    ensures EndsIn([INITIAL], [], INITIAL)
  {
  }

  lemma UntilLinksAreHeld() returns (states: seq<System>, steps: seq<Step>)
    ensures EndsIn(states, steps, HELD_LINKS)
  {
    hide Leads, EndsIn;
    FirstSteps();
    Begins();
    ServesLinks();
    Starts();
    states, steps := Extended([INITIAL], [], INITIAL, Create(1, "eth0"), CREATED);
    states, steps := Extended(states, steps, CREATED, Forward, FORWARDED);
    states, steps := Extended(states, steps, FORWARDED, Begin, STARTED);
    states, steps := Extended(states, steps, STARTED, RequestLinks, ASKED_LINKS);
    states, steps := Extended(states, steps, ASKED_LINKS, Serve, SERVED_LINKS);
    states, steps := Extended(states, steps, SERVED_LINKS, Deliver, HELD_LINKS);
  }

  lemma Run() returns (states: seq<System>, steps: seq<Step>)
    ensures EndsIn(states, steps, FAILED)
  {
    hide Leads, EndsIn;
    Deletes();
    RequestsAddresses();
    ServesAddresses();
    Assigns();
    Fails();
    states, steps := UntilLinksAreHeld();
    states, steps := Extended(states, steps, HELD_LINKS, Delete(1, Deleted(1), 0), DELETED);
    states, steps := Extended(states, steps, DELETED, Forward, TOLD);
    states, steps := Extended(states, steps, TOLD, RequestAddresses, ASKED_ADDRESSES);
    states, steps := Extended(states, steps, ASKED_ADDRESSES, Serve, SERVED_ADDRESSES);
    states, steps := Extended(states, steps, SERVED_ADDRESSES, Deliver, HELD_ADDRESSES);
    states, steps := Extended(states, steps, HELD_ADDRESSES, AssignTokens([1], TOKENS), ASSIGNED);
    states, steps := Extended(states, steps, ASSIGNED, Finish, FAILED);
  }

  /**
   A link that vanishes between the two dumps makes the inventory fail, yet leaves
   its token in the table, with nothing on its way to retire it; no inventory returned it.
   */
  lemma FailedInventoriesLeaveTokens()
    ensures exists states, steps :: Behaviour(states, steps) && states[|steps|] == FAILED
    ensures HoldsStaleToken(FAILED, 1) && FAILED.exposed == {}
  {
    hide Behaviour;
    var states, steps := Run();
    BehaviourOf(states, steps, FAILED);
  }

  lemma BehaviourOf(states: seq<System>, steps: seq<Step>, last: System)
    requires EndsIn(states, steps, last)
    ensures Behaviour(states, steps) && |states| == |steps| + 1 && states[|steps|] == last
  {
  }
}
