/** Which requests go out, and which inventories return their links (linux.rs). */
module InventoryReturns {
  import opened Wrappers
  import opened Identity
  import opened IdentityProtocol
  import opened ConfirmedNames

  // ---------------------------------------------------------------- between a dump and its end

  /** Outside of pauses no invalidation is pending, and the tokens just assigned are those stored. */
  ghost predicate Steady(s: System) {
    && (s.phase.Idle? || !s.transport.invalidated)
    && (s.phase.HaveTokens? ==> s.transport.generations == s.phase.tokens)
  }

  lemma StepKeepsSteady(s: System, step: Step)
    requires Steady(s) && Enabled(s, step)
    ensures Steady(Do(s, step))
  {
    hide Drained, Counted, FreshTokens, Assigned, Answer, Items, Recorded;
  }

  lemma {:induction false} BehaviourIsSteady(states: seq<System>, steps: seq<Step>, k: nat)
    requires Behaviour(states, steps) && k < |states|
    ensures Steady(states[k])
  {
    hide Steady, Do, Enabled;
    if k == 0 {
      InitialIsSteady();
    } else {
      BehaviourIsSteady(states, steps, k - 1);
      StepKeepsSteady(states[k - 1], steps[k - 1]);
    }
  }

  lemma InitialIsSteady()
    ensures Steady(INITIAL)
  {
  }

  // ---------------------------------------------------------------- the end of an inventory

  /** A notification that says a link may be gone: a deletion, or anything that hides one. */
  predicate Alarms(item: Item) {
    item.Deleted? || item.Unparseable? || item.Overrun? || item.Closed?
  }

  /** Nothing of the kind was recorded since the inventory began, or has arrived since. */
  ghost predicate Undisturbed(s: System)
    requires s.phase.HaveTokens?
  {
    && s.recorded == s.phase.since
    && s.arrived <= |s.queue|
    && forall k | 0 <= k < s.arrived :: s.queue[k].Note? ==> !Alarms(s.queue[k].item)
  }

  lemma {:induction false} CountedMeans(items: seq<Item>)
    ensures Counted(false, items) == 0 <==> forall item | item in items :: !Alarms(item)
  {
    if items != [] {
      assert items == [items[0]] + items[1..] && items[0] in items;
      if !items[0].Closed? {
        CountedMeans(items[1..]);
        assert Counted(false, items) == (if Alarms(items[0]) then 1 else 0) + Counted(false, items[1..]);
      }
    }
  }

  lemma {:induction false} NothingDrained(t: Transport, items: seq<Item>)
    requires Counted(t.notificationsClosed, items) == 0
    ensures Drained(t, items) == t
    decreases |items|
  {
    if items != [] && !t.notificationsClosed {
      NothingDrained(Recorded(t, items[0]), items[1..]);
    }
  }

  lemma ArrivedItems(s: System)
    requires Shaped(s)
    ensures var items := Items(s.queue[..s.arrived]);
            (forall item | item in items :: !Alarms(item)) <==>
            forall k | 0 <= k < s.arrived :: s.queue[k].Note? ==> !Alarms(s.queue[k].item)
  {
    var items := Items(s.queue[..s.arrived]);
    forall k | 0 <= k < s.arrived ensures s.queue[k].Note? && items[k] == s.queue[k].item && items[k] in items {
      assert s.queue[..s.arrived][k] in Channel(s);
    }
  }

  /** What a drain at the end of an inventory leaves, in terms of what has arrived. */
  lemma FinalDrain(s: System)
    requires Shaped(s) && !s.transport.notificationsClosed && !s.transport.invalidated
    requires s.transport.deletionEpoch == s.recorded % EPOCHS
    ensures var (drained, ok) := Drain(s);
            var items := Items(s.queue[..s.arrived]);
            && drained.recorded == s.recorded + Counted(false, items)
            && drained.transport.deletionEpoch == drained.recorded % EPOCHS
            && (Counted(false, items) == 0 ==> ok && drained.transport == s.transport)
            && (Counted(false, items) == 0 <==>
                  forall k | 0 <= k < s.arrived :: s.queue[k].Note? ==> !Alarms(s.queue[k].item))
  {
    hide Counted, Drained, Items;
    var items := Items(s.queue[..s.arrived]);
    ArrivedItems(s);
    CountedMeans(items);
    CountedEpoch(s.transport, items);
    if Counted(false, items) == 0 {
      NothingDrained(s.transport, items);
    }
  }

  lemma ReturnedExactly(s: System)
    requires Inv(s) && Steady(s) && Enabled(s, Finish)
    ensures Returned(s) ==
            if Undisturbed(s) && s.phase.links.Keys <= s.phase.tokens.Keys then HandedOut(s.phase.links, s.phase.tokens)
            else {}
  {
    hide Counted, Drain, HandedOut, Items, Inv;
    OpenAndCounting(s);
    var retained := AfterRetaining(s);
    FinalDrain(retained);
    FinalDrain(s);
    if Undisturbed(s) {
      AllStillAssigned(s.phase.links, s.phase.tokens);
    } else {
      EpochsDiffer(s.phase.since, s.recorded + Counted(false, Items(s.queue[..s.arrived])));
    }
  }

  lemma AllStillAssigned(links: map<u32, Link>, tokens: map<u32, u64>)
    ensures StillAssigned(links, tokens, Retained(tokens, links.Keys)) <==> links.Keys <= tokens.Keys
  {
  }

  lemma OpenAndCounting(s: System)
    requires Inv(s) && s.phase.HaveTokens?
    ensures Shaped(s) && !s.transport.notificationsClosed
    ensures s.phase.since <= s.recorded && s.phase.epoch == s.phase.since % EPOCHS
    ensures s.transport.deletionEpoch == s.recorded % EPOCHS
  {
  }

  lemma EpochsDiffer(since: nat, recorded: nat)
    requires since < recorded < since + EPOCHS
    ensures since % EPOCHS != recorded % EPOCHS
  {
    assert recorded - since == EPOCHS * (recorded / EPOCHS - since / EPOCHS) + (recorded % EPOCHS - since % EPOCHS);
  }

  /**
   In every behaviour, an inventory returns all links of its dump with their
   tokens exactly if every link got one and no deletion, nor anything that hides
   one, was recorded or has arrived since it began; otherwise it returns nothing.
   Only links of its dump have tokens afterwards, and undisturbed ones keep theirs.
   */
  lemma InventoryReturnsExactly(states: seq<System>, steps: seq<Step>, k: nat)
    requires Behaviour(states, steps) && k < |steps| && steps[k].Finish?
    ensures states[k].phase.HaveTokens? && states[k + 1].phase.Idle?
    ensures var links, tokens := states[k].phase.links, states[k].phase.tokens;
            states[k + 1].exposed == states[k].exposed +
              if Undisturbed(states[k]) && links.Keys <= tokens.Keys
              then set index | index in links :: Exposure(index, tokens[index], links[index].incarnation)
              else {}
    ensures var links, tokens, left := states[k].phase.links, states[k].phase.tokens,
                                       states[k + 1].transport.generations;
            && (forall index | index in left :: index in links && index in tokens && left[index] == tokens[index])
            && (Undisturbed(states[k]) ==> forall index | index in links && index in tokens :: index in left)
  {
    hide Inv, Steady, Undisturbed;
    BehaviourKeepsInv(states, steps, k);
    BehaviourIsSteady(states, steps, k);
    var s := states[k];
    assert Enabled(s, steps[k]) && states[k + 1] == Do(s, steps[k]);
    ReturnedExactly(s);
    FinishAdds(s);
    FinishKeepsTokens(s);
    var links, tokens := s.phase.links, s.phase.tokens;
    if links.Keys <= tokens.Keys {
      assert HandedOut(links, tokens)
          == set index | index in links :: Exposure(index, tokens[index], links[index].incarnation);
    }
  }

  /** The tokens stored after an inventory are those of its links that nothing has retired. */
  lemma FinishKeepsTokens(s: System)
    requires Inv(s) && Steady(s) && Enabled(s, Finish)
    ensures var left := Do(s, Finish).transport.generations;
            && (forall index | index in left ::
                  index in s.phase.links && index in s.phase.tokens && left[index] == s.phase.tokens[index])
            && (Undisturbed(s) ==> forall index | index in s.phase.links && index in s.phase.tokens :: index in left)
  {
    hide Counted, Drained, Items, Inv, Returned;
    OpenAndCounting(s);
    var retained := AfterRetaining(s);
    FinalDrain(retained);
    forall index ensures var left := Do(s, Finish).transport.generations;
      index in left ==> index in retained.transport.generations
                        && left[index] == retained.transport.generations[index] {
      DrainedTokens(retained.transport, Items(s.queue[..s.arrived]), index);
    }
  }

  lemma FinishAdds(s: System)
    requires Enabled(s, Finish)
    ensures Do(s, Finish).exposed == s.exposed + Returned(s) && Do(s, Finish).phase.Idle?
  {
    hide Drained, Counted, Returned;
  }

  // ---------------------------------------------------------------- requests

  /** No invalidation is pending or has arrived, and the stream is open. */
  ghost predicate Trusting(s: System)
    requires Shaped(s)
  {
    && !s.transport.invalidated && !s.transport.notificationsClosed
    && forall m | m in Channel(s) :: !(m.item.Unparseable? || m.item.Overrun? || m.item.Closed?)
  }

  lemma ReadyIff(s: System)
    requires Inv(s)
    ensures Shaped(s)
    ensures Ready(s).1 <==> Trusting(s)
  {
    hide Drained, Pending, ReplySound, PhaseSound, Fated, TokensDistinct, Exposures;
    var t, items := s.transport, Items(Channel(s));
    forall item: Item ensures item in items <==> exists m | m in Channel(s) :: m.item == item {
      ChannelItems(s, item);
    }
    DrainedClosing(t, items);
    if !t.notificationsClosed {
      DrainedInvalidation(t, items);
      assert Closed in items ==> Invalidates(Closed);
      forall m | m in Channel(s) ensures m.item in items {
        ChannelItems(s, m.item);
      }
      if item :| item in items && Invalidates(item) {
        var m :| m in Channel(s) && m.item == item;
        assert !Trusting(s);
      }
    }
  }

  /** A request goes out, confirmed writes included, exactly if the transport still trusts what it was notified of. */
  lemma RequestsGoOutIff(s: System, step: Step)
    requires Inv(s) && Enabled(s, step)
    requires step.RequestLinks? || step.RequestAddresses? || step.BeginConfirm? || step.SubmitWrite?
    ensures var next := Do(s, step);
            var write := step.SubmitWrite? && Trusting(s);
            && next.requests == s.requests + 1
            && next.sent == s.sent + (if write then {Write(s.requests, s.phase.index, s.phase.generation)} else {})
            && next.phase == if !Trusting(s) then Idle
                             else match step
                               case RequestLinks => AwaitLinks(s.requests, s.phase.since, s.phase.epoch)
                               case RequestAddresses =>
                                 AwaitAddresses(s.requests, s.phase.since, s.phase.epoch, s.phase.links)
                               case BeginConfirm(index, generation, name) =>
                                 AwaitConfirm(s.requests, index, generation, name)
                               case _ => AwaitWrite(s.requests, s.phase.index, s.phase.generation)
  {
    hide Inv, Trusting, Drained, Counted, Items;
    ReadyIff(s);
    assert s.sent + {} == s.sent;
  }
}
