/**
 The kernel, the netlink socket and the transport as interleaved steps, and why a
 token never names two incarnations of a link (linux.rs).
 */
module IdentityProtocol {
  import opened Wrappers
  import opened Identity

  // ---------------------------------------------------------------- states

  /** One life of an interface index. */
  datatype Link = Link(incarnation: nat, name: string)

  /** What travels over the socket, in order. */
  datatype Message =
    | Note(item: Item)
    | LinkDump(request: nat, links: map<u32, Link>)
    | AddressDump(request: nat)
    | LinkReply(request: nat, link: Option<Link>)
    | WriteReply(request: nat)

  /** A token handed out for a link, and the incarnation that was seen. */
  datatype Exposure = Exposure(index: u32, generation: u64, incarnation: nat)

  /** A write on its way to the kernel, for the link and token it was confirmed for. */
  datatype Write = Write(request: nat, index: u32, generation: u64)

  /** A write the kernel has carried out, and the incarnation that held the index then. */
  datatype Landing = Landing(write: Write, reached: Option<nat>)

  /** Where the transport is; `since` counts what was recorded before the inventory began. */
  datatype Phase =
    | Idle
    | Started(since: nat, epoch: u64)
    | AwaitLinks(request: nat, since: nat, epoch: u64)
    | HaveLinks(since: nat, epoch: u64, links: map<u32, Link>)
    | AwaitAddresses(request: nat, since: nat, epoch: u64, links: map<u32, Link>)
    | HaveAddresses(since: nat, epoch: u64, links: map<u32, Link>)
    | HaveTokens(since: nat, epoch: u64, links: map<u32, Link>, tokens: map<u32, u64>)
    | AwaitConfirm(request: nat, index: u32, generation: u64, name: string)
    | Answered(index: u32, generation: u64, name: string, link: Option<Link>)
    | Confirmed(index: u32, generation: u64)
    | AwaitWrite(request: nat, index: u32, generation: u64)
  {
    predicate Inventory() {
      HaveLinks? || AwaitAddresses? || HaveAddresses? || HaveTokens?
    }
  }

  /**
   The first `arrived` messages of the queue were forwarded to the notification
   channel; the others are still on the wire.
   */
  datatype System = System(
    links: map<u32, Link>,
    incarnations: nat,
    queue: seq<Message>,
    arrived: nat,
    dead: bool,
    transport: Transport,
    recorded: nat,
    phase: Phase,
    requests: nat,
    used: set<u64>,
    exposed: set<Exposure>,
    confirmed: set<Exposure>,
    sent: set<Write>,
    landed: set<Landing>)

  const INITIAL := System(map[], 0, [], 0, false, Transport(map[], 0, false, false), 0, Idle, 0, {}, {}, {}, {}, {})

  // ---------------------------------------------------------------- recording

  function Items(messages: seq<Message>): seq<Item>
    requires forall m | m in messages :: m.Note?
  {
    seq(|messages|, k requires 0 <= k < |messages| => assert messages[k] in messages; messages[k].item)
  }

  /** Which items advance the deletion epoch. */
  predicate Counts(item: Item) {
    item.Deleted? || item.Unparseable? || item.Overrun? || item.Closed?
  }

  /** How many of the items a drain records. */
  function Counted(closed: bool, items: seq<Item>): nat
    decreases |items|
  {
    if items == [] || closed then 0
    else (if Counts(items[0]) then 1 else 0) + Counted(items[0].Closed?, items[1..])
  }

  /** Everything in the channel is recorded at once. */
  function Drain(s: System): (System, bool)
    requires s.arrived <= |s.queue| && forall m | m in s.queue[..s.arrived] :: m.Note?
  {
    var items := Items(s.queue[..s.arrived]);
    var drained := Drained(s.transport, items);
    (s.(queue := s.queue[s.arrived..],
        arrived := 0,
        transport := drained.(invalidated := false),
        recorded := s.recorded + Counted(s.transport.notificationsClosed, items)),
     !drained.invalidated)
  }

  // ---------------------------------------------------------------- steps

  datatype Step =
    // the kernel and the socket
    | Create(index: u32, name: string)
    | Delete(index: u32, report: Item, position: nat)
    | Rename(index: u32, name: string)
    | Mention(item: Item)
    | Serve
    | Land(write: Write)
    | Forward
    | Deliver
    | Close
    // the transport
    | RecordNext
    | Begin
    | RequestLinks
    | RequestAddresses
    | AssignTokens(order: seq<u32>, drawn: map<u32, u64>)
    | GiveUp
    | Finish
    | BeginConfirm(index: u32, generation: u64, name: string)
    | Conclude
    | SubmitWrite

  function Channel(s: System): seq<Message>
    requires s.arrived <= |s.queue|
  {
    s.queue[..s.arrived]
  }

  predicate Shaped(s: System) {
    s.arrived <= |s.queue| && forall m | m in Channel(s) :: m.Note?
  }

  predicate FreshTokens(s: System, order: seq<u32>, drawn: map<u32, u64>) {
    && (forall index | index in order :: index in drawn)
    && (forall index | index in drawn :: drawn[index] !in s.used)
    && (forall i, j | i in drawn && j in drawn && i != j :: drawn[i] != drawn[j])
  }

  predicate Enabled(s: System, step: Step) {
    Shaped(s) &&
    match step
    case Create(index, _) => index !in s.links
    // A deletion is reported in order, or lost with an overrun marker anywhere on the wire.
    case Delete(index, report, position) =>
      && index in s.links
      && (|| (report == Deleted(index) && position == |s.queue|)
          || (report == Unparseable && position == |s.queue|)
          || (report == Overrun && s.arrived <= position <= |s.queue|))
    case Rename(index, _) => index in s.links
    case Mention(item) => item.BridgePortLeft? || item.Unrelated?
    case Serve => !s.dead && (s.phase.AwaitLinks? || s.phase.AwaitAddresses? || s.phase.AwaitConfirm?)
    // A write may be carried out after the transport gave up on it.
    case Land(write) => !s.dead && write in s.sent
    case Forward => s.arrived < |s.queue| && s.queue[s.arrived].Note?
    case Deliver => s.arrived < |s.queue| && !s.queue[s.arrived].Note?
    case Close => !s.dead
    case RecordNext => s.phase.Idle? && s.arrived > 0
    case Begin => s.phase.Idle?
    case RequestLinks => s.phase.Started?
    case RequestAddresses => s.phase.HaveLinks?
    // A failed inventory may stop after any number of tokens.
    case AssignTokens(order, drawn) =>
      s.phase.HaveAddresses? && (forall index | index in order :: index in s.phase.links)
        && FreshTokens(s, order, drawn)
    case GiveUp => true
    // The epoch does not wrap around within one inventory.
    case Finish => s.phase.HaveTokens? && Drain(s).0.recorded < s.phase.since + EPOCHS
    case BeginConfirm(index, generation, _) =>
      s.phase.Idle? && exists e | e in s.exposed :: e.index == index && e.generation == generation
    case Conclude => s.phase.Answered?
    case SubmitWrite => s.phase.Confirmed?
  }

  /** The kernel's answer to the outstanding request. */
  function Answer(s: System): Message
    requires s.phase.AwaitLinks? || s.phase.AwaitAddresses? || s.phase.AwaitConfirm?
  {
    match s.phase
    case AwaitLinks(request, _, _) => LinkDump(request, s.links)
    case AwaitAddresses(request, _, _, _) => AddressDump(request)
    case AwaitConfirm(request, index, _, _) =>
      LinkReply(request, if index in s.links then Some(s.links[index]) else None)
  }

  /** The phase after a reply; a reply to another request changes nothing. */
  function Received(phase: Phase, message: Message): Phase {
    match (phase, message)
    case (AwaitLinks(request, since, epoch), LinkDump(answered, links)) =>
      if answered == request then HaveLinks(since, epoch, links) else phase
    case (AwaitAddresses(request, since, epoch, links), AddressDump(answered)) =>
      if answered == request then HaveAddresses(since, epoch, links) else phase
    case (AwaitConfirm(request, index, generation, name), LinkReply(answered, link)) =>
      if answered == request then Answered(index, generation, name, link) else phase
    case (AwaitWrite(request, _, _), WriteReply(answered)) => if answered == request then Idle else phase
    case _ => phase
  }

  /** On a dead connection nothing is reported any more. */
  function Reported(s: System, position: nat, item: Item): System
    requires position <= |s.queue|
  {
    if s.dead then s else s.(queue := s.queue[..position] + [Note(item)] + s.queue[position..])
  }

  /** Which link a write reaches depends on its index alone. */
  function LandingOf(s: System, write: Write): Landing {
    Landing(write, if write.index in s.links then Some(s.links[write.index].incarnation) else None)
  }

  /** Drain, then go on if nothing was invalidated and the connection still takes requests. */
  function Ready(s: System): (System, bool)
    requires Shaped(s)
  {
    var (drained, ok) := Drain(s);
    (drained.(phase := Idle, requests := drained.requests + 1), ok && !drained.transport.notificationsClosed)
  }

  /** Tokens of links that the dump did not show are forgotten. */
  function AfterRetaining(s: System): System
    requires s.phase.HaveTokens?
  {
    s.(transport := s.transport.(generations := Retained(s.transport.generations, s.phase.links.Keys)))
  }

  /** The links of a dump with their tokens and the incarnations it saw. */
  function HandedOut(links: map<u32, Link>, tokens: map<u32, u64>): set<Exposure> {
    set index | index in links && index in tokens :: Exposure(index, tokens[index], links[index].incarnation)
  }

  /** Every link of the dump still has the token that was assigned to it. */
  predicate StillAssigned(links: map<u32, Link>, tokens: map<u32, u64>, generations: map<u32, u64>) {
    forall index | index in links ::
      index in tokens && index in generations && generations[index] == tokens[index]
  }

  /** What an inventory returns: its links, unless something was recorded meanwhile or a token was retired. */
  function Returned(s: System): set<Exposure>
    requires Shaped(s) && s.phase.HaveTokens?
  {
    var (drained, ok) := Drain(AfterRetaining(s));
    if ok && drained.transport.deletionEpoch == s.phase.epoch
       && StillAssigned(s.phase.links, s.phase.tokens, drained.transport.generations)
    then HandedOut(s.phase.links, s.phase.tokens)
    else {}
  }

  function FinishInventory(s: System): System
    requires Shaped(s) && s.phase.HaveTokens?
  {
    Drain(AfterRetaining(s)).0.(phase := Idle, exposed := s.exposed + Returned(s))
  }

  function ConcludeConfirm(s: System): System
    requires Shaped(s) && s.phase.Answered?
  {
    var (drained, ok) := Drain(s);
    var p, generations := s.phase, drained.transport.generations;
    if ok && p.link.Some? && p.index in generations && generations[p.index] == p.generation
      && p.link.value.name == p.name
    then
      drained.(phase := Confirmed(p.index, p.generation),
               confirmed := drained.confirmed + {Exposure(p.index, p.generation, p.link.value.incarnation)})
    else drained.(phase := Idle)
  }

  function Do(s: System, step: Step): System
    requires Enabled(s, step)
  {
    match step
    case Create(index, name) =>
      Reported(s, |s.queue|, Unrelated).(links := s.links[index := Link(s.incarnations, name)],
                                         incarnations := s.incarnations + 1)
    case Delete(index, report, position) => Reported(s, position, report).(links := s.links - {index})
    case Rename(index, name) =>
      Reported(s, |s.queue|, Unrelated).(links := s.links[index := s.links[index].(name := name)])
    case Mention(item) => Reported(s, |s.queue|, item)
    case Serve => s.(queue := s.queue + [Answer(s)])
    case Land(write) =>
      s.(queue := s.queue + [WriteReply(write.request)],
         sent := s.sent - {write},
         landed := s.landed + {LandingOf(s, write)})
    case Forward => s.(arrived := s.arrived + 1)
    case Deliver =>
      s.(queue := s.queue[..s.arrived] + s.queue[s.arrived + 1..], phase := Received(s.phase, s.queue[s.arrived]))
    case Close => s.(queue := Channel(s) + [Note(Closed)], dead := true)
    case RecordNext =>
      assert s.queue[0] == Channel(s)[0];
      s.(queue := s.queue[1..],
         arrived := s.arrived - 1,
         transport := if s.transport.notificationsClosed then s.transport else Recorded(s.transport, s.queue[0].item),
         recorded := s.recorded + Counted(s.transport.notificationsClosed, [s.queue[0].item]))
    case Begin =>
      var (drained, ok) := Drain(s);
      drained.(phase := if ok then Started(drained.recorded, drained.transport.deletionEpoch) else Idle)
    case RequestLinks =>
      var (ready, ok) := Ready(s);
      if ok then ready.(phase := AwaitLinks(s.requests, s.phase.since, s.phase.epoch)) else ready
    case RequestAddresses =>
      var (ready, ok) := Ready(s);
      if ok then ready.(phase := AwaitAddresses(s.requests, s.phase.since, s.phase.epoch, s.phase.links)) else ready
    case AssignTokens(order, drawn) =>
      var generations := Assigned(s.transport.generations, order, drawn);
      s.(transport := s.transport.(generations := generations),
         used := s.used + drawn.Values,
         phase := HaveTokens(s.phase.since, s.phase.epoch, s.phase.links, generations))
    case GiveUp => s.(phase := Idle)
    case Finish => FinishInventory(s)
    case BeginConfirm(index, generation, name) =>
      var (ready, ok) := Ready(s);
      if ok then ready.(phase := AwaitConfirm(s.requests, index, generation, name)) else ready
    case Conclude => ConcludeConfirm(s)
    // The token is not looked up again between the confirmation and the write.
    case SubmitWrite =>
      var (ready, ok) := Ready(s);
      var index, generation := s.phase.index, s.phase.generation;
      if ok then
        ready.(phase := AwaitWrite(s.requests, index, generation),
               sent := s.sent + {Write(s.requests, index, generation)})
      else ready
  }

  // ---------------------------------------------------------------- the invariant

  /** Recording the item takes the token of the link away. */
  ghost predicate Kills(m: Message, index: u32) {
    m.Note? && (m.item == Deleted(index) || m.item.Unparseable? || m.item.Overrun? || m.item.Closed?)
  }

  ghost predicate Pending(messages: seq<Message>, index: u32) {
    exists m | m in messages :: Kills(m, index)
  }

  ghost predicate Alive(s: System, index: u32, incarnation: nat) {
    index in s.links && s.links[index].incarnation == incarnation
  }

  /** The token is still in use for the link it was handed out for. */
  ghost predicate Bound(s: System, e: Exposure) {
    && e in s.exposed
    && e.index in s.transport.generations
    && s.transport.generations[e.index] == e.generation
  }

  ghost predicate Shows(links: map<u32, Link>, e: Exposure) {
    e.index in links && links[e.index].incarnation == e.incarnation
  }

  /** A dump agrees with every token in use, or what retires the token comes before it; and likewise afterwards. */
  ghost predicate SnapshotSound(s: System, links: map<u32, Link>, before: seq<Message>) {
    && (forall e | Bound(s, e) :: Shows(links, e) || Pending(before, e.index))
    && (forall i | i in links :: Alive(s, i, links[i].incarnation) || Pending(s.queue, i))
  }

  ghost predicate AnswerSound(s: System, index: u32, generation: u64, link: Option<Link>, before: seq<Message>) {
    forall e | Bound(s, e) && e.index == index && e.generation == generation ::
      (link.Some? && link.value.incarnation == e.incarnation) || Pending(before, index)
  }

  function RequestOf(m: Message): nat {
    if m.Note? then 0 else m.request
  }

  ghost predicate ReplySound(s: System, p: nat)
    requires p < |s.queue|
  {
    var m, before := s.queue[p], s.queue[..p];
    && (!m.Note? ==> RequestOf(m) < s.requests)
    && (s.phase.AwaitLinks? && m.LinkDump? && m.request == s.phase.request ==> SnapshotSound(s, m.links, before))
    && (s.phase.AwaitConfirm? && m.LinkReply? && m.request == s.phase.request
        ==> AnswerSound(s, s.phase.index, s.phase.generation, m.link, before))
  }

  ghost predicate Counting(s: System) {
    && Shaped(s)
    && s.transport.deletionEpoch == s.recorded % EPOCHS
    && (s.phase.Started? || s.phase.AwaitLinks? || s.phase.Inventory()
        ==> s.phase.since <= s.recorded && s.phase.epoch == s.phase.since % EPOCHS)
  }

  /** Tokens are distinct, and an exposed one belongs to one link and one incarnation. */
  ghost predicate TokensDistinct(s: System, generations: map<u32, u64>) {
    && generations.Values <= s.used
    && (forall i, j | i in generations && j in generations && generations[i] == generations[j] :: i == j)
    && (forall e, i | e in s.exposed && i in generations && generations[i] == e.generation :: i == e.index)
  }

  ghost predicate Exposures(s: System) {
    && (forall e | e in s.exposed :: e.generation in s.used)
    && (forall e, f | e in s.exposed && f in s.exposed && e.generation == f.generation :: e == f)
    && s.confirmed <= s.exposed
  }

  ghost predicate Ending(s: System) {
    && (s.dead ==> s.transport.notificationsClosed || Note(Closed) in s.queue)
    && (Note(Closed) in s.queue ==> s.dead)
    && (s.transport.notificationsClosed ==>
          s.dead && s.transport.generations == map[] && (s.phase.Idle? || s.phase.Started?))
  }

  ghost predicate Fated(s: System) {
    forall e | Bound(s, e) :: Alive(s, e.index, e.incarnation) || Pending(s.queue, e.index)
  }

  ghost predicate PhaseSound(s: System)
    requires Shaped(s)
  {
    && (s.phase.Inventory() && s.recorded == s.phase.since ==> SnapshotSound(s, s.phase.links, Channel(s)))
    && (s.phase.HaveTokens? ==> TokensDistinct(s, s.phase.tokens))
    && (s.phase.Answered? ==> AnswerSound(s, s.phase.index, s.phase.generation, s.phase.link, Channel(s)))
    && (s.phase.AwaitConfirm? || s.phase.Answered? ==>
          exists e | e in s.exposed :: e.index == s.phase.index && e.generation == s.phase.generation)
    && (s.phase.AwaitLinks? || s.phase.AwaitAddresses? || s.phase.AwaitConfirm? ==> s.phase.request < s.requests)
  }

  ghost predicate Numbered(s: System) {
    forall write | write in s.sent :: write.request < s.requests
  }

  ghost predicate Inv(s: System) {
    && Counting(s)
    && TokensDistinct(s, s.transport.generations)
    && Exposures(s)
    && Ending(s)
    && Fated(s)
    && PhaseSound(s)
    && Numbered(s)
    && forall p | 0 <= p < |s.queue| :: ReplySound(s, p)
  }

  lemma InitialInv()
    ensures Inv(INITIAL)
  {
  }

  // ---------------------------------------------------------------- draining

  lemma {:induction false} CountedEpoch(t: Transport, items: seq<Item>)
    ensures Drained(t, items).deletionEpoch == (t.deletionEpoch + Counted(t.notificationsClosed, items)) % EPOCHS
    decreases |items|
  {
    if items != [] && !t.notificationsClosed {
      CountedEpoch(Recorded(t, items[0]), items[1..]);
    }
  }

  /** Draining only takes tokens away, and takes none if it records nothing. */
  lemma {:induction false} DrainedTokens(t: Transport, items: seq<Item>, index: u32)
    ensures var d := Drained(t, items);
            && (index in d.generations ==> index in t.generations && d.generations[index] == t.generations[index])
            && (Counted(t.notificationsClosed, items) == 0 ==> d == t)
    decreases |items|
  {
    if items != [] && !t.notificationsClosed {
      DrainedTokens(Recorded(t, items[0]), items[1..], index);
    }
  }

  predicate KillsItem(item: Item, index: u32) {
    item == Deleted(index) || item.Unparseable? || item.Overrun? || item.Closed?
  }

  /** A recorded killer takes the token of its link away, and counts. */
  lemma {:induction false} DrainedKillers(t: Transport, items: seq<Item>, index: u32, k: nat)
    requires k < |items| && KillsItem(items[k], index)
    requires t.notificationsClosed ==> t.generations == map[]
    ensures index !in Drained(t, items).generations
    ensures !t.notificationsClosed ==> Counted(t.notificationsClosed, items) > 0
    decreases |items|
  {
    if !t.notificationsClosed {
      var next := Recorded(t, items[0]);
      if k == 0 {
        DrainedTokens(next, items[1..], index);
      } else {
        DrainedKillers(next, items[1..], index, k - 1);
      }
    } else {
      assert Drained(t, items) == t;
    }
  }

  /** Only the end of the stream closes it, and whoever meets it is invalidated. */
  lemma {:induction false} DrainedClosing(t: Transport, items: seq<Item>)
    requires t.notificationsClosed ==> t.generations == map[]
    ensures var d := Drained(t, items);
            && (d.notificationsClosed <==> t.notificationsClosed || Closed in items)
            && (d.notificationsClosed ==> d.generations == map[])
            && (d.notificationsClosed && !t.notificationsClosed ==> d.invalidated)
    decreases |items|
  {
    if items != [] && !t.notificationsClosed {
      DrainedClosing(Recorded(t, items[0]), items[1..]);
      assert items == [items[0]] + items[1..];
    }
  }

  lemma ChannelItem(s: System, m: Message) returns (k: nat)
    requires Shaped(s) && m in Channel(s)
    ensures k < s.arrived && Items(Channel(s))[k] == m.item
  {
    k :| 0 <= k < s.arrived && Channel(s)[k] == m;
  }

  lemma QueueSplits(s: System, index: u32)
    requires Shaped(s) && Pending(s.queue, index)
    ensures Pending(Channel(s), index) || Pending(s.queue[s.arrived..], index)
  {
    assert s.queue == Channel(s) + s.queue[s.arrived..];
  }

  /** What a drain does to the tokens in use. */
  lemma DrainEffect(s: System, index: u32)
    requires Inv(s)
    ensures var d := Drain(s).0;
            && (index in d.transport.generations ==>
                  && index in s.transport.generations
                  && d.transport.generations[index] == s.transport.generations[index]
                  && !Pending(Channel(s), index))
            && (d.recorded == s.recorded ==> d.transport == s.transport.(invalidated := false))
            && (d.recorded == s.recorded && !s.transport.notificationsClosed ==> !Pending(Channel(s), index))
            && (Pending(s.queue, index) ==> Pending(Channel(s), index) || Pending(d.queue, index))
  {
    hide ReplySound, PhaseSound, Fated;
    var items := Items(Channel(s));
    DrainedTokens(s.transport, items, index);
    if Pending(Channel(s), index) {
      var m :| m in Channel(s) && Kills(m, index);
      var k := ChannelItem(s, m);
      DrainedKillers(s.transport, items, index, k);
    }
    if Pending(s.queue, index) {
      QueueSplits(s, index);
    }
  }

  lemma DrainCounts(s: System)
    requires Inv(s)
    ensures var (d, ok) := Drain(s);
            && Shaped(d) && d.arrived == 0
            && d.recorded >= s.recorded
            && d.transport.deletionEpoch == d.recorded % EPOCHS
            && (d.transport.notificationsClosed ==> d.transport.generations == map[])
            && (d.transport.notificationsClosed ==> s.dead)
            && (d.dead ==> d.transport.notificationsClosed || Note(Closed) in d.queue)
            && (ok && !s.transport.notificationsClosed ==> !d.transport.notificationsClosed)
  {
    hide ReplySound, PhaseSound, Fated, Pending, Bound, Alive;
    var items := Items(Channel(s));
    CountedEpoch(s.transport, items);
    DrainedClosing(s.transport, items);
    assert s.queue == Channel(s) + s.queue[s.arrived..];
    if Note(Closed) in Channel(s) {
      var k := ChannelItem(s, Note(Closed));
    }
    if Closed in items {
      ClosedIsFinal(s);
    }
  }

  lemma ClosedIsFinal(s: System)
    requires Inv(s) && Closed in Items(Channel(s))
    ensures s.dead
  {
    var k :| 0 <= k < |Channel(s)| && Items(Channel(s))[k] == Closed;
    assert Channel(s)[k] in Channel(s) && Channel(s)[k] == s.queue[k];
  }

  // ---------------------------------------------------------------- kernel and socket steps

  /** The kernel moved on: nothing that retires a token got lost, and replies kept what precedes them. */
  ghost predicate Moved(s: System, next: System) {
    && next == s.(links := next.links, incarnations := next.incarnations, queue := next.queue, dead := next.dead)
    && Shaped(s) && Shaped(next)
    && Channel(next) == Channel(s)
    && (forall i | Pending(s.queue, i) :: Pending(next.queue, i))
    && (s.transport.notificationsClosed || forall i, x | Alive(s, i, x) :: Alive(next, i, x) || Pending(next.queue, i))
    && (forall p | 0 <= p < |next.queue| && !next.queue[p].Note? :: KeepsReply(s, next, p))
    && Ending(next)
  }

  ghost predicate KeepsReply(s: System, next: System, p: nat)
    requires p < |next.queue|
  {
    exists q :: 0 <= q < |s.queue| && s.queue[q] == next.queue[p] && Precedes(s, q, next, p)
  }

  ghost predicate Precedes(s: System, q: nat, next: System, p: nat)
    requires q < |s.queue| && p < |next.queue|
  {
    forall i | Pending(s.queue[..q], i) :: Pending(next.queue[..p], i)
  }

  lemma MovedReply(s: System, next: System, p: nat)
    requires Inv(s) && Moved(s, next) && p < |next.queue|
    ensures ReplySound(next, p)
  {
    if !next.queue[p].Note? {
      assert KeepsReply(s, next, p);
      var q :| 0 <= q < |s.queue| && s.queue[q] == next.queue[p] && Precedes(s, q, next, p);
      assert ReplySound(s, q);
      if !s.transport.notificationsClosed {
        MovedSnapshot(s, next, s.queue[..q], next.queue[..p]);
      }
    }
  }

  lemma MovedSnapshot(s: System, next: System, before: seq<Message>, after: seq<Message>)
    requires Moved(s, next) && !s.transport.notificationsClosed
    requires forall i | Pending(before, i) :: Pending(after, i)
    ensures forall links | SnapshotSound(s, links, before) :: SnapshotSound(next, links, after)
    ensures forall i, g, link | AnswerSound(s, i, g, link, before) :: AnswerSound(next, i, g, link, after)
  {
    hide KeepsReply, Pending;
    assert forall e :: Bound(next, e) <==> Bound(s, e);
  }

  lemma MovedInv(s: System, next: System)
    requires Inv(s) && Moved(s, next)
    ensures Inv(next)
  {
    hide KeepsReply, Pending, ReplySound;
    assert forall e :: Bound(next, e) <==> Bound(s, e);
    if !s.transport.notificationsClosed {
      MovedSnapshot(s, next, Channel(s), Channel(next));
    }
    forall p | 0 <= p < |next.queue| ensures ReplySound(next, p) {
      MovedReply(s, next, p);
    }
  }

  lemma PendingGrows(a: seq<Message>, b: seq<Message>, index: u32)
    requires Pending(a, index) && forall m | m in a && m.Note? :: m in b
    ensures Pending(b, index)
  {
  }

  /** A queued message keeps everything that preceded it when another one is inserted. */
  lemma InsertedKeeps(q: seq<Message>, q': seq<Message>, position: nat, message: Message, p: nat, i: u32)
    requires position <= |q| && q' == q[..position] + [message] + q[position..] && p < |q'| && p != position
    requires Pending(q[..if p < position then p else p - 1], i)
    ensures Pending(q'[..p], i)
  {
    var k := if p < position then p else p - 1;
    forall m | m in q[..k] ensures m in q'[..p] {
      var j :| 0 <= j < k && q[j] == m;
      assert q'[..p][if j < position then j else j + 1] == m;
    }
    PendingGrows(q[..k], q'[..p], i);
  }

  lemma ReportedReply(s: System, position: nat, item: Item, next: System, p: nat)
    requires Inv(s) && s.arrived <= position <= |s.queue| && item != Closed
    requires next.queue == Reported(s, position, item).queue && next.arrived == s.arrived
    requires p < |next.queue| && !next.queue[p].Note?
    ensures KeepsReply(s, next, p)
  {
    hide ReplySound, PhaseSound, Fated, Pending, Inv;
    if s.dead {
      assert Precedes(s, p, next, p);
    } else {
      var k := if p < position then p else p - 1;
      assert s.queue == s.queue[..position] + s.queue[position..];
      assert s.queue[k] == next.queue[p];
      forall i | Pending(s.queue[..k], i) ensures Pending(next.queue[..p], i) {
        InsertedKeeps(s.queue, next.queue, position, Note(item), p, i);
      }
      assert Precedes(s, k, next, p);
    }
  }

  /** A message put on the wire moves nothing past a reply. */
  lemma ReportedQueue(s: System, position: nat, item: Item, next: System)
    requires Inv(s) && s.arrived <= position <= |s.queue| && item != Closed
    requires next.queue == Reported(s, position, item).queue && next.arrived == s.arrived
    ensures Shaped(next) && Channel(next) == Channel(s)
    ensures forall i | Pending(s.queue, i) :: Pending(next.queue, i)
    ensures forall p | 0 <= p < |next.queue| && !next.queue[p].Note? :: KeepsReply(s, next, p)
    ensures Note(Closed) in next.queue <==> Note(Closed) in s.queue
    ensures !s.dead ==> Note(item) in next.queue
  {
    hide ReplySound, PhaseSound, Fated, KeepsReply;
    var q := s.queue;
    assert q == q[..position] + q[position..];
    assert Channel(next) == Channel(s);
    forall i | Pending(q, i) ensures Pending(next.queue, i) {
      PendingGrows(q, next.queue, i);
    }
    forall p | 0 <= p < |next.queue| && !next.queue[p].Note? ensures KeepsReply(s, next, p) {
      ReportedReply(s, position, item, next, p);
    }
  }

  lemma KernelStepKeepsInv(s: System, step: Step)
    requires Inv(s) && Enabled(s, step) && (step.Create? || step.Delete? || step.Rename? || step.Mention?)
    ensures Inv(Do(s, step))
  {
    hide ReplySound, PhaseSound, Fated, KeepsReply;
    var next := Do(s, step);
    match step {
      case Create(index, name) => ReportedQueue(s, |s.queue|, Unrelated, next);
      case Rename(index, name) => ReportedQueue(s, |s.queue|, Unrelated, next);
      case Mention(item) => ReportedQueue(s, |s.queue|, item, next);
      case Delete(index, report, position) =>
        ReportedQueue(s, position, report, next);
        DeletedIsPending(s, index, report, next);
    }
    MovedInv(s, next);
  }

  lemma DeletedIsPending(s: System, index: u32, report: Item, next: System)
    requires Inv(s) && (report == Deleted(index) || report == Unparseable || report == Overrun)
    requires s.dead ==> next.queue == s.queue
    requires !s.dead ==> Note(report) in next.queue
    ensures Pending(next.queue, index) || s.transport.notificationsClosed
  {
    if s.dead && !s.transport.notificationsClosed {
      assert Kills(Note(Closed), index);
    } else if !s.dead {
      assert Kills(Note(report), index);
    }
  }

  lemma CloseKeepsInv(s: System)
    requires Inv(s) && Enabled(s, Close)
    ensures Inv(Do(s, Close))
  {
    hide ReplySound, PhaseSound, Fated;
    var next := Do(s, Close);
    assert next.queue[|next.queue| - 1] == Note(Closed);
    forall i ensures Pending(next.queue, i) {
      assert Kills(Note(Closed), i);
    }
    assert Channel(next) == Channel(s);
    forall p | 0 <= p < |next.queue| ensures next.queue[p].Note? {
      if p < s.arrived {
        assert next.queue[p] == Channel(s)[p];
      }
    }
    MovedInv(s, next);
  }

  /** A reply joined the queue; it answers a request that was made. */
  ghost predicate Replied(s: System, next: System) {
    && |next.queue| == |s.queue| + 1 && next.queue[..|s.queue|] == s.queue
    && !next.queue[|s.queue|].Note? && !s.dead
    && next == s.(queue := next.queue, sent := next.sent, landed := next.landed)
    && next.sent <= s.sent
  }

  /** The answer the kernel gives now agrees with every token in use. */
  lemma AnswerIsSound(s: System, next: System)
    requires Inv(s) && Enabled(s, Serve) && next == Do(s, Serve)
    ensures ReplySound(next, |s.queue|)
  {
    assert next.queue[..|s.queue|] == s.queue;
    assert forall e :: Bound(next, e) <==> Bound(s, e);
    assert forall i, x :: Alive(next, i, x) <==> Alive(s, i, x);
  }

  lemma RepliedKeepsInv(s: System, next: System)
    requires Inv(s) && Replied(s, next) && ReplySound(next, |s.queue|)
    ensures Inv(next)
  {
    hide PhaseSound, Fated;
    assert Channel(next) == Channel(s);
    forall p | 0 <= p < |next.queue| ensures ReplySound(next, p) {
      if p < |s.queue| {
        assert ReplySound(s, p);
        assert next.queue[p] == s.queue[p] && next.queue[..p] == s.queue[..p];
        RepliedSnapshot(s, next, s.queue[..p]);
      }
    }
    RepliedPhase(s, next);
    assert forall m | m in next.queue :: m in s.queue || !m.Note?;
  }

  lemma RepliedSnapshot(s: System, next: System, before: seq<Message>)
    requires Inv(s) && Replied(s, next)
    ensures forall links | SnapshotSound(s, links, before) :: SnapshotSound(next, links, before)
    ensures forall i, g, link | AnswerSound(s, i, g, link, before) :: AnswerSound(next, i, g, link, before)
  {
    hide ReplySound, PhaseSound, Fated;
    forall i | Pending(s.queue, i) ensures Pending(next.queue, i) {
      PendingGrows(s.queue, next.queue, i);
    }
    assert forall e :: Bound(next, e) <==> Bound(s, e);
    assert forall i, x :: Alive(next, i, x) <==> Alive(s, i, x);
  }

  lemma RepliedPhase(s: System, next: System)
    requires Inv(s) && Replied(s, next)
    ensures PhaseSound(next) && Fated(next)
  {
    hide ReplySound;
    RepliedSnapshot(s, next, Channel(s));
    assert Channel(next) == Channel(s);
    forall i | Pending(s.queue, i) ensures Pending(next.queue, i) {
      PendingGrows(s.queue, next.queue, i);
    }
    assert forall e :: Bound(next, e) <==> Bound(s, e);
    assert forall i, x :: Alive(next, i, x) <==> Alive(s, i, x);
  }

  lemma ServeKeepsInv(s: System)
    requires Inv(s) && Enabled(s, Serve)
    ensures Inv(Do(s, Serve))
  {
    hide PhaseSound, Fated, Pending, Inv;
    AnswerIsSound(s, Do(s, Serve));
    RepliedKeepsInv(s, Do(s, Serve));
  }

  lemma LandKeepsInv(s: System, write: Write)
    requires Inv(s) && Enabled(s, Land(write))
    ensures Inv(Do(s, Land(write)))
  {
    hide PhaseSound, Fated, Pending;
    RepliedKeepsInv(s, Do(s, Land(write)));
  }

  lemma ForwardKeepsInv(s: System)
    requires Inv(s) && Enabled(s, Forward)
    ensures Inv(Do(s, Forward))
  {
    hide Pending;
    var next := Do(s, Forward);
    assert Channel(next) == Channel(s) + [s.queue[s.arrived]];
    forall i | Pending(Channel(s), i) ensures Pending(Channel(next), i) {
      PendingGrows(Channel(s), Channel(next), i);
    }
    assert forall e :: Bound(next, e) <==> Bound(s, e);
    assert forall i, x :: Alive(next, i, x) <==> Alive(s, i, x);
    forall p | 0 <= p < |next.queue| ensures ReplySound(next, p) {
      assert ReplySound(s, p);
    }
  }

  // ---------------------------------------------------------------- delivery

  lemma PrefixWithout<T>(q: seq<T>, k: nat, p: nat)
    requires k <= p < |q| - 1
    ensures (q[..k] + q[k + 1..])[..p] == q[..k] + q[k + 1..p + 1]
  {
  }

  lemma DeliveredQueue(s: System, next: System, p: nat)
    requires Inv(s) && Enabled(s, Deliver) && next == Do(s, Deliver) && p < |next.queue|
    ensures Channel(next) == Channel(s)
    ensures next.queue[p] == s.queue[if p < s.arrived then p else p + 1]
    ensures p < s.arrived ==> next.queue[p].Note?
    ensures p >= s.arrived ==> forall i | Pending(s.queue[..p + 1], i) :: Pending(next.queue[..p], i)
  {
    hide ReplySound, PhaseSound, Fated, Pending;
    if p < s.arrived {
      assert Channel(s)[p] in Channel(s);
    } else {
      WithoutReply(s.queue, s.arrived, p, next.queue[..p]);
    }
  }

  /** A reply retires nothing, so taking it off the wire leaves the same pending retirements. */
  lemma WithoutReply(q: seq<Message>, k: nat, p: nat, after: seq<Message>)
    requires k <= p < |q| - 1 && !q[k].Note? && after == (q[..k] + q[k + 1..])[..p]
    ensures forall i | Pending(q[..p + 1], i) :: Pending(after, i)
  {
    var before := q[..p + 1];
    PrefixWithout(q, k, p);
    assert before == q[..k] + [q[k]] + q[k + 1..p + 1];
    forall i | Pending(before, i) ensures Pending(after, i) {
      PendingGrows(before, after, i);
    }
  }

  lemma DeliveredPending(s: System, next: System, index: u32)
    requires Inv(s) && Enabled(s, Deliver) && next == Do(s, Deliver) && Pending(s.queue, index)
    ensures Pending(next.queue, index)
  {
    hide ReplySound, PhaseSound, Fated;
    assert s.queue == Channel(s) + [s.queue[s.arrived]] + s.queue[s.arrived + 1..];
    PendingGrows(s.queue, next.queue, index);
  }

  lemma DeliveredSnapshot(s: System, next: System, before: seq<Message>, after: seq<Message>)
    requires Inv(s) && Enabled(s, Deliver) && next == Do(s, Deliver)
    requires forall i | Pending(before, i) :: Pending(after, i)
    ensures forall links | SnapshotSound(s, links, before) :: SnapshotSound(next, links, after)
    ensures forall i, g, link | AnswerSound(s, i, g, link, before) :: AnswerSound(next, i, g, link, after)
  {
    hide ReplySound, PhaseSound, Fated, Pending;
    assert forall e :: Bound(next, e) <==> Bound(s, e);
    assert forall i, x :: Alive(next, i, x) <==> Alive(s, i, x);
    forall i | Pending(s.queue, i) ensures Pending(next.queue, i) {
      DeliveredPending(s, next, i);
    }
  }

  lemma DeliveredReply(s: System, next: System, p: nat)
    requires Inv(s) && Enabled(s, Deliver) && next == Do(s, Deliver) && p < |next.queue|
    ensures ReplySound(next, p)
  {
    hide PhaseSound, Fated, Pending, SnapshotSound, AnswerSound;
    DeliveredQueue(s, next, p);
    if !next.queue[p].Note? {
      assert ReplySound(s, p + 1);
      DeliveredSnapshot(s, next, s.queue[..p + 1], next.queue[..p]);
    }
  }

  lemma DeliveredPhase(s: System, next: System)
    requires Inv(s) && Enabled(s, Deliver) && next == Do(s, Deliver)
    ensures PhaseSound(next)
  {
    hide Fated, Pending, SnapshotSound, AnswerSound;
    assert Channel(next) == Channel(s);
    assert ReplySound(s, s.arrived);
    assert s.queue[..s.arrived] == Channel(s);
    DeliveredSnapshot(s, next, Channel(s), Channel(next));
  }

  lemma DeliverKeepsInv(s: System)
    requires Inv(s) && Enabled(s, Deliver)
    ensures Inv(Do(s, Deliver))
  {
    hide PhaseSound, Pending, ReplySound;
    var next := Do(s, Deliver);
    DeliveredPhase(s, next);
    assert Channel(next) == Channel(s);
    forall p | 0 <= p < |next.queue| ensures ReplySound(next, p) {
      DeliveredReply(s, next, p);
    }
    forall i | Pending(s.queue, i) ensures Pending(next.queue, i) {
      DeliveredPending(s, next, i);
    }
    assert forall e :: Bound(next, e) <==> Bound(s, e);
    assert forall i, x :: Alive(next, i, x) <==> Alive(s, i, x);
    DeliveredEnd(s, next);
  }

  lemma DeliveredEnd(s: System, next: System)
    requires Inv(s) && Enabled(s, Deliver) && next == Do(s, Deliver)
    ensures Ending(next)
  {
    hide PhaseSound, ReplySound, Fated, Pending;
    assert s.queue == Channel(s) + [s.queue[s.arrived]] + s.queue[s.arrived + 1..];
  }

  // ---------------------------------------------------------------- transport steps

  /** A drained system is sound in any phase that does not wait for a reply and remembers no dump. */
  lemma DrainedIdle(s: System, next: System)
    requires Inv(s)
    requires next == Drain(s).0.(phase := Idle, requests := next.requests) && next.requests >= s.requests
    ensures Inv(next)
  {
    hide Pending, Kills;
    DrainCounts(s);
    forall e | Bound(next, e) ensures Alive(next, e.index, e.incarnation) || Pending(next.queue, e.index) {
      DrainEffect(s, e.index);
      assert Bound(s, e);
    }
    DrainedDistinct(s, next);
    forall p | 0 <= p < |next.queue| ensures ReplySound(next, p) {
      assert ReplySound(s, s.arrived + p);
    }
    DrainedEnd(s, next);
  }

  lemma DrainedDistinct(s: System, next: System)
    requires Inv(s) && next.transport == Drain(s).0.transport
    requires next.used == s.used && next.exposed == s.exposed
    ensures TokensDistinct(next, next.transport.generations)
  {
    hide ReplySound, PhaseSound, Fated, Pending;
    var g, h := s.transport.generations, next.transport.generations;
    forall i | i in h ensures i in g && h[i] == g[i] {
      DrainEffect(s, i);
    }
    assert h.Values <= g.Values;
  }

  lemma DrainedEnd(s: System, next: System)
    requires Inv(s)
    requires next == Drain(s).0.(phase := Idle, requests := next.requests)
    ensures Ending(next)
  {
    hide ReplySound, PhaseSound, Fated, Pending;
    DrainCounts(s);
    assert s.queue == Channel(s) + s.queue[s.arrived..];
  }

  /** One idle notification is recorded like a drain of a channel that holds just it. */
  lemma RecordNextKeepsInv(s: System)
    requires Inv(s) && Enabled(s, RecordNext)
    ensures Inv(Do(s, RecordNext))
  {
    hide PhaseSound, ReplySound;
    var next, item := Do(s, RecordNext), s.queue[0].item;
    assert s.queue[0] == Channel(s)[0] && Channel(next) == Channel(s)[1..];
    assert s.queue == [s.queue[0]] + next.queue;
    forall e | Bound(next, e) ensures Bound(s, e) && !Kills(s.queue[0], e.index) {
      RecordedToken(s, e.index);
    }
    forall e | Bound(next, e) ensures Alive(next, e.index, e.incarnation) || Pending(next.queue, e.index) {
      assert Alive(s, e.index, e.incarnation) || Pending(s.queue, e.index);
    }
    RecordedDistinct(s, next);
    RecordedShape(s, next);
  }

  lemma RecordedToken(s: System, index: u32)
    requires Inv(s) && Enabled(s, RecordNext)
    ensures var t := Do(s, RecordNext).transport;
            index in t.generations ==>
              && index in s.transport.generations
              && t.generations[index] == s.transport.generations[index]
              && !Kills(s.queue[0], index)
  {
    hide PhaseSound, ReplySound, Fated;
  }

  lemma RecordedDistinct(s: System, next: System)
    requires Inv(s) && Enabled(s, RecordNext) && next == Do(s, RecordNext)
    ensures TokensDistinct(next, next.transport.generations)
  {
    hide ReplySound, PhaseSound, Fated, Pending;
    var g, h := s.transport.generations, next.transport.generations;
    forall i | i in h ensures i in g && h[i] == g[i] {
      RecordedToken(s, i);
    }
    assert h.Values <= g.Values;
  }

  lemma RecordedShape(s: System, next: System)
    requires Inv(s) && Enabled(s, RecordNext) && next == Do(s, RecordNext)
    ensures Counting(next) && Ending(next) && PhaseSound(next)
    ensures forall p | 0 <= p < |next.queue| :: ReplySound(next, p)
  {
    hide Fated, Pending;
    var item := s.queue[0].item;
    assert s.queue[0] == Channel(s)[0] && Channel(next) == Channel(s)[1..];
    assert s.queue == [s.queue[0]] + next.queue && s.queue[0] == Note(item);
    assert Drained(s.transport, [item]) == next.transport by {
      assert [item][1..] == [];
    }
    CountedEpoch(s.transport, [item]);
    forall p | 0 <= p < |next.queue| ensures ReplySound(next, p) {
      assert ReplySound(s, p + 1);
    }
  }

  /** Leaving the idle phase for one whose own conditions hold. */
  lemma EnterPhase(idle: System, next: System)
    requires Inv(idle) && idle.phase.Idle? && !idle.transport.notificationsClosed
    requires next == idle.(phase := next.phase, sent := next.sent) && Numbered(next)
    requires next.phase.AwaitLinks? || next.phase.AwaitAddresses? || next.phase.AwaitConfirm? || next.phase.AwaitWrite?
    requires forall p | 0 <= p < |idle.queue| && !idle.queue[p].Note? :: RequestOf(idle.queue[p]) < next.phase.request
    requires Counting(next) && PhaseSound(next)
    ensures Inv(next)
  {
    hide Pending, PhaseSound;
    assert forall e :: Bound(next, e) <==> Bound(idle, e);
    assert forall i, x :: Alive(next, i, x) <==> Alive(idle, i, x);
    forall p | 0 <= p < |next.queue| ensures ReplySound(next, p) {
      assert ReplySound(idle, p);
    }
  }

  /** Old replies never answer a new request. */
  lemma RepliesAreOld(s: System, idle: System)
    requires Inv(s) && idle.queue == s.queue[s.arrived..]
    ensures forall p | 0 <= p < |idle.queue| && !idle.queue[p].Note? :: RequestOf(idle.queue[p]) < s.requests
  {
    hide Pending, PhaseSound, Fated;
    forall p | 0 <= p < |idle.queue| && !idle.queue[p].Note? ensures RequestOf(idle.queue[p]) < s.requests {
      assert ReplySound(s, s.arrived + p);
    }
  }

  lemma BeginKeepsInv(s: System)
    requires Inv(s) && Enabled(s, Begin)
    ensures Inv(Do(s, Begin))
  {
    hide Pending, Fated, SnapshotSound, AnswerSound;
    var idle, next := Drain(s).0.(phase := Idle), Do(s, Begin);
    DrainedIdle(s, idle);
    DrainCounts(s);
    SettledKeepsInv(idle, next);
  }

  /** Phases that wait for nothing and remember no dump keep the invariant. */
  lemma SettledKeepsInv(idle: System, next: System)
    requires Inv(idle) && idle.phase.Idle?
    requires next == idle.(phase := next.phase)
    requires || next.phase.Idle? || next.phase.Started?
             || (next.phase.Confirmed? && !idle.transport.notificationsClosed)
    requires Counting(next)
    ensures Inv(next)
  {
    hide Pending, SnapshotSound, AnswerSound;
    assert forall e :: Bound(next, e) <==> Bound(idle, e);
    assert forall i, x :: Alive(next, i, x) <==> Alive(idle, i, x);
    forall p | 0 <= p < |next.queue| ensures ReplySound(next, p) {
      assert ReplySound(idle, p);
    }
  }

  lemma RequestLinksKeepsInv(s: System)
    requires Inv(s) && Enabled(s, RequestLinks)
    ensures Inv(Do(s, RequestLinks))
  {
    hide Pending, ReplySound, Fated, SnapshotSound, AnswerSound;
    var (idle, ok) := Ready(s);
    DrainedIdle(s, idle);
    DrainCounts(s);
    RepliesAreOld(s, idle);
    if ok {
      EnterPhase(idle, Do(s, RequestLinks));
    }
  }

  lemma SubmitWriteKeepsInv(s: System)
    requires Inv(s) && Enabled(s, SubmitWrite)
    ensures Inv(Do(s, SubmitWrite))
  {
    hide Pending, ReplySound, Fated, SnapshotSound, AnswerSound;
    var (idle, ok) := Ready(s);
    DrainedIdle(s, idle);
    DrainCounts(s);
    RepliesAreOld(s, idle);
    if ok {
      EnterPhase(idle, Do(s, SubmitWrite));
    }
  }

  lemma BeginConfirmKeepsInv(s: System, index: u32, generation: u64, name: string)
    requires Inv(s) && Enabled(s, BeginConfirm(index, generation, name))
    ensures Inv(Do(s, BeginConfirm(index, generation, name)))
  {
    hide Pending, ReplySound, Fated, SnapshotSound, AnswerSound;
    var (idle, ok) := Ready(s);
    DrainedIdle(s, idle);
    DrainCounts(s);
    RepliesAreOld(s, idle);
    if ok {
      EnterPhase(idle, Do(s, BeginConfirm(index, generation, name)));
    }
  }

  /** A drain in the middle of an inventory that records nothing keeps the dump sound. */
  lemma DrainedSnapshot(s: System, next: System, links: map<u32, Link>)
    requires Inv(s) && !s.transport.notificationsClosed && SnapshotSound(s, links, Channel(s))
    requires next == Drain(s).0.(phase := next.phase, requests := next.requests) && next.recorded == s.recorded
    ensures SnapshotSound(next, links, Channel(next))
  {
    hide Pending, PhaseSound, Fated, ReplySound;
    forall e | Bound(next, e) ensures Shows(links, e) {
      DrainEffect(s, e.index);
      assert Bound(s, e);
    }
    forall i | i in links ensures Alive(next, i, links[i].incarnation) || Pending(next.queue, i) {
      DrainEffect(s, i);
      assert Alive(s, i, links[i].incarnation) || Pending(s.queue, i);
    }
  }

  lemma RequestAddressesKeepsInv(s: System)
    requires Inv(s) && Enabled(s, RequestAddresses)
    ensures Inv(Do(s, RequestAddresses))
  {
    hide Pending, ReplySound, Fated, SnapshotSound, AnswerSound;
    var (idle, ok) := Ready(s);
    var next := Do(s, RequestAddresses);
    DrainedIdle(s, idle);
    DrainCounts(s);
    RepliesAreOld(s, idle);
    if ok {
      if next.recorded == s.phase.since {
        DrainedSnapshot(s, next, s.phase.links);
      }
      EnterPhase(idle, next);
    }
  }

  lemma GiveUpKeepsInv(s: System)
    requires Inv(s)
    ensures Inv(s.(phase := Idle))
  {
    hide Pending, SnapshotSound, AnswerSound;
    var next := s.(phase := Idle);
    assert forall e :: Bound(next, e) <==> Bound(s, e);
    assert forall i, x :: Alive(next, i, x) <==> Alive(s, i, x);
    forall p | 0 <= p < |next.queue| ensures ReplySound(next, p) {
      assert ReplySound(s, p);
    }
  }

  /** Fresh tokens are bound to nothing that was ever exposed. */
  lemma AssignedDistinct(s: System, order: seq<u32>, drawn: map<u32, u64>)
    requires Inv(s) && Enabled(s, AssignTokens(order, drawn))
    ensures var next := Do(s, AssignTokens(order, drawn));
            && TokensDistinct(next, next.transport.generations)
            && forall e | Bound(next, e) :: Bound(s, e)
  {
    hide Pending, ReplySound, Fated, SnapshotSound, AnswerSound;
    var next := Do(s, AssignTokens(order, drawn));
    var g, h := s.transport.generations, next.transport.generations;
    forall i | i in h ensures (i in g && h[i] == g[i]) || (i !in g && i in drawn && h[i] == drawn[i]) {
      AssignedTokens(g, order, drawn, i);
    }
    forall v | v in h.Values ensures v in next.used {
      var i :| i in h && h[i] == v;
    }
  }

  lemma AssignKeepsInv(s: System, order: seq<u32>, drawn: map<u32, u64>)
    requires Inv(s) && Enabled(s, AssignTokens(order, drawn))
    ensures Inv(Do(s, AssignTokens(order, drawn)))
  {
    hide Pending, FreshTokens;
    var next := Do(s, AssignTokens(order, drawn));
    AssignedDistinct(s, order, drawn);
    assert forall i, x :: Alive(next, i, x) <==> Alive(s, i, x);
    assert Channel(next) == Channel(s);
    forall p | 0 <= p < |next.queue| ensures ReplySound(next, p) {
      assert ReplySound(s, p);
    }
  }

  // ---------------------------------------------------------------- finishing an inventory

  lemma RetainKeepsInv(s: System)
    requires Inv(s) && s.phase.HaveTokens?
    ensures Inv(AfterRetaining(s))
  {
    hide Pending;
    var next := AfterRetaining(s);
    assert forall e | Bound(next, e) :: Bound(s, e);
    assert forall i, x :: Alive(next, i, x) <==> Alive(s, i, x);
    assert Channel(next) == Channel(s);
    assert next.transport.generations.Values <= s.transport.generations.Values;
    forall p | 0 <= p < |next.queue| ensures ReplySound(next, p) {
      assert ReplySound(s, p);
    }
  }

  /** Equal epochs within one wrap-around mean that nothing was recorded. */
  lemma NothingRecorded(s: System)
    requires Inv(s) && s.phase.HaveTokens? && !s.transport.notificationsClosed
    requires Drain(s).0.transport.deletionEpoch == s.phase.epoch
    requires Drain(s).0.recorded < s.phase.since + EPOCHS
    ensures Drain(s).0.recorded == s.recorded == s.phase.since
  {
    hide Pending, ReplySound, Fated, SnapshotSound, AnswerSound;
    DrainCounts(s);
    var now, since := Drain(s).0.recorded, s.phase.since;
    assert now % EPOCHS == since % EPOCHS;
  }

  /** What an inventory that recorded nothing hands out fits everything handed out before. */
  lemma HandedOutFits(idle: System, links: map<u32, Link>, tokens: map<u32, u64>, next: System)
    requires Inv(idle) && idle.phase.Idle? && SnapshotSound(idle, links, Channel(idle)) && Channel(idle) == []
    requires StillAssigned(links, tokens, idle.transport.generations)
    requires next == idle.(exposed := idle.exposed + HandedOut(links, tokens))
    ensures Inv(next)
  {
    hide Pending;
    assert forall i :: !Pending(Channel(idle), i) by { NothingPending(Channel(idle)); }
    assert forall i, x :: Alive(next, i, x) <==> Alive(idle, i, x);
    forall e | e in next.exposed && e !in idle.exposed
      ensures e.index in links && e.incarnation == links[e.index].incarnation
        && e.generation == idle.transport.generations[e.index]
    {
    }
    forall p | 0 <= p < |next.queue| ensures ReplySound(next, p) {
      assert ReplySound(idle, p);
    }
    HandedOutDistinct(idle, links, tokens, next);
  }

  lemma NothingPending(messages: seq<Message>)
    requires messages == []
    ensures forall i :: !Pending(messages, i)
  {
  }

  lemma HandedOutDistinct(idle: System, links: map<u32, Link>, tokens: map<u32, u64>, next: System)
    requires Inv(idle) && forall e | Bound(idle, e) :: Shows(links, e)
    requires StillAssigned(links, tokens, idle.transport.generations)
    requires next == idle.(exposed := idle.exposed + HandedOut(links, tokens))
    ensures Exposures(next) && TokensDistinct(next, next.transport.generations)
  {
    hide Pending, ReplySound, Fated, SnapshotSound, PhaseSound;
    var g := idle.transport.generations;
    forall e | e in next.exposed && e !in idle.exposed
      ensures e.index in g && g[e.index] == e.generation && e.index in links
        && e.incarnation == links[e.index].incarnation
      ensures e.generation in idle.used
    {
    }
    forall e, f | e in next.exposed && f in next.exposed && e.generation == f.generation ensures e == f {
      if e !in idle.exposed && f in idle.exposed {
        assert Bound(idle, f);
      } else if f !in idle.exposed && e in idle.exposed {
        assert Bound(idle, e);
      }
    }
  }

  lemma FinishKeepsInv(s: System)
    requires Inv(s) && Enabled(s, Finish)
    ensures Inv(Do(s, Finish))
  {
    hide Pending, ReplySound, Fated, SnapshotSound, AnswerSound;
    var retained := AfterRetaining(s);
    RetainKeepsInv(s);
    var idle, next := Drain(retained).0.(phase := Idle), Do(s, Finish);
    DrainedIdle(retained, idle);
    if Returned(s) != {} {
      DrainCounts(retained);
      NothingRecorded(retained);
      DrainedSnapshot(retained, idle, s.phase.links);
      HandedOutFits(idle, s.phase.links, s.phase.tokens, next);
    } else {
      assert next == idle;
    }
  }

  /** A confirmation that succeeds was answered by the incarnation the token was handed out for. */
  lemma ConcludeKeepsInv(s: System)
    requires Inv(s) && Enabled(s, Conclude)
    ensures Inv(Do(s, Conclude))
  {
    hide Pending, ReplySound, Fated;
    var idle, next := Drain(s).0.(phase := Idle), Do(s, Conclude);
    DrainedIdle(s, idle);
    if next.phase.Confirmed? {
      var e :| e in s.exposed && e.index == s.phase.index && e.generation == s.phase.generation;
      DrainEffect(s, e.index);
      assert Bound(s, e);
      assert next.confirmed == idle.confirmed + {e};
      ConfirmedOnly(idle, idle.(confirmed := next.confirmed));
      DrainCounts(s);
      SettledKeepsInv(idle.(confirmed := next.confirmed), next);
    } else {
      assert next == idle;
    }
  }

  lemma ConfirmedOnly(idle: System, next: System)
    requires Inv(idle) && idle.phase.Idle? && next == idle.(confirmed := next.confirmed)
      && next.confirmed <= idle.exposed
    ensures Inv(next)
  {
    assert forall e :: Bound(next, e) <==> Bound(idle, e);
    assert forall i, x :: Alive(next, i, x) <==> Alive(idle, i, x);
    forall p | 0 <= p < |next.queue| ensures ReplySound(next, p) {
      assert ReplySound(idle, p);
    }
  }

  // ---------------------------------------------------------------- behaviours

  lemma StepKeepsInv(s: System, step: Step)
    requires Inv(s) && Enabled(s, step)
    ensures Inv(Do(s, step))
  {
    hide Inv;
    match step {
      case Create(_, _) => KernelStepKeepsInv(s, step);
      case Delete(_, _, _) => KernelStepKeepsInv(s, step);
      case Rename(_, _) => KernelStepKeepsInv(s, step);
      case Mention(_) => KernelStepKeepsInv(s, step);
      case Serve => ServeKeepsInv(s);
      case Land(write) => LandKeepsInv(s, write);
      case Forward => ForwardKeepsInv(s);
      case Deliver => DeliverKeepsInv(s);
      case Close => CloseKeepsInv(s);
      case RecordNext => RecordNextKeepsInv(s);
      case Begin => BeginKeepsInv(s);
      case RequestLinks => RequestLinksKeepsInv(s);
      case RequestAddresses => RequestAddressesKeepsInv(s);
      case AssignTokens(order, drawn) => AssignKeepsInv(s, order, drawn);
      case GiveUp => GiveUpKeepsInv(s);
      case Finish => FinishKeepsInv(s);
      case BeginConfirm(index, generation, name) => BeginConfirmKeepsInv(s, index, generation, name);
      case Conclude => ConcludeKeepsInv(s);
      case SubmitWrite => SubmitWriteKeepsInv(s);
    }
  }

  /** States reached by any interleaving of steps. */
  ghost predicate Behaviour(states: seq<System>, steps: seq<Step>) {
    && |states| == |steps| + 1
    && states[0] == INITIAL
    && forall k | 0 <= k < |steps| :: Enabled(states[k], steps[k]) && states[k + 1] == Do(states[k], steps[k])
  }

  lemma {:induction false} BehaviourKeepsInv(states: seq<System>, steps: seq<Step>, k: nat)
    requires Behaviour(states, steps) && k < |states|
    ensures Inv(states[k])
  {
    hide Inv, Do, Enabled;
    if k == 0 {
      InitialInv();
    } else {
      BehaviourKeepsInv(states, steps, k - 1);
      StepKeepsInv(states[k - 1], steps[k - 1]);
    }
  }

  /**
   Tokens never alias: in every behaviour, two successful inventories that return
   the same token saw the same incarnation of the same link.
   */
  lemma TokensNeverAlias(states: seq<System>, steps: seq<Step>, k: nat, e: Exposure, f: Exposure)
    requires Behaviour(states, steps) && k < |states|
    requires e in states[k].exposed && f in states[k].exposed && e.generation == f.generation
    ensures e == f
  {
    BehaviourKeepsInv(states, steps, k);
  }

  /**
   A confirmed identity is the incarnation its token was handed out for, and no
   inventory ever hands the token out for another one.
   */
  lemma ConfirmationIsSound(states: seq<System>, steps: seq<Step>, k: nat, c: Exposure, e: Exposure)
    requires Behaviour(states, steps) && k < |states|
    requires c in states[k].confirmed && e in states[k].exposed && e.generation == c.generation
    ensures c in states[k].exposed && e == c
  {
    BehaviourKeepsInv(states, steps, k);
  }
}
