/** Incarnation tokens and the notifications that retire them (linux.rs). */
module Identity {
  import opened Wrappers

  const EPOCHS: nat := 0x1_0000_0000_0000_0000

  /** What the notification stream yields; a closed stream ends it. */
  datatype Item =
    | Deleted(index: u32)
    | BridgePortLeft(index: u32)
    | Unparseable
    | Overrun
    | Unrelated
    | Closed

  /** The identity part of the transport. */
  datatype Transport = Transport(
    generations: map<u32, u64>,
    deletionEpoch: u64,
    invalidated: bool,
    notificationsClosed: bool)

  function NextEpoch(epoch: u64): u64 {
    (epoch + 1) % EPOCHS
  }

  function Invalidated(t: Transport): Transport {
    t.(generations := map[], deletionEpoch := NextEpoch(t.deletionEpoch), invalidated := true)
  }

  /** A port leaving its bridge is reported like a deletion but is none. */
  function Recorded(t: Transport, item: Item): Transport {
    match item
    case Deleted(index) => t.(generations := t.generations - {index}, deletionEpoch := NextEpoch(t.deletionEpoch))
    case Unparseable => Invalidated(t)
    case Overrun => Invalidated(t)
    case Closed => Invalidated(t.(notificationsClosed := true))
    case _ => t
  }

  /** Record what has arrived, up to the end of the stream. */
  function Drained(t: Transport, items: seq<Item>): Transport
    decreases |items|
  {
    if items == [] || t.notificationsClosed then t
    else Drained(Recorded(t, items[0]), items[1..])
  }

  /** Tokens for the links of a dump, in dump order: a link that has one keeps it. */
  function Assigned(generations: map<u32, u64>, links: seq<u32>, drawn: map<u32, u64>): map<u32, u64>
    requires forall index | index in links :: index in drawn
    decreases |links|
  {
    if links == [] then generations
    else
      assert links[0] in links && forall index | index in links[1..] :: index in links;
      var next := if links[0] in generations then generations else generations[links[0] := drawn[links[0]]];
      Assigned(next, links[1..], drawn)
  }

  lemma {:induction false} AssignedTokens(generations: map<u32, u64>, links: seq<u32>, drawn: map<u32, u64>, k: u32)
    requires forall index | index in links :: index in drawn
    decreases |links|
    ensures var tokens := Assigned(generations, links, drawn);
            && (k in tokens <==> k in generations || k in links)
            && (k in tokens ==> tokens[k] == if k in generations then generations[k] else drawn[k])
  {
    if links != [] {
      assert links == [links[0]] + links[1..];
      var next := if links[0] in generations then generations else generations[links[0] := drawn[links[0]]];
      AssignedTokens(next, links[1..], drawn, k);
    }
  }

  /** The tokens of the links that a dump showed. */
  function Retained(generations: map<u32, u64>, links: set<u32>): map<u32, u64> {
    map k | k in generations && k in links :: generations[k]
  }

  /** At the end of an inventory the stored tokens are those of exactly the dumped links, old ones unchanged. */
  lemma InventoryTokens(generations: map<u32, u64>, links: seq<u32>, drawn: map<u32, u64>)
    requires forall index | index in links :: index in drawn
    ensures var tokens := Retained(Assigned(generations, links, drawn), set index | index in links);
            && tokens.Keys == (set index | index in links)
            && forall k | k in tokens :: tokens[k] == if k in generations then generations[k] else drawn[k]
  {
    forall k | k in links
      ensures var tokens := Assigned(generations, links, drawn);
              k in tokens && tokens[k] == if k in generations then generations[k] else drawn[k]
    {
      AssignedTokens(generations, links, drawn, k);
    }
  }

  /** What a drain leaves in the queue: nothing, unless the stream closed before it. */
  function Unread(t: Transport, items: seq<Item>): (r: seq<Item>)
    ensures r == [] || Drained(t, items).notificationsClosed
    decreases |items|
  {
    if items == [] || t.notificationsClosed then items else Unread(Recorded(t, items[0]), items[1..])
  }

  class LinuxTransport {
    var generations: map<u32, u64>
    var deletionEpoch: u64
    var invalidated: bool
    var notificationsClosed: bool
    var notifications: seq<Item>

    ghost function View(): Transport
      reads this
    {
      Transport(generations, deletionEpoch, invalidated, notificationsClosed)
    }

    method Invalidate()
      modifies this
      ensures View() == Invalidated(old(View())) && notifications == old(notifications)
    {
      generations := map[];
      deletionEpoch := NextEpoch(deletionEpoch);
      invalidated := true;
    }

    method Record(item: Item)
      modifies this
      ensures View() == Recorded(old(View()), item) && notifications == old(notifications)
    {
      match item {
        case Closed =>
          notificationsClosed := true;
          Invalidate();
        case Deleted(index) =>
          generations := generations - {index};
          deletionEpoch := NextEpoch(deletionEpoch);
        case Unparseable => Invalidate();
        case Overrun => Invalidate();
        case _ =>
      }
    }

    /** Record everything that has arrived, then report an invalidation once. */
    method DrainNotifications() returns (ok: bool)
      modifies this
      ensures var drained := Drained(old(View()), old(notifications));
              && ok == !drained.invalidated
              && View() == drained.(invalidated := false)
      ensures notifications == Unread(old(View()), old(notifications))
      ensures notifications == [] || notificationsClosed
    {
      while !notificationsClosed && notifications != []
        invariant Drained(View(), notifications) == Drained(old(View()), old(notifications))
        invariant Unread(View(), notifications) == Unread(old(View()), old(notifications))
        decreases |notifications|
      {
        var item := notifications[0];
        notifications := notifications[1..];
        Record(item);
      }
      ok := !invalidated;
      invalidated := false;
    }

    /** Give every link of a dump a token, in dump order. */
    method AssignGenerations(links: seq<u32>, drawn: map<u32, u64>)
      requires forall index | index in links :: index in drawn
      modifies this
      ensures View() == old(View()).(generations := Assigned(old(generations), links, drawn))
      ensures notifications == old(notifications)
    {
      for i := 0 to |links|
        invariant View() == old(View()).(generations := generations)
        invariant Assigned(generations, links[i..], drawn) == Assigned(old(generations), links, drawn)
        invariant notifications == old(notifications)
      {
        var index := links[i];
        assert links[i..][0] == index && links[i..][1..] == links[i + 1..];
        if index !in generations {
          generations := generations[index := drawn[index]];
        }
      }
    }
  }
}
