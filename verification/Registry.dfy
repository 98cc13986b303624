/** Merging the views of several backends and routing plans to one of them (registry.rs). */
module Registry {
  import opened Wrappers
  import opened Plan
  import opened Report

  /** Backends are told apart by reference, as the shared pointers of the program are. */
  class Backend {
    const namespace: NamespaceId
    const entities: seq<string>
    const supports: OperationKind -> bool

    constructor (namespace: NamespaceId, entities: seq<string>, supports: OperationKind -> bool)
      ensures this.namespace == namespace && this.entities == entities && this.supports == supports
    {
      this.namespace := namespace;
      this.entities := entities;
      this.supports := supports;
    }

    predicate Owns(ns: NamespaceId, deviceType: string) {
      namespace == ns && deviceType in entities
    }
  }

  /** What each backend answers to the query at hand. */
  type Answers = Backend -> Result<seq<DeviceObservation>, BackendErrorKind>

  type Key = (NamespaceId, u32)

  function KeyOf(device: DeviceObservation): Key {
    (device.identity.namespace, device.identity.index)
  }

  /** One view of a device, and whether its reporter owns the type it reports. */
  datatype Sighting = Sighting(device: DeviceObservation, owned: bool)

  // ---------------------------------------------------------------- the first owned view

  /** The keys seen, in first-seen order. */
  function Keys(s: seq<Sighting>): seq<Key> {
    if s == [] then []
    else
      var before, key := Keys(s[..|s| - 1]), KeyOf(s[|s| - 1].device);
      if key in before then before else before + [key]
  }

  ghost predicate Sees(s: seq<Sighting>, key: Key) {
    exists i | 0 <= i < |s| :: KeyOf(s[i].device) == key
  }

  /**
   The view of a key: the first one whose reporter owns the reported type; when
   no view is owned, the first one of all.
   */
  ghost predicate IsView(s: seq<Sighting>, key: Key, device: DeviceObservation) {
    exists i | 0 <= i < |s| ::
      && s[i].device == device && KeyOf(device) == key
      && (if s[i].owned then forall j | 0 <= j < i :: !(KeyOf(s[j].device) == key && s[j].owned)
          else (forall j | 0 <= j < |s| :: !(KeyOf(s[j].device) == key && s[j].owned))
               && forall j | 0 <= j < i :: KeyOf(s[j].device) != key)
  }

  /** One device per key, in first-seen order, each the view of its key. */
  ghost predicate IsMerge(s: seq<Sighting>, devices: seq<DeviceObservation>) {
    && |devices| == |Keys(s)|
    && forall i | 0 <= i < |devices| :: IsView(s, Keys(s)[i], devices[i])
  }

  lemma {:induction false} KeysAreSeen(s: seq<Sighting>)
    ensures forall key :: key in Keys(s) <==> Sees(s, key)
    ensures forall i, j | 0 <= i < j < |Keys(s)| :: Keys(s)[i] != Keys(s)[j]
  {
    if s != [] {
      var before := s[..|s| - 1];
      KeysAreSeen(before);
      forall key ensures key in Keys(s) <==> Sees(s, key) {
        if Sees(before, key) {
          var i :| 0 <= i < |before| && KeyOf(before[i].device) == key;
          assert KeyOf(s[i].device) == key;
        }
        if Sees(s, key) {
          var i :| 0 <= i < |s| && KeyOf(s[i].device) == key;
          assert i < |s| - 1 ==> KeyOf(before[i].device) == key;
        }
      }
    }
  }

  lemma ViewIsUnique(s: seq<Sighting>, key: Key, a: DeviceObservation, b: DeviceObservation)
    requires IsView(s, key, a) && IsView(s, key, b)
    ensures a == b
  {
  }

  /** The merge is a function of the sightings. */
  lemma MergeIsUnique(s: seq<Sighting>, a: seq<DeviceObservation>, b: seq<DeviceObservation>)
    requires IsMerge(s, a) && IsMerge(s, b)
    ensures a == b
  {
    forall i | 0 <= i < |a| ensures a[i] == b[i] {
      ViewIsUnique(s, Keys(s)[i], a[i], b[i]);
    }
  }

  /** Whether any view of a key is owned so far. */
  ghost predicate Owned(s: seq<Sighting>, key: Key) {
    exists i | 0 <= i < |s| :: KeyOf(s[i].device) == key && s[i].owned
  }

  type Seen = map<Key, (nat, bool)>

  /** The table of the loop: where each key's device sits and whether its view is owned. */
  ghost predicate Tracks(seen: Seen, s: seq<Sighting>) {
    && (forall key :: key in seen <==> key in Keys(s))
    && (forall key | key in seen ::
          seen[key].0 < |Keys(s)| && Keys(s)[seen[key].0] == key && (seen[key].1 <==> Owned(s, key)))
  }

  lemma ViewKept(s: seq<Sighting>, next: Sighting, key: Key, device: DeviceObservation)
    requires IsView(s, key, device)
    requires KeyOf(next.device) != key || !next.owned || Owned(s, key)
    ensures IsView(s + [next], key, device)
  {
    var t := s + [next];
    var i :| && 0 <= i < |s| && s[i].device == device && KeyOf(device) == key
             && (if s[i].owned then forall j | 0 <= j < i :: !(KeyOf(s[j].device) == key && s[j].owned)
                 else (forall j | 0 <= j < |s| :: !(KeyOf(s[j].device) == key && s[j].owned))
                      && forall j | 0 <= j < i :: KeyOf(s[j].device) != key);
    assert t[i] == s[i];
    assert forall j | 0 <= j < |s| :: t[j] == s[j];
  }

  lemma OwnedNext(s: seq<Sighting>, next: Sighting, key: Key)
    ensures Owned(s + [next], key) <==> Owned(s, key) || (KeyOf(next.device) == key && next.owned)
  {
    var t := s + [next];
    assert forall j | 0 <= j < |s| :: t[j] == s[j];
    assert t[|s|] == next;
  }

  lemma KeysNext(s: seq<Sighting>, next: Sighting)
    ensures Keys(s + [next]) == if KeyOf(next.device) in Keys(s) then Keys(s) else Keys(s) + [KeyOf(next.device)]
  {
    assert (s + [next])[..|s|] == s;
  }

  lemma NewView(s: seq<Sighting>, next: Sighting)
    requires !Sees(s, KeyOf(next.device)) || (next.owned && !Owned(s, KeyOf(next.device)))
    ensures IsView(s + [next], KeyOf(next.device), next.device)
  {
    var t, key := s + [next], KeyOf(next.device);
    assert t[|s|] == next;
    assert forall j | 0 <= j < |s| :: t[j] == s[j];
  }

  /** One device of one observation: remember it, replace an unowned view, or pass over it. */
  method See(seen: Seen, devices: seq<DeviceObservation>, next: Sighting, ghost s: seq<Sighting>)
    returns (seen': Seen, devices': seq<DeviceObservation>)
    requires Tracks(seen, s) && IsMerge(s, devices)
    ensures Tracks(seen', s + [next]) && IsMerge(s + [next], devices')
  {
    hide Keys, IsView, Owned, Sees;
    var key := KeyOf(next.device);
    KeysAreSeen(s);
    KeysNext(s, next);
    forall k ensures Owned(s + [next], k) <==> Owned(s, k) || (KeyOf(next.device) == k && next.owned) {
      OwnedNext(s, next, k);
    }
    forall i | 0 <= i < |devices| && (Keys(s)[i] != key || !next.owned || Owned(s, key))
      ensures IsView(s + [next], Keys(s)[i], devices[i])
    {
      ViewKept(s, next, Keys(s)[i], devices[i]);
    }
    if key in seen {
      if next.owned && !seen[key].1 {
        NewView(s, next);
        seen', devices' := seen[key := (seen[key].0, true)], devices[seen[key].0 := next.device];
      } else {
        seen', devices' := seen, devices;
      }
    } else {
      NewView(s, next);
      NotOwned(s, key);
      seen', devices' := seen[key := (|devices|, next.owned)], devices + [next.device];
    }
  }

  lemma NotOwned(s: seq<Sighting>, key: Key)
    requires !Sees(s, key)
    ensures !Owned(s, key)
  {
  }

  // ---------------------------------------------------------------- querying

  function Within(backends: seq<Backend>, namespace: Option<NamespaceId>): seq<Backend> {
    if backends == [] then []
    else
      var before, last := Within(backends[..|backends| - 1], namespace), backends[|backends| - 1];
      if namespace.None? || namespace.value == last.namespace then before + [last] else before
  }

  function SightingsOf(backend: Backend, devices: seq<DeviceObservation>): (r: seq<Sighting>)
    ensures |r| == |devices|
    ensures forall i | 0 <= i < |r| :: r[i] == Sighting(devices[i], devices[i].identity.deviceType in backend.entities)
  {
    if devices == [] then []
    else SightingsOf(backend, devices[..|devices| - 1]) +
         [Sighting(devices[|devices| - 1], devices[|devices| - 1].identity.deviceType in backend.entities)]
  }

  /** Everything the backends report, in order; absent interfaces are no failure, foreign ones are. */
  function Gather(backends: seq<Backend>, answers: Answers): Result<seq<Sighting>, BackendErrorKind> {
    if backends == [] then Success([])
    else match Gather(backends[..|backends| - 1], answers)
      case Failure(error) => Failure(error)
      case Success(before) =>
        var last := backends[|backends| - 1];
        match answers(last)
        case Failure(error) => if error == NotFound then Success(before) else Failure(error)
        case Success(devices) =>
          if exists d | d in devices :: d.identity.namespace != last.namespace then Failure(Internal)
          else Success(before + SightingsOf(last, devices))
  }

  lemma {:induction false} EarlyGatherFailure(backends: seq<Backend>, answers: Answers, count: nat)
    requires count <= |backends| && Gather(backends[..count], answers).Failure?
    ensures Gather(backends, answers) == Gather(backends[..count], answers)
    decreases |backends|
  {
    if count < |backends| {
      var shorter := backends[..|backends| - 1];
      assert shorter[..count] == backends[..count];
      EarlyGatherFailure(shorter, answers, count);
    } else {
      assert backends[..count] == backends;
    }
  }

  /** A named query that finds nothing anywhere is a failure. */
  ghost predicate IsQuery(backends: seq<Backend>, namespace: Option<NamespaceId>, named: bool, answers: Answers,
                          result: Result<seq<DeviceObservation>, BackendErrorKind>) {
    match Gather(Within(backends, namespace), answers)
    case Failure(error) => result == Failure(error)
    case Success(sightings) =>
      if named && sightings == [] then result == Failure(NotFound)
      else result.Success? && IsMerge(sightings, result.value)
  }

  lemma QueryIsUnique(backends: seq<Backend>, namespace: Option<NamespaceId>, named: bool, answers: Answers,
                      a: Result<seq<DeviceObservation>, BackendErrorKind>,
                      b: Result<seq<DeviceObservation>, BackendErrorKind>)
    requires IsQuery(backends, namespace, named, answers, a) && IsQuery(backends, namespace, named, answers, b)
    ensures a == b
  {
    hide IsMerge;
    var gathered := Gather(Within(backends, namespace), answers);
    if a.Success? && b.Success? {
      MergeIsUnique(gathered.value, a.value, b.value);
    }
  }
}
