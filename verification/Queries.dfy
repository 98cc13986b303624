/**
 What a query answers, told from the registered backends alone: which of them
 are asked, whose failure is passed on, which view of every interface is kept.
 */
module Queries {
  import opened Wrappers
  import opened Plan
  import opened Report
  import opened Registry

  /** The device number `device` among those that the registered backend number `backend` reports. */
  datatype Place = Place(backend: nat, device: nat)

  predicate Before(a: Place, b: Place) {
    a.backend < b.backend || (a.backend == b.backend && a.device < b.device)
  }

  /** Something stands there, and its backend is of the namespace asked for, if one is. */
  predicate Reported(backends: seq<Backend>, namespace: Option<NamespaceId>, answers: Answers, p: Place) {
    && p.backend < |backends|
    && (namespace == None || namespace == Some(backends[p.backend].namespace))
    && answers(backends[p.backend]).Success?
    && p.device < |answers(backends[p.backend]).value|
  }

  function DeviceAt(backends: seq<Backend>, namespace: Option<NamespaceId>, answers: Answers, p: Place)
    : DeviceObservation
    requires Reported(backends, namespace, answers, p)
  {
    answers(backends[p.backend]).value[p.device]
  }

  /** Its reporter owns the type that it reports. */
  predicate OwnedAt(backends: seq<Backend>, namespace: Option<NamespaceId>, answers: Answers, p: Place)
    requires Reported(backends, namespace, answers, p)
  {
    DeviceAt(backends, namespace, answers, p).identity.deviceType in backends[p.backend].entities
  }

  predicate Reports(backends: seq<Backend>, namespace: Option<NamespaceId>, answers: Answers, p: Place, key: Key) {
    && Reported(backends, namespace, answers, p)
    && KeyOf(DeviceAt(backends, namespace, answers, p)) == key
  }

  predicate ReportsOwned(backends: seq<Backend>, namespace: Option<NamespaceId>, answers: Answers, p: Place, key: Key) {
    && Reports(backends, namespace, answers, p, key)
    && OwnedAt(backends, namespace, answers, p)
  }

  /** The first owned view of its interface, or its first view of all when none is owned. */
  ghost predicate Stands(backends: seq<Backend>, namespace: Option<NamespaceId>, answers: Answers, p: Place, key: Key) {
    && Reports(backends, namespace, answers, p, key)
    && (if OwnedAt(backends, namespace, answers, p)
        then forall q | ReportsOwned(backends, namespace, answers, q, key) :: !Before(q, p)
        else (forall q | Reports(backends, namespace, answers, q, key) ::
                !OwnedAt(backends, namespace, answers, q) && !Before(q, p)))
  }

  /** The error that a backend's answer brings on the whole query: its own, or that of a foreign interface. */
  ghost predicate Brings(backend: Backend, answers: Answers, error: BackendErrorKind) {
    if answers(backend).Failure? then error == answers(backend).error && error != NotFound
    else error == Internal && exists d | d in answers(backend).value :: d.identity.namespace != backend.namespace
  }

  /** Backend `i` is the first of those asked that brings an error. */
  ghost predicate BringsFirst(backends: seq<Backend>, namespace: Option<NamespaceId>, answers: Answers, i: nat,
                              error: BackendErrorKind) {
    && i < |backends|
    && (namespace == None || namespace == Some(backends[i].namespace))
    && Brings(backends[i], answers, error)
    && (forall j, other | 0 <= j < i && (namespace == None || namespace == Some(backends[j].namespace)) ::
          !Brings(backends[j], answers, other))
  }

  // ---------------------------------------------------------------- which backends are asked

  predicate Asked(backends: seq<Backend>, namespace: Option<NamespaceId>, i: nat) {
    i < |backends| && (namespace == None || namespace == Some(backends[i].namespace))
  }

  lemma WithinNext(backends: seq<Backend>, namespace: Option<NamespaceId>)
    requires backends != []
    ensures Within(backends, namespace) ==
            Within(backends[..|backends| - 1], namespace) +
            (if Asked(backends, namespace, |backends| - 1) then [backends[|backends| - 1]] else [])
    ensures forall i: nat | i < |backends| - 1 ::
              Asked(backends[..|backends| - 1], namespace, i) == Asked(backends, namespace, i)
  {
  }

  /**
   The backends asked are the registered ones of the namespace, all of them
   without one: a subsequence in registration order that misses none of them.
   */
  lemma {:induction false} AskedBackends(backends: seq<Backend>, namespace: Option<NamespaceId>) returns (at: seq<nat>)
    ensures |at| == |Within(backends, namespace)|
    ensures forall k | 0 <= k < |at| :: at[k] < |backends| && Within(backends, namespace)[k] == backends[at[k]]
    ensures forall k, l | 0 <= k < l < |at| :: at[k] < at[l]
    ensures forall i: nat | i < |backends| ::
              i in at <==> namespace == None || namespace == Some(backends[i].namespace)
  {
    if backends == [] {
      return [];
    }
    WithinNext(backends, namespace);
    var last := |backends| - 1;
    var earlier := AskedBackends(backends[..last], namespace);
    at := earlier + if Asked(backends, namespace, last) then [last] else [];
  }

  // ---------------------------------------------------------------- what is gathered

  /** The gathered sightings are the reported devices, in the order of their places. */
  ghost predicate InPlaceOrder(backends: seq<Backend>, namespace: Option<NamespaceId>, answers: Answers,
                               s: seq<Sighting>, places: seq<Place>) {
    && |places| == |s|
    && (forall k | 0 <= k < |s| :: IsSighting(backends, namespace, answers, places[k], s[k]))
    && (forall k, l | 0 <= k < l < |s| :: Before(places[k], places[l]))
    && (forall p | Reported(backends, namespace, answers, p) :: p in places)
  }

  predicate IsSighting(backends: seq<Backend>, namespace: Option<NamespaceId>, answers: Answers, p: Place,
                       s: Sighting) {
    && Reported(backends, namespace, answers, p)
    && s.device == DeviceAt(backends, namespace, answers, p)
    && s.owned == OwnedAt(backends, namespace, answers, p)
  }

  lemma GatherNext(backends: seq<Backend>, answers: Answers, last: Backend)
    ensures Gather(backends, answers).Failure? ==>
              Gather(backends + [last], answers) == Gather(backends, answers)
    ensures Gather(backends, answers).Success? ==>
              forall error ::
                Gather(backends + [last], answers) == Failure(error) <==> Brings(last, answers, error)
    ensures Gather(backends + [last], answers).Success? ==>
              Gather(backends, answers).Success? &&
              Gather(backends + [last], answers).value ==
              Gather(backends, answers).value +
              (if answers(last).Success? then SightingsOf(last, answers(last).value) else [])
  {
    assert (backends + [last])[..|backends|] == backends;
    assert (backends + [last])[|backends|] == last;
  }

  /** None of the first `count` registered backends, as far as they are asked, brings an error. */
  ghost predicate Well(backends: seq<Backend>, namespace: Option<NamespaceId>, answers: Answers, count: nat) {
    forall j: nat, error | j < count && Asked(backends, namespace, j) :: !Brings(backends[j], answers, error)
  }

  lemma FirstBefore(backends: seq<Backend>, namespace: Option<NamespaceId>, answers: Answers, i: nat, count: nat,
                    error: BackendErrorKind)
    requires i < count <= |backends|
    ensures BringsFirst(backends, namespace, answers, i, error)
            <==> BringsFirst(backends[..count], namespace, answers, i, error)
  {
    assert forall j: nat | j <= i :: backends[..count][j] == backends[j];
  }

  lemma OneBringsFirst(backends: seq<Backend>, namespace: Option<NamespaceId>, answers: Answers,
                       i: nat, a: BackendErrorKind, j: nat, b: BackendErrorKind)
    requires BringsFirst(backends, namespace, answers, i, a) && BringsFirst(backends, namespace, answers, j, b)
    ensures i == j && a == b
  {
  }

  lemma LastBrings(backends: seq<Backend>, namespace: Option<NamespaceId>, answers: Answers, i: nat,
                   error: BackendErrorKind)
    requires backends != [] && Well(backends, namespace, answers, |backends| - 1)
    ensures BringsFirst(backends, namespace, answers, i, error)
            <==> i == |backends| - 1 && Asked(backends, namespace, i) && Brings(backends[i], answers, error)
  {
    hide Brings;
    assert BringsFirst(backends, namespace, answers, i, error) ==> Asked(backends, namespace, i);
    forall j: nat | j < |backends| - 1 && (namespace == None || namespace == Some(backends[j].namespace))
      ensures Asked(backends, namespace, j)
    {
    }
  }

  /** The query fails with the first error that a backend brings, and only so. */
  lemma {:induction false} GatherFails(backends: seq<Backend>, namespace: Option<NamespaceId>, answers: Answers)
    ensures forall error ::
              Gather(Within(backends, namespace), answers) == Failure(error)
              <==> exists i: nat :: BringsFirst(backends, namespace, answers, i, error)
    ensures Gather(Within(backends, namespace), answers).Success? ==> Well(backends, namespace, answers, |backends|)
  {
    hide Within, Gather, Brings;
    if backends == [] {
      NothingGathered(namespace, answers);
      return;
    }
    var before, last := backends[..|backends| - 1], |backends| - 1;
    GatherFails(before, namespace, answers);
    WithinNext(backends, namespace);
    GatherNext(Within(before, namespace), answers, backends[last]);
    if Gather(Within(before, namespace), answers).Failure? {
      var error := Gather(Within(before, namespace), answers).error;
      var i: nat :| BringsFirst(before, namespace, answers, i, error);
      FirstBefore(backends, namespace, answers, i, last, error);
      forall j: nat, other | BringsFirst(backends, namespace, answers, j, other) ensures other == error {
        OneBringsFirst(backends, namespace, answers, i, error, j, other);
      }
      assert Within(backends, namespace) == Within(before, namespace) ||
             Within(backends, namespace) == Within(before, namespace) + [backends[last]];
    } else {
      assert Well(backends, namespace, answers, last) by {
        forall j: nat, error | j < last && Asked(backends, namespace, j) ensures !Brings(backends[j], answers, error) {
          assert Asked(before, namespace, j) && before[j] == backends[j];
        }
      }
      forall i: nat, error
        ensures BringsFirst(backends, namespace, answers, i, error)
                <==> i == last && Asked(backends, namespace, i) && Brings(backends[i], answers, error)
      {
        LastBrings(backends, namespace, answers, i, error);
      }
      assert !Asked(backends, namespace, last) ==> Within(backends, namespace) == Within(before, namespace);
    }
  }

  lemma NothingGathered(namespace: Option<NamespaceId>, answers: Answers)
    ensures Gather(Within([], namespace), answers) == Success([])
  {
  }

  /** What is gathered stands in the order of its places, and nothing reported is missing. */
  lemma {:induction false} GatheredPlaces(backends: seq<Backend>, namespace: Option<NamespaceId>, answers: Answers)
    returns (places: seq<Place>)
    requires Gather(Within(backends, namespace), answers).Success?
    ensures InPlaceOrder(backends, namespace, answers, Gather(Within(backends, namespace), answers).value, places)
  {
    hide Within, Gather, Brings;
    if backends == [] {
      NothingGathered(namespace, answers);
      return [];
    }
    var before, last := backends[..|backends| - 1], |backends| - 1;
    WithinNext(backends, namespace);
    GatherNext(Within(before, namespace), answers, backends[last]);
    assert Within(backends, namespace) == Within(before, namespace) ||
           Within(backends, namespace) == Within(before, namespace) + [backends[last]];
    var earlier := GatheredPlaces(before, namespace, answers);
    if Asked(backends, namespace, last) && answers(backends[last]).Success? {
      places := earlier + PlacesOf(last, |answers(backends[last]).value|);
      MorePlaces(backends, namespace, answers, Gather(Within(before, namespace), answers).value, earlier);
    } else {
      assert Asked(backends, namespace, last) || Within(backends, namespace) == Within(before, namespace);
      places := earlier;
      SamePlaces(backends, namespace, answers, Gather(Within(before, namespace), answers).value, earlier);
    }
  }

  lemma EarlierPlaces(backends: seq<Backend>, namespace: Option<NamespaceId>, answers: Answers)
    requires backends != []
    ensures var before := backends[..|backends| - 1];
            forall p: Place | p.backend < |backends| - 1 ::
              && Reported(before, namespace, answers, p) == Reported(backends, namespace, answers, p)
              && (Reported(before, namespace, answers, p) ==>
                    && DeviceAt(before, namespace, answers, p) == DeviceAt(backends, namespace, answers, p)
                    && OwnedAt(before, namespace, answers, p) == OwnedAt(backends, namespace, answers, p))
  {
  }

  lemma SamePlaces(backends: seq<Backend>, namespace: Option<NamespaceId>, answers: Answers,
                   s: seq<Sighting>, places: seq<Place>)
    requires backends != []
    requires InPlaceOrder(backends[..|backends| - 1], namespace, answers, s, places)
    requires !Asked(backends, namespace, |backends| - 1) || answers(backends[|backends| - 1]).Failure?
    ensures InPlaceOrder(backends, namespace, answers, s, places)
  {
    EarlierPlaces(backends, namespace, answers);
    forall p | Reported(backends, namespace, answers, p) ensures p in places {
      assert p.backend < |backends| - 1;
      assert Reported(backends[..|backends| - 1], namespace, answers, p);
    }
    forall k | 0 <= k < |s| ensures IsSighting(backends, namespace, answers, places[k], s[k]) {
      assert IsSighting(backends[..|backends| - 1], namespace, answers, places[k], s[k]);
    }
  }

  lemma MorePlaces(backends: seq<Backend>, namespace: Option<NamespaceId>, answers: Answers,
                   s: seq<Sighting>, places: seq<Place>)
    requires backends != []
    requires InPlaceOrder(backends[..|backends| - 1], namespace, answers, s, places)
    requires Asked(backends, namespace, |backends| - 1) && answers(backends[|backends| - 1]).Success?
    ensures var last := |backends| - 1;
            var reported := answers(backends[last]).value;
            InPlaceOrder(backends, namespace, answers, s + SightingsOf(backends[last], reported),
                         places + PlacesOf(last, |reported|))
  {
    hide SightingsOf, PlacesOf;
    var before, last := backends[..|backends| - 1], |backends| - 1;
    var more, mine := SightingsOf(backends[last], answers(backends[last]).value),
                      PlacesOf(last, |answers(backends[last]).value|);
    EarlierPlaces(backends, namespace, answers);
    forall p | Reported(backends, namespace, answers, p) ensures p in places + mine {
      if p.backend < last {
        assert Reported(before, namespace, answers, p);
      } else {
        assert mine[p.device] == p;
      }
    }
    forall k | 0 <= k < |s + more| ensures IsSighting(backends, namespace, answers, (places + mine)[k], (s + more)[k]) {
      if k < |s| {
        assert IsSighting(before, namespace, answers, places[k], s[k]);
      }
    }
    forall k, l | 0 <= k < l < |s + more| ensures Before((places + mine)[k], (places + mine)[l]) {
      if k < |s| {
        assert IsSighting(before, namespace, answers, places[k], s[k]);
      }
    }
  }

  function PlacesOf(backend: nat, count: nat): (r: seq<Place>)
    ensures |r| == count
    ensures forall j | 0 <= j < count :: r[j] == Place(backend, j)
  {
    seq(count, j requires 0 <= j => Place(backend, j))
  }

  // ---------------------------------------------------------------- what is kept

  /** Some first sighting of `a` comes before every sighting of `b`. */
  ghost predicate SeenFirst(s: seq<Sighting>, a: Key, b: Key) {
    exists m | 0 <= m < |s| && KeyOf(s[m].device) == a ::
      forall n | 0 <= n < |s| && KeyOf(s[n].device) == b :: m < n
  }

  lemma SeenFirstNext(s: seq<Sighting>, a: Key, b: Key)
    requires s != [] && SeenFirst(s[..|s| - 1], a, b)
    ensures SeenFirst(s, a, b)
  {
    var before := s[..|s| - 1];
    var m :| 0 <= m < |before| && KeyOf(before[m].device) == a &&
             forall n | 0 <= n < |before| && KeyOf(before[n].device) == b :: m < n;
    forall n | 0 <= n < |s| && KeyOf(s[n].device) == b ensures m < n {
      assert n < |before| ==> before[n] == s[n];
    }
    assert KeyOf(s[m].device) == a;
  }

  lemma {:induction false} KeysInOrder(s: seq<Sighting>)
    ensures forall i, j | 0 <= i < j < |Keys(s)| :: SeenFirst(s, Keys(s)[i], Keys(s)[j])
  {
    if s != [] {
      var before, key := s[..|s| - 1], KeyOf(s[|s| - 1].device);
      KeysInOrder(before);
      KeysAreSeen(before);
      forall i, j | 0 <= i < j < |Keys(s)| ensures SeenFirst(s, Keys(s)[i], Keys(s)[j]) {
        if j < |Keys(before)| {
          SeenFirstNext(s, Keys(s)[i], Keys(s)[j]);
        } else {
          assert Sees(before, Keys(s)[i]) && !Sees(before, key);
          var m :| 0 <= m < |before| && KeyOf(before[m].device) == Keys(s)[i];
          assert KeyOf(s[m].device) == Keys(s)[i];
          assert forall n | 0 <= n < |before| :: before[n] == s[n] && KeyOf(before[n].device) != key;
        }
      }
    }
  }

  /** The devices kept are the standing views, one for every interface reported, in first-reported order. */
  ghost predicate KeepsStandingViews(backends: seq<Backend>, namespace: Option<NamespaceId>, answers: Answers,
                                     devices: seq<DeviceObservation>) {
    && (forall i | 0 <= i < |devices| :: IsStandingView(backends, namespace, answers, devices[i]))
    && (forall p, key | Reports(backends, namespace, answers, p, key) :: exists d | d in devices :: KeyOf(d) == key)
    && (forall i, j | 0 <= i < j < |devices| ::
          && KeyOf(devices[i]) != KeyOf(devices[j])
          && ReportedFirst(backends, namespace, answers, KeyOf(devices[i]), KeyOf(devices[j])))
  }

  ghost predicate IsStandingView(backends: seq<Backend>, namespace: Option<NamespaceId>, answers: Answers,
                                 device: DeviceObservation) {
    exists p | Stands(backends, namespace, answers, p, KeyOf(device)) ::
      DeviceAt(backends, namespace, answers, p) == device
  }

  ghost predicate ReportedFirst(backends: seq<Backend>, namespace: Option<NamespaceId>, answers: Answers,
                                a: Key, b: Key) {
    exists p | Reports(backends, namespace, answers, p, a) ::
      forall q | Reports(backends, namespace, answers, q, b) :: Before(p, q)
  }

  lemma IndexOf(backends: seq<Backend>, namespace: Option<NamespaceId>, answers: Answers,
                s: seq<Sighting>, places: seq<Place>, p: Place) returns (k: nat)
    requires InPlaceOrder(backends, namespace, answers, s, places) && Reported(backends, namespace, answers, p)
    ensures k < |s| && places[k] == p && IsSighting(backends, namespace, answers, p, s[k])
  {
    assert p in places;
    k :| k < |places| && places[k] == p;
  }

  lemma IndexOrder(backends: seq<Backend>, namespace: Option<NamespaceId>, answers: Answers,
                   s: seq<Sighting>, places: seq<Place>, k: nat, l: nat)
    requires InPlaceOrder(backends, namespace, answers, s, places) && k < |s| && l < |s|
    ensures Before(places[k], places[l]) <==> k < l
  {
    if l < k {
      assert Before(places[l], places[k]);
    }
  }

  lemma ViewStands(backends: seq<Backend>, namespace: Option<NamespaceId>, answers: Answers,
                   s: seq<Sighting>, places: seq<Place>, key: Key, device: DeviceObservation)
    requires InPlaceOrder(backends, namespace, answers, s, places) && IsView(s, key, device)
    ensures KeyOf(device) == key && IsStandingView(backends, namespace, answers, device)
  {
    hide InPlaceOrder, Before, Reported, DeviceAt, OwnedAt;
    var i :| && 0 <= i < |s| && s[i].device == device && KeyOf(device) == key
             && (if s[i].owned then forall j | 0 <= j < i :: !(KeyOf(s[j].device) == key && s[j].owned)
                 else (forall j | 0 <= j < |s| :: !(KeyOf(s[j].device) == key && s[j].owned))
                      && forall j | 0 <= j < i :: KeyOf(s[j].device) != key);
    assert |places| == |s| && IsSighting(backends, namespace, answers, places[i], s[i]) by {
      SightingAt(backends, namespace, answers, s, places, i);
    }
    var p := places[i];
    forall q | Reports(backends, namespace, answers, q, key)
      ensures OwnedAt(backends, namespace, answers, q) ==> OwnedAt(backends, namespace, answers, p) && !Before(q, p)
      ensures !OwnedAt(backends, namespace, answers, p) ==> !Before(q, p)
    {
      var k := IndexOf(backends, namespace, answers, s, places, q);
      IndexOrder(backends, namespace, answers, s, places, k, i);
    }
    assert Stands(backends, namespace, answers, p, key);
  }

  lemma SightingAt(backends: seq<Backend>, namespace: Option<NamespaceId>, answers: Answers,
                   s: seq<Sighting>, places: seq<Place>, k: nat)
    requires InPlaceOrder(backends, namespace, answers, s, places) && k < |s|
    ensures |places| == |s| && IsSighting(backends, namespace, answers, places[k], s[k])
  {
  }

  lemma MergeKeepsStanding(backends: seq<Backend>, namespace: Option<NamespaceId>, answers: Answers,
                           s: seq<Sighting>, places: seq<Place>, devices: seq<DeviceObservation>)
    requires InPlaceOrder(backends, namespace, answers, s, places) && IsMerge(s, devices)
    ensures KeepsStandingViews(backends, namespace, answers, devices)
  {
    hide InPlaceOrder, Before, Reported, IsView, Keys, DeviceAt, OwnedAt;
    KeysAreSeen(s);
    KeysInOrder(s);
    forall i | 0 <= i < |devices|
      ensures KeyOf(devices[i]) == Keys(s)[i] && IsStandingView(backends, namespace, answers, devices[i])
    {
      ViewStands(backends, namespace, answers, s, places, Keys(s)[i], devices[i]);
    }
    forall p, key | Reports(backends, namespace, answers, p, key) ensures exists d | d in devices :: KeyOf(d) == key {
      var k := IndexOf(backends, namespace, answers, s, places, p);
      assert Sees(s, key) && key in Keys(s);
      var i :| 0 <= i < |Keys(s)| && Keys(s)[i] == key;
      assert devices[i] in devices;
    }
    forall i, j | 0 <= i < j < |devices|
      ensures ReportedFirst(backends, namespace, answers, KeyOf(devices[i]), KeyOf(devices[j]))
    {
      EarlierKey(backends, namespace, answers, s, places, Keys(s)[i], Keys(s)[j]);
    }
  }

  lemma EarlierKey(backends: seq<Backend>, namespace: Option<NamespaceId>, answers: Answers,
                   s: seq<Sighting>, places: seq<Place>, a: Key, b: Key)
    requires InPlaceOrder(backends, namespace, answers, s, places) && SeenFirst(s, a, b)
    ensures ReportedFirst(backends, namespace, answers, a, b)
  {
    hide InPlaceOrder, Before, Reported, DeviceAt;
    var m :| 0 <= m < |s| && KeyOf(s[m].device) == a && forall n | 0 <= n < |s| && KeyOf(s[n].device) == b :: m < n;
    SightingAt(backends, namespace, answers, s, places, m);
    assert Reports(backends, namespace, answers, places[m], a);
    forall q | Reports(backends, namespace, answers, q, b) ensures Before(places[m], q) {
      var n := IndexOf(backends, namespace, answers, s, places, q);
      IndexOrder(backends, namespace, answers, s, places, m, n);
    }
  }

  // ---------------------------------------------------------------- the query

  lemma StandingIsReported(backends: seq<Backend>, namespace: Option<NamespaceId>, answers: Answers,
                           device: DeviceObservation)
    requires IsStandingView(backends, namespace, answers, device)
    ensures exists p :: Reports(backends, namespace, answers, p, KeyOf(device))
  {
    var p :| && Stands(backends, namespace, answers, p, KeyOf(device))
             && DeviceAt(backends, namespace, answers, p) == device;
    assert Reports(backends, namespace, answers, p, KeyOf(device));
  }

  /** An interface has one standing view. */
  lemma OneStands(backends: seq<Backend>, namespace: Option<NamespaceId>, answers: Answers,
                  a: DeviceObservation, b: DeviceObservation)
    requires IsStandingView(backends, namespace, answers, a) && IsStandingView(backends, namespace, answers, b)
    requires KeyOf(a) == KeyOf(b)
    ensures a == b
  {
    var key := KeyOf(a);
    var p :| Stands(backends, namespace, answers, p, key) && DeviceAt(backends, namespace, answers, p) == a;
    var q :| Stands(backends, namespace, answers, q, key) && DeviceAt(backends, namespace, answers, q) == b;
    assert OwnedAt(backends, namespace, answers, p) ==> ReportsOwned(backends, namespace, answers, p, key);
    assert OwnedAt(backends, namespace, answers, q) ==> ReportsOwned(backends, namespace, answers, q, key);
    assert p == q;
  }

  /**
   A query fails with the first error that a backend of the namespace brings;
   a named one that nothing is reported for is not found; any other keeps the
   standing views.
   */
  lemma QueryMeans(backends: seq<Backend>, namespace: Option<NamespaceId>, named: bool, answers: Answers,
                   result: Result<seq<DeviceObservation>, BackendErrorKind>)
    requires IsQuery(backends, namespace, named, answers, result)
    ensures var well := forall i: nat, error :: !BringsFirst(backends, namespace, answers, i, error);
            var nothing := forall p :: !Reported(backends, namespace, answers, p);
            && (forall error ::
                  result == Failure(error) <==>
                  || (exists i: nat :: BringsFirst(backends, namespace, answers, i, error))
                  || (well && named && nothing && error == NotFound))
            && (result.Success? ==> KeepsStandingViews(backends, namespace, answers, result.value))
  {
    hide Within, Gather, InPlaceOrder, IsMerge, Reported, BringsFirst, KeepsStandingViews;
    GatherFails(backends, namespace, answers);
    var gathered := Gather(Within(backends, namespace), answers);
    forall i: nat, error | BringsFirst(backends, namespace, answers, i, error) ensures gathered == Failure(error) {
    }
    if gathered.Success? {
      var places := GatheredPlaces(backends, namespace, answers);
      EmptyPlaces(backends, namespace, answers, gathered.value, places);
      if result.Success? {
        MergeKeepsStanding(backends, namespace, answers, gathered.value, places, result.value);
      }
    }
  }

  lemma EmptyPlaces(backends: seq<Backend>, namespace: Option<NamespaceId>, answers: Answers,
                    s: seq<Sighting>, places: seq<Place>)
    requires InPlaceOrder(backends, namespace, answers, s, places)
    ensures s == [] <==> forall p :: !Reported(backends, namespace, answers, p)
  {
    if s != [] {
      SightingAt(backends, namespace, answers, s, places, 0);
    } else {
      forall p ensures !Reported(backends, namespace, answers, p) {
        assert Reported(backends, namespace, answers, p) ==> p in places;
      }
    }
  }

  /** Some of the devices is the interface of that key. */
  predicate HasKey(devices: seq<DeviceObservation>, key: Key) {
    exists d | d in devices :: KeyOf(d) == key
  }

  /** Some registered backend of the namespace reported the interface. */
  ghost predicate SomeoneReports(backends: seq<Backend>, namespace: Option<NamespaceId>, answers: Answers, key: Key) {
    exists b | b in backends && (namespace == None || namespace == Some(b.namespace)) ::
      answers(b).Success? && HasKey(answers(b).value, key)
  }

  lemma ReportedIsKept(backends: seq<Backend>, namespace: Option<NamespaceId>, answers: Answers,
                       devices: seq<DeviceObservation>, key: Key)
    requires KeepsStandingViews(backends, namespace, answers, devices)
    requires SomeoneReports(backends, namespace, answers, key)
    ensures HasKey(devices, key)
  {
    hide IsStandingView, ReportedFirst;
    var b :| && b in backends && (namespace == None || namespace == Some(b.namespace))
             && answers(b).Success? && HasKey(answers(b).value, key);
    var i :| 0 <= i < |backends| && backends[i] == b;
    var d :| d in answers(b).value && KeyOf(d) == key;
    var j :| 0 <= j < |answers(b).value| && answers(b).value[j] == d;
    assert Reports(backends, namespace, answers, Place(i, j), key);
  }

  lemma KeptIsReported(backends: seq<Backend>, namespace: Option<NamespaceId>, answers: Answers,
                       devices: seq<DeviceObservation>, key: Key)
    requires KeepsStandingViews(backends, namespace, answers, devices) && HasKey(devices, key)
    ensures SomeoneReports(backends, namespace, answers, key)
  {
    hide ReportedFirst;
    var d :| d in devices && KeyOf(d) == key;
    assert IsStandingView(backends, namespace, answers, d);
    var p :| Stands(backends, namespace, answers, p, key) && DeviceAt(backends, namespace, answers, p) == d;
    assert backends[p.backend] in backends && d in answers(backends[p.backend]).value;
  }

  /** The interfaces in a result are those that some registered backend of the namespace reported. */
  lemma KeysAreReported(backends: seq<Backend>, namespace: Option<NamespaceId>, named: bool, answers: Answers,
                        devices: seq<DeviceObservation>)
    requires IsQuery(backends, namespace, named, answers, Success(devices))
    ensures forall key :: HasKey(devices, key) <==> SomeoneReports(backends, namespace, answers, key)
  {
    hide IsQuery, HasKey, SomeoneReports, KeepsStandingViews;
    QueryMeans(backends, namespace, named, answers, Success(devices));
    forall key ensures HasKey(devices, key) <==> SomeoneReports(backends, namespace, answers, key) {
      if HasKey(devices, key) {
        KeptIsReported(backends, namespace, answers, devices, key);
      }
      if SomeoneReports(backends, namespace, answers, key) {
        ReportedIsKept(backends, namespace, answers, devices, key);
      }
    }
  }

  /**
   What the backends of other namespaces answer, and whether they are
   registered at all, does not affect a query of a namespace.
   */
  lemma {:induction false} ForeignBackendsDoNotMatter(
    a: seq<Backend>, b: seq<Backend>, namespace: NamespaceId, named: bool, x: Answers, y: Answers,
    result: Result<seq<DeviceObservation>, BackendErrorKind>)
    requires Own(a, namespace) == Own(b, namespace)
    requires forall backend: Backend | backend.namespace == namespace :: x(backend) == y(backend)
    requires IsQuery(a, Some(namespace), named, x, result)
    ensures IsQuery(b, Some(namespace), named, y, result)
  {
    hide IsMerge, Own, Within, Gather;
    WithinIsOwn(a, namespace);
    WithinIsOwn(b, namespace);
    GatherAgrees(Own(a, namespace), namespace, x, y);
  }

  /** The registered backends of a namespace. */
  function Own(backends: seq<Backend>, namespace: NamespaceId): (r: seq<Backend>)
    ensures forall b | b in r :: b in backends && b.namespace == namespace
    ensures forall b | b in backends && b.namespace == namespace :: b in r
  {
    if backends == [] then []
    else (if backends[0].namespace == namespace then [backends[0]] else []) + Own(backends[1..], namespace)
  }

  lemma {:induction false} OwnNext(backends: seq<Backend>, namespace: NamespaceId)
    requires backends != []
    ensures var last := |backends| - 1;
            Own(backends, namespace) ==
            Own(backends[..last], namespace) +
            (if backends[last].namespace == namespace then [backends[last]] else [])
  {
    if |backends| > 1 {
      var last := |backends| - 1;
      assert backends[1..][..last - 1] == backends[..last][1..];
      OwnNext(backends[1..], namespace);
    }
  }

  lemma {:induction false} WithinIsOwn(backends: seq<Backend>, namespace: NamespaceId)
    ensures Within(backends, Some(namespace)) == Own(backends, namespace)
  {
    if backends != [] {
      OwnNext(backends, namespace);
      WithinIsOwn(backends[..|backends| - 1], namespace);
    }
  }

  lemma {:induction false} GatherAgrees(backends: seq<Backend>, namespace: NamespaceId, x: Answers, y: Answers)
    requires forall b | b in backends :: b.namespace == namespace
    requires forall backend: Backend | backend.namespace == namespace :: x(backend) == y(backend)
    ensures Gather(backends, x) == Gather(backends, y)
  {
    if backends != [] {
      GatherAgrees(backends[..|backends| - 1], namespace, x, y);
    }
  }
}
