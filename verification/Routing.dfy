/** Registering backends, querying them all, and resolving plans to their owner (registry.rs). */
module Routing {
  import opened Wrappers
  import opened Plan
  import opened Report
  import opened Registry
  import opened Queries

  // ---------------------------------------------------------------- ownership

  /** No entity type has two backends in one namespace. */
  ghost predicate UniqueOwners(backends: seq<Backend>) {
    forall i, j | 0 <= i < j < |backends| :: !Conflicts(backends[i], backends[j])
  }

  predicate Conflicts(a: Backend, b: Backend) {
    a.namespace == b.namespace && exists entity | entity in a.entities :: entity in b.entities
  }

  function Owner(backends: seq<Backend>, namespace: NamespaceId, deviceType: string): (r: Option<Backend>)
    ensures r.Some? ==> r.value in backends && r.value.Owns(namespace, deviceType)
    ensures r.None? ==> forall b | b in backends :: !b.Owns(namespace, deviceType)
  {
    if backends == [] then None
    else if backends[0].Owns(namespace, deviceType) then Some(backends[0])
    else Owner(backends[1..], namespace, deviceType)
  }

  function FindNamed(devices: seq<DeviceObservation>, target: InterfaceId): Option<DeviceObservation> {
    if devices == [] then None
    else if devices[0].identity.namespace == target.namespace && devices[0].identity.name == target.name
    then Some(devices[0])
    else FindNamed(devices[1..], target)
  }

  /** The backend of one operation, given what discovery found. */
  function Select(backends: seq<Backend>, op: Operation, devices: seq<DeviceObservation>)
    : Result<Backend, BackendErrorKind>
  {
    match FindNamed(devices, op.target)
    case None => Failure(NotFound)
    case Some(device) =>
      match Owner(backends, device.identity.namespace, device.identity.deviceType)
      case None => Failure(UnsupportedEntityType)
      case Some(backend) =>
        if device.identity != op.target then Failure(StaleState)
        else if !backend.supports(op.kind) then Failure(UnsupportedOperation)
        else Success(backend)
  }

  lemma OneOwner(backends: seq<Backend>, a: Backend, b: Backend, namespace: NamespaceId, deviceType: string)
    requires UniqueOwners(backends) && a in backends && b in backends
    requires a.Owns(namespace, deviceType) && b.Owns(namespace, deviceType)
    ensures a == b
  {
    var i :| 0 <= i < |backends| && backends[i] == a;
    var j :| 0 <= j < |backends| && backends[j] == b;
    assert Conflicts(backends[i], backends[j]) && Conflicts(backends[j], backends[i]);
    assert i == j;
  }

  /** The device that bears the target's name in its namespace, with none before it. */
  ghost predicate IsNamed(devices: seq<DeviceObservation>, target: InterfaceId, device: DeviceObservation) {
    exists i | 0 <= i < |devices| && devices[i] == device ::
      && device.identity.namespace == target.namespace && device.identity.name == target.name
      && forall j | 0 <= j < i ::
           devices[j].identity.namespace != target.namespace || devices[j].identity.name != target.name
  }

  lemma {:induction false} NamedIsFirst(devices: seq<DeviceObservation>, target: InterfaceId)
    ensures FindNamed(devices, target).Some? ==> IsNamed(devices, target, FindNamed(devices, target).value)
    ensures FindNamed(devices, target).None? ==>
              forall d | d in devices ::
                d.identity.namespace != target.namespace || d.identity.name != target.name
  {
    if devices != [] {
      NamedIsFirst(devices[1..], target);
      var found := FindNamed(devices, target);
      if found.Some? && found != Some(devices[0]) {
        var rest := devices[1..];
        var i :| && 0 <= i < |rest| && rest[i] == found.value
                 && forall j | 0 <= j < i ::
                      rest[j].identity.namespace != target.namespace || rest[j].identity.name != target.name;
        assert devices[i + 1] == found.value;
        assert forall j | 0 < j <= i :: devices[j] == rest[j - 1];
      }
    }
  }

  lemma OneIsNamed(devices: seq<DeviceObservation>, target: InterfaceId, a: DeviceObservation, b: DeviceObservation)
    requires IsNamed(devices, target, a) && IsNamed(devices, target, b)
    ensures a == b
  {
  }

  /**
   The four ways to fail and the one to succeed: no device of that name; nobody
   owns the type of the one found; its identity is another than the target's;
   its owner does not support the operation; its owner does.
   */
  lemma SelectMeans(backends: seq<Backend>, op: Operation, devices: seq<DeviceObservation>)
    requires UniqueOwners(backends)
    ensures Select(backends, op, devices) == Failure(NotFound)
            <==> forall d | d in devices ::
                   d.identity.namespace != op.target.namespace || d.identity.name != op.target.name
    ensures Select(backends, op, devices) == Failure(UnsupportedEntityType)
            <==> exists d | IsNamed(devices, op.target, d) ::
                   forall b | b in backends :: !b.Owns(d.identity.namespace, d.identity.deviceType)
    ensures Select(backends, op, devices) == Failure(StaleState)
            <==> exists d, b | IsNamed(devices, op.target, d) && b in backends ::
                   b.Owns(d.identity.namespace, d.identity.deviceType) && d.identity != op.target
    ensures Select(backends, op, devices) == Failure(UnsupportedOperation)
            <==> exists d, b | IsNamed(devices, op.target, d) && b in backends ::
                   b.Owns(op.target.namespace, op.target.deviceType) && d.identity == op.target && !b.supports(op.kind)
    ensures forall b ::
              Select(backends, op, devices) == Success(b)
              <==> && b in backends && b.Owns(op.target.namespace, op.target.deviceType) && b.supports(op.kind)
                   && exists d :: IsNamed(devices, op.target, d) && d.identity == op.target
  {
    hide UniqueOwners, IsNamed;
    NamedIsFirst(devices, op.target);
    forall a, b | IsNamed(devices, op.target, a) && IsNamed(devices, op.target, b) ensures a == b {
      OneIsNamed(devices, op.target, a, b);
    }
    forall a | IsNamed(devices, op.target, a)
      ensures a in devices && a.identity.namespace == op.target.namespace && a.identity.name == op.target.name
    {
      NamedIsMember(devices, op.target, a);
    }
    var found := FindNamed(devices, op.target);
    if found.Some? {
      var identity := found.value.identity;
      forall a, b | && a in backends && a.Owns(identity.namespace, identity.deviceType)
                    && b in backends && b.Owns(identity.namespace, identity.deviceType)
        ensures a == b
      {
        OneOwner(backends, a, b, identity.namespace, identity.deviceType);
      }
    }
  }

  lemma NamedIsMember(devices: seq<DeviceObservation>, target: InterfaceId, device: DeviceObservation)
    requires IsNamed(devices, target, device)
    ensures device in devices
    ensures device.identity.namespace == target.namespace && device.identity.name == target.name
  {
  }

  /** Backends accepted in any order select the same backend. */
  lemma SelectIgnoresOrder(a: seq<Backend>, b: seq<Backend>, op: Operation, devices: seq<DeviceObservation>)
    requires UniqueOwners(a) && UniqueOwners(b)
    requires (forall x | x in a :: x in b) && (forall x | x in b :: x in a)
    ensures Select(a, op, devices) == Select(b, op, devices)
  {
    hide UniqueOwners;
    var found := FindNamed(devices, op.target);
    if found.Some? {
      var namespace, deviceType := found.value.identity.namespace, found.value.identity.deviceType;
      var x, y := Owner(a, namespace, deviceType), Owner(b, namespace, deviceType);
      if x.Some? && y.Some? {
        OneOwner(b, x.value, y.value, namespace, deviceType);
      }
    }
  }

  /** An operation is only ever routed to a backend that owns its interface's type. */
  lemma SelectedOwnsTarget(backends: seq<Backend>, op: Operation, devices: seq<DeviceObservation>)
    requires Select(backends, op, devices).Success?
    ensures Select(backends, op, devices).value.Owns(op.target.namespace, op.target.deviceType)
    ensures Select(backends, op, devices).value.supports(op.kind)
    ensures exists d | d in devices :: d.identity == op.target
  {
    FoundIsMember(devices, op.target);
  }

  lemma {:induction false} FoundIsMember(devices: seq<DeviceObservation>, target: InterfaceId)
    requires FindNamed(devices, target).Some?
    ensures FindNamed(devices, target).value in devices
  {
    if FindNamed(devices, target) != Some(devices[0]) {
      FoundIsMember(devices[1..], target);
    }
  }

  // ---------------------------------------------------------------- plans

  function Selected(backends: seq<Backend>, op: Operation, observed: Result<seq<DeviceObservation>, BackendErrorKind>)
    : Result<Backend, BackendErrorKind>
  {
    match observed
    case Failure(error) => Failure(error)
    case Success(devices) => Select(backends, op, devices)
  }

  /** How one operation resolves: a query of its namespace, then a selection. */
  ghost predicate Resolves(backends: seq<Backend>, answers: Answers, op: Operation,
                           result: Result<Backend, BackendErrorKind>) {
    exists observed ::
      && IsQuery(backends, Some(op.target.namespace), false, answers, observed)
      && result == Selected(backends, op, observed)
  }

  /** The standing view `device` is the only one of the namespace that bears its name. */
  ghost predicate IsOnlyOfItsName(backends: seq<Backend>, namespace: NamespaceId, answers: Answers,
                                  device: DeviceObservation) {
    && IsStandingView(backends, Some(namespace), answers, device)
    && forall other | IsStandingView(backends, Some(namespace), answers, other) && other != device ::
         other.identity.name != device.identity.name
  }

  /** An operation that resolves does so to the owner of its target, which the namespace's backends reported. */
  lemma ResolvedTargetIsReported(backends: seq<Backend>, answers: Answers, op: Operation, backend: Backend)
    requires UniqueOwners(backends) && Resolves(backends, answers, op, Success(backend))
    ensures backend in backends && backend.supports(op.kind)
    ensures backend.namespace == op.target.namespace && op.target.deviceType in backend.entities
    ensures exists d | IsStandingView(backends, Some(op.target.namespace), answers, d) :: d.identity == op.target
  {
    hide IsQuery, Select, IsStandingView, UniqueOwners, IsNamed;
    var namespace := Some(op.target.namespace);
    var observed :| IsQuery(backends, namespace, false, answers, observed)
                    && Success(backend) == Selected(backends, op, observed);
    QueryMeans(backends, namespace, false, answers, observed);
    SelectMeans(backends, op, observed.value);
    var d :| IsNamed(observed.value, op.target, d) && d.identity == op.target;
    NamedIsMember(observed.value, op.target, d);
    var i :| 0 <= i < |observed.value| && observed.value[i] == d;
  }

  /**
   Conversely, when no backend of the namespace fails and the target is there
   unchanged under a name of its own, the operation resolves to the registered
   owner of its type that supports it.
   */
  lemma OwnedTargetsResolve(backends: seq<Backend>, answers: Answers, op: Operation, backend: Backend,
                            device: DeviceObservation, result: Result<Backend, BackendErrorKind>)
    requires UniqueOwners(backends) && Resolves(backends, answers, op, result)
    requires forall i: nat, error :: !BringsFirst(backends, Some(op.target.namespace), answers, i, error)
    requires IsOnlyOfItsName(backends, op.target.namespace, answers, device) && device.identity == op.target
    requires backend in backends && backend.Owns(op.target.namespace, op.target.deviceType)
    requires backend.supports(op.kind)
    ensures result == Success(backend)
  {
    hide IsQuery, Select, UniqueOwners, BringsFirst, IsNamed, Reported;
    var namespace := Some(op.target.namespace);
    var observed :| IsQuery(backends, namespace, false, answers, observed)
                    && result == Selected(backends, op, observed);
    QueryMeans(backends, namespace, false, answers, observed);
    assert observed.Success?;
    SelectMeans(backends, op, observed.value);
    OnlyOneIsNamed(backends, answers, op.target, observed.value, device);
  }

  lemma OnlyOneIsNamed(backends: seq<Backend>, answers: Answers, target: InterfaceId,
                       devices: seq<DeviceObservation>, device: DeviceObservation)
    requires KeepsStandingViews(backends, Some(target.namespace), answers, devices)
    requires IsOnlyOfItsName(backends, target.namespace, answers, device) && device.identity == target
    ensures IsNamed(devices, target, device)
  {
    hide IsStandingView, Stands;
    var namespace, key := Some(target.namespace), KeyOf(device);
    StandingIsReported(backends, namespace, answers, device);
    var other :| other in devices && KeyOf(other) == key;
    var i :| 0 <= i < |devices| && devices[i] == other;
    OneStands(backends, namespace, answers, device, other);
    forall j | 0 <= j < i ensures devices[j].identity.name != target.name {
      assert IsStandingView(backends, namespace, answers, devices[j]);
      assert KeyOf(devices[j]) != KeyOf(devices[i]);
    }
  }

  ghost predicate CachesQueries(backends: seq<Backend>, answers: Answers,
                                cache: map<NamespaceId, seq<DeviceObservation>>) {
    forall ns | ns in cache :: IsQuery(backends, Some(ns), false, answers, Success(cache[ns]))
  }

  /** Operation `i` is the first that fails, or that resolves elsewhere than the ones before it. */
  ghost predicate FailsFirstAt(backends: seq<Backend>, answers: Answers, operations: seq<Operation>, i: nat,
                               error: BackendErrorKind)
    requires i < |operations|
  {
    if i == 0 then Resolves(backends, answers, operations[0], Failure(error))
    else exists b | b in backends ::
      && (forall j | 0 <= j < i :: Resolves(backends, answers, operations[j], Success(b)))
      && (Resolves(backends, answers, operations[i], Failure(error)) ||
          (error == UnsupportedOperation &&
           exists c | c in backends :: c != b && Resolves(backends, answers, operations[i], Success(c))))
  }

  class BackendRegistry {
    var backends: seq<Backend>

    ghost predicate Valid()
      reads this
    {
      UniqueOwners(backends)
    }

    constructor ()
      ensures Valid() && backends == []
    {
      backends := [];
    }

    /** Refuse exactly the backends that would share a type with one of their namespace. */
    method Register(backend: Backend) returns (error: Option<BackendErrorKind>)
      requires Valid()
      modifies this
      ensures Valid()
      ensures error.Some? <==>
        exists b, entity | b in old(backends) && b.namespace == backend.namespace && entity in b.entities ::
          entity in backend.entities
      ensures error.Some? ==> error == Some(Conflict)
      ensures backends == if error.Some? then old(backends) else old(backends) + [backend]
    {
      for i := 0 to |backends|
        invariant forall j | 0 <= j < i :: !Conflicts(backends[j], backend)
      {
        if Conflicts(backends[i], backend) {
          assert backends[i] in backends;
          return Some(Conflict);
        }
      }
      backends := backends + [backend];
      error := None;
    }

    /** Query the backends of a namespace and keep the first owned view of every device. */
    method QueryInNamespace(namespace: Option<NamespaceId>, named: bool, answers: Answers)
      returns (result: Result<seq<DeviceObservation>, BackendErrorKind>)
      ensures IsQuery(backends, namespace, named, answers, result)
      ensures result.Success? ==> KeepsStandingViews(backends, namespace, answers, result.value)
      ensures result.Success? ==>
        forall key ::
          HasKey(result.value, key) <==>
          exists b | b in backends && (namespace == None || namespace == Some(b.namespace)) ::
            answers(b).Success? && HasKey(answers(b).value, key)
    {
      result := MergeAnswers(namespace, named, answers);
      QueryMeans(backends, namespace, named, answers, result);
      if result.Success? {
        KeysAreReported(backends, namespace, named, answers, result.value);
      }
    }

    /** One pass over the backends asked, in registration order. */
    method MergeAnswers(namespace: Option<NamespaceId>, named: bool, answers: Answers)
      returns (result: Result<seq<DeviceObservation>, BackendErrorKind>)
      ensures IsQuery(backends, namespace, named, answers, result)
    {
      hide IsMerge, Tracks;
      var queried := Within(backends, namespace);
      var seen: Seen, devices: seq<DeviceObservation> := map[], [];
      ghost var sightings: seq<Sighting> := [];
      NothingSeen();
      for i := 0 to |queried|
        invariant Gather(queried[..i], answers) == Success(sightings)
        invariant Tracks(seen, sightings) && IsMerge(sightings, devices)
      {
        var answer := answers(queried[i]);
        assert queried[..i + 1][..i] == queried[..i];
        if answer.Failure? {
          if answer.error == NotFound {
            continue;
          }
          EarlyGatherFailure(queried, answers, i + 1);
          return Failure(answer.error);
        }
        ghost var before := sightings;
        var ok;
        ok, seen, devices := Merge(queried[i], answer.value, seen, devices, before);
        if !ok {
          EarlyGatherFailure(queried, answers, i + 1);
          return Failure(Internal);
        }
        sightings := before + SightingsOf(queried[i], answer.value);
      }
      assert queried[..|queried|] == queried;
      EmptyMerge(sightings, devices);
      result := if named && devices == [] then Failure(NotFound) else Success(devices);
    }

    /** Merge one backend's devices, refusing an interface of another namespace. */
    method Merge(backend: Backend, reported: seq<DeviceObservation>, seen: Seen, devices: seq<DeviceObservation>,
                 ghost before: seq<Sighting>)
      returns (ok: bool, seen': Seen, devices': seq<DeviceObservation>)
      requires Tracks(seen, before) && IsMerge(before, devices)
      ensures ok <==> forall d | d in reported :: d.identity.namespace == backend.namespace
      ensures ok ==> Tracks(seen', before + SightingsOf(backend, reported))
      ensures ok ==> IsMerge(before + SightingsOf(backend, reported), devices')
    {
      hide IsMerge, Tracks;
      ok, seen', devices' := true, seen, devices;
      assert before + SightingsOf(backend, []) == before;
      for i := 0 to |reported|
        invariant forall j | 0 <= j < i :: reported[j].identity.namespace == backend.namespace
        invariant Tracks(seen', before + SightingsOf(backend, reported[..i]))
        invariant IsMerge(before + SightingsOf(backend, reported[..i]), devices')
      {
        if reported[i].identity.namespace != backend.namespace {
          assert reported[i] in reported;
          return false, seen', devices';
        }
        var next := Sighting(reported[i], reported[i].identity.deviceType in backend.entities);
        ghost var s := before + SightingsOf(backend, reported[..i]);
        assert reported[..i + 1][..i] == reported[..i];
        assert s + [next] == before + SightingsOf(backend, reported[..i + 1]);
        seen', devices' := See(seen', devices', next, s);
      }
      assert reported[..|reported|] == reported;
    }

    /** The one backend that every operation of the plan resolves to, or the first failure. */
    method ResolvePlan(diff: StateDiff, answers: Answers) returns (result: Result<Backend, BackendErrorKind>)
      requires Valid()
      ensures result.Success? <==>
        && diff.operations != []
        && exists b: Backend | b in backends ::
             forall op | op in diff.operations :: Resolves(backends, answers, op, Success(b))
      ensures result.Success? ==> forall op | op in diff.operations :: Resolves(backends, answers, op, result)
      ensures result.Failure? ==>
        || (diff.operations == [] && result.error == NotFound)
        || exists i | 0 <= i < |diff.operations| :: FailsFirstAt(backends, answers, diff.operations, i, result.error)
    {
      hide IsQuery, Select;
      var cache: map<NamespaceId, seq<DeviceObservation>> := map[];
      var resolved: Option<Backend> := None;
      var operations := diff.operations;
      for i := 0 to |operations|
        invariant CachesQueries(backends, answers, cache)
        invariant resolved.None? <==> i == 0
        invariant resolved.Some? ==> resolved.value in backends
        invariant forall j | 0 <= j < i :: Resolves(backends, answers, operations[j], Success(resolved.value))
      {
        var op := operations[i];
        assert op in operations;
        var own;
        own, cache := ResolveOperation(op, answers, cache);
        forall b: Backend | b in backends && Resolves(backends, answers, op, Success(b)) ensures Success(b) == own {
          ResolvesOnce(backends, answers, op, own, Success(b));
        }
        if own.Failure? {
          assert FailsFirstAt(backends, answers, operations, i, own.error);
          return Failure(own.error);
        }
        if resolved.Some? && resolved.value != own.value {
          assert operations[0] in operations;
          forall b: Backend | b in backends && Resolves(backends, answers, operations[0], Success(b))
            ensures b == resolved.value
          {
            ResolvesOnce(backends, answers, operations[0], Success(resolved.value), Success(b));
          }
          assert FailsFirstAt(backends, answers, operations, i, UnsupportedOperation);
          return Failure(UnsupportedOperation);
        }
        resolved := Some(own.value);
      }
      if resolved.None? {
        return Failure(NotFound);
      }
      result := Success(resolved.value);
    }

    /** One operation against the cached observation of its namespace. */
    method ResolveOperation(op: Operation, answers: Answers, cache: map<NamespaceId, seq<DeviceObservation>>)
      returns (own: Result<Backend, BackendErrorKind>, cache': map<NamespaceId, seq<DeviceObservation>>)
      requires CachesQueries(backends, answers, cache)
      ensures CachesQueries(backends, answers, cache')
      ensures Resolves(backends, answers, op, own)
      ensures own.Success? ==> own.value in backends
    {
      hide IsQuery;
      cache' := cache;
      var ns := op.target.namespace;
      if ns !in cache {
        var observed := QueryInNamespace(Some(ns), false, answers);
        if observed.Failure? {
          return Failure(observed.error), cache';
        }
        cache' := cache[ns := observed.value];
      }
      own := Select(backends, op, cache'[ns]);
    }
  }

  lemma NothingSeen()
    ensures Tracks(map[], []) && IsMerge([], [])
  {
  }

  lemma EmptyMerge(s: seq<Sighting>, devices: seq<DeviceObservation>)
    requires IsMerge(s, devices)
    ensures devices == [] <==> s == []
  {
    if s != [] {
      KeysAreSeen(s);
      assert KeyOf(s[0].device) in Keys(s);
    }
  }

  lemma ResolvesOnce(backends: seq<Backend>, answers: Answers, op: Operation,
                     a: Result<Backend, BackendErrorKind>, b: Result<Backend, BackendErrorKind>)
    requires Resolves(backends, answers, op, a) && Resolves(backends, answers, op, b)
    ensures a == b
  {
    hide IsQuery, Select;
    var x :| IsQuery(backends, Some(op.target.namespace), false, answers, x) && a == Selected(backends, op, x);
    var y :| IsQuery(backends, Some(op.target.namespace), false, answers, y) && b == Selected(backends, op, y);
    QueryIsUnique(backends, Some(op.target.namespace), false, answers, x, y);
  }
}
