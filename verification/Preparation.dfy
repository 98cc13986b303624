/** Preparing query results and policies for apply (apply.rs). */
module Preparation {
  import opened Wrappers
  import opened OrderedMaps
  import opened Values
  import opened Schemas
  import opened Stripper

  datatype MatchBy = ByName | ByMac

  /** `display` is the canonical text of a value that is not already text. */
  datatype Options = Options(matchBy: MatchBy, display: Value -> string)

  datatype Outcome = Outcome(states: seq<State>, removed: seq<string>)

  datatype IndexedError = IndexedError(stateIndex: nat, error: ValidationError)

  datatype PrepareError = Invalid(errors: seq<IndexedError>) | NoMatchField(field: string, stateIndex: nat)

  // ---------------------------------------------------------------- registries

  /** One fragment per trigger key, and at most one without a trigger. */
  ghost predicate DistinctTriggers(fragments: seq<Fragment>) {
    forall i, j | 0 <= i < j < |fragments| :: fragments[i].triggerKey != fragments[j].triggerKey
  }

  function BaseRoot(registry: SchemaRegistry): (r: SchemaNode)
    requires ValidRegistry(registry)
    ensures ValidSchemaNode(r)
  {
    FoundTrigger(registry.fragments, None);
    FindTrigger(registry.fragments, None).value.root
  }

  lemma {:induction false} FoundTrigger(fragments: seq<Fragment>, key: Option<string>)
    ensures FindTrigger(fragments, key).Some? ==>
      FindTrigger(fragments, key).value in fragments && FindTrigger(fragments, key).value.triggerKey == key
    ensures FindTrigger(fragments, key).None? ==> forall f | f in fragments :: f.triggerKey != key
  {
    if fragments != [] {
      FoundTrigger(fragments[1..], key);
    }
  }

  lemma {:induction false} OnlyTrigger(fragments: seq<Fragment>, f: Fragment)
    requires DistinctTriggers(fragments) && f in fragments
    ensures FindTrigger(fragments, f.triggerKey) == Some(f)
  {
    if fragments[0] == f {
    } else {
      assert f in fragments[1..];
      var i :| 1 <= i < |fragments| && fragments[i] == f;
      assert DistinctTriggers(fragments[1..]) by {
        forall i, j | 0 <= i < j < |fragments[1..]|
          ensures fragments[1..][i].triggerKey != fragments[1..][j].triggerKey
        {
          assert fragments[i + 1].triggerKey != fragments[j + 1].triggerKey;
        }
      }
      OnlyTrigger(fragments[1..], f);
    }
  }

  lemma {:induction false} TriggerKeysAre(fragments: seq<Fragment>, key: string)
    ensures key in TriggerKeys(fragments) <==> FindTrigger(fragments, Some(key)).Some?
  {
    if fragments != [] {
      TriggerKeysAre(fragments[1..], key);
    }
  }

  // ---------------------------------------------------------------- removal from a state

  /** A fragment's map is stripped by its own schema and dropped once empty. */
  function StripTopEntry(registry: SchemaRegistry, entry: Entry<Value>): Fields
    requires ValidRegistry(registry)
  {
    match FindTrigger(registry.fragments, Some(entry.key))
    case Some(f) =>
      if entry.value.Map? then
        var left := StripFields(f.root, entry.value.entries);
        if left == [] then [] else [Entry(entry.key, Map(left))]
      else [entry]
    case None => StripEntry(BaseRoot(registry), entry)
  }

  function StripTop(registry: SchemaRegistry, fields: Fields): Fields
    requires ValidRegistry(registry)
  {
    if fields == [] then [] else StripTopEntry(registry, fields[0]) + StripTop(registry, fields[1..])
  }

  function RemovedTopEntry(registry: SchemaRegistry, entry: Entry<Value>): seq<string>
    requires ValidRegistry(registry)
  {
    match FindTrigger(registry.fragments, Some(entry.key))
    case Some(f) => if entry.value.Map? then RemovedFields(f.root, entry.value.entries, entry.key) else []
    case None => RemovedEntry(BaseRoot(registry), entry, "")
  }

  function RemovedTop(registry: SchemaRegistry, fields: Fields): seq<string>
    requires ValidRegistry(registry)
  {
    if fields == [] then [] else RemovedTopEntry(registry, fields[0]) + RemovedTop(registry, fields[1..])
  }

  lemma TopAtMostOne(registry: SchemaRegistry, entry: Entry<Value>)
    requires ValidRegistry(registry)
    ensures |StripTopEntry(registry, entry)| <= 1
    ensures forall e | e in StripTopEntry(registry, entry) :: e.key == entry.key
  {
    AtMostOne(BaseRoot(registry), entry);
  }

  lemma {:induction false} StripTopConcat(registry: SchemaRegistry, a: Fields, b: Fields)
    requires ValidRegistry(registry)
    ensures StripTop(registry, a + b) == StripTop(registry, a) + StripTop(registry, b)
  {
    hide StripTopEntry, ValidRegistry;
    if a == [] {
      assert a + b == b;
    } else {
      StripTopConcat(registry, a[1..], b);
      assert (a + b)[1..] == a[1..] + b;
    }
  }

  lemma {:induction false} StripTopKeys(registry: SchemaRegistry, fields: Fields, key: string)
    requires ValidRegistry(registry)
    requires forall e | e in fields :: e.key != key
    ensures forall e | e in StripTop(registry, fields) :: e.key != key
  {
    hide StripTopEntry, ValidRegistry;
    if fields != [] {
      TopAtMostOne(registry, fields[0]);
      StripTopKeys(registry, fields[1..], key);
    }
  }

  /** Edit what a state holds at one of its keys. */
  method RemoveAtKey(registry: SchemaRegistry, remover: Remover, fields: Fields, key: string,
                     ghost before: Fields, ghost value: Value, ghost after: Fields) returns (result: Fields)
    requires ValidRegistry(registry)
    requires fields == before + [Entry(key, value)] + after
    requires WellFormed(value) && forall e | e in before :: e.key != key
    modifies remover
    ensures result == before + StripTopEntry(registry, Entry(key, value)) + after
    ensures remover.removed == old(remover.removed) + RemovedTopEntry(registry, Entry(key, value))
  {
    hide StripFields, RemovedFields, Get, Remove, Insert, ValidSchemaNode;
    GetMiddle(before, Entry(key, value), after);
    RemoveMiddle(before, Entry(key, value), after);
    result := fields;
    var fragment := FindTrigger(registry.fragments, Some(key));
    if fragment.Some? {
      var found := Get(fields, key).value;
      if found.Map? {
        assert WellFormedFields(found.entries);
        var left := remover.FromMap(fragment.value.root, found.entries, key);
        if left == [] {
          result := Remove(fields, key);
          assert before + [] + after == before + after;
        } else {
          InsertMiddle(before, Entry(key, value), after, Map(left));
          result := Insert(fields, key, Map(left));
        }
      }
    } else {
      result := remover.FromKey(BaseRoot(registry), fields, key, "", before, value, after);
    }
  }

  lemma TopCursor(registry: SchemaRegistry, fields: Fields, i: nat)
    requires ValidRegistry(registry)
    requires i < |fields| && WellFormedFields(fields)
    ensures fields[i..] == [fields[i]] + fields[i + 1..]
    ensures WellFormed(fields[i].value)
    ensures RemovedTop(registry, fields[i..])
         == RemovedTopEntry(registry, Entry(fields[i].key, fields[i].value)) + RemovedTop(registry, fields[i + 1..])
    ensures forall e | e in StripTop(registry, fields[..i]) :: e.key != fields[i].key
    ensures StripTop(registry, fields[..i + 1]) == StripTop(registry, fields[..i]) + StripTopEntry(registry, fields[i])
    ensures StripTop(registry, fields[..i]) + fields[i..]
         == StripTop(registry, fields[..i]) + [Entry(fields[i].key, fields[i].value)] + fields[i + 1..]
  {
    hide StripTopEntry, RemovedTopEntry, WellFormed, ValidRegistry;
    assert fields[i..][1..] == fields[i + 1..];
    assert fields[i] in fields;
    forall x | x in fields[..i] ensures x.key != fields[i].key {
      var j :| 0 <= j < i && fields[j] == x;
    }
    StripTopKeys(registry, fields[..i], fields[i].key);
    assert fields[..i + 1] == fields[..i] + [fields[i]];
    StripTopConcat(registry, fields[..i], [fields[i]]);
    assert StripTop(registry, [fields[i]]) == StripTopEntry(registry, fields[i]) + StripTop(registry, []);
  }

  method RemoveReadOnlyFields(registry: SchemaRegistry, fields: Fields) returns (result: Fields, removed: seq<string>)
    requires ValidRegistry(registry) && WellFormedFields(fields)
    ensures result == StripTop(registry, fields) && removed == RemovedTop(registry, fields)
  {
    hide StripTopEntry, RemovedTopEntry, ValidRegistry, WellFormedFields, WellFormed;
    var remover := new Remover();
    result := fields;
    for i := 0 to |fields|
      invariant result == StripTop(registry, fields[..i]) + fields[i..]
      invariant remover.removed + RemovedTop(registry, fields[i..]) == RemovedTop(registry, fields)
    {
      TopCursor(registry, fields, i);
      result := RemoveAtKey(registry, remover, result, fields[i].key, StripTop(registry, fields[..i]),
                            fields[i].value, fields[i + 1..]);
    }
    assert fields[..|fields|] == fields;
    removed := remover.removed;
  }

  // ---------------------------------------------------------------- the two validations

  /** Query results of the kernel source are matched anew. */
  function Reset(registry: SchemaRegistry, s: State): State {
    if s.source.Kernel? && (s.deviceType != "" || exists e | e in s.fields :: ReadOnlyBaseField(registry, e.key))
    then s.(matchSpec := EMPTY_MATCH) else s
  }

  predicate ReadOnlyBaseField(registry: SchemaRegistry, key: string) {
    var info := LookupField(registry, "base", key);
    info.Some? && !info.value.writable
  }

  function ResetAll(registry: SchemaRegistry, states: seq<State>): (r: seq<State>)
    ensures |r| == |states| && forall i | 0 <= i < |r| :: r[i] == Reset(registry, states[i])
  {
    if states == [] then [] else [Reset(registry, states[0])] + ResetAll(registry, states[1..])
  }

  /** A state is held to the policy rules once it has a match. */
  function StateErrors(registry: SchemaRegistry, s: State, final: bool): seq<ValidationError>
    requires ValidRegistry(registry)
  {
    if final || !s.matchSpec.IsEmpty() then ValidateWritable(registry, s) else Validate(registry, s)
  }

  function Indexed(errors: seq<ValidationError>, index: nat): (r: seq<IndexedError>)
    ensures |r| == |errors|
  {
    if errors == [] then [] else [IndexedError(index, errors[0])] + Indexed(errors[1..], index)
  }

  function CollectErrors(registry: SchemaRegistry, states: seq<State>, final: bool, index: nat): seq<IndexedError>
    requires ValidRegistry(registry)
    decreases |states| - index
  {
    if index >= |states| then []
    else Indexed(StateErrors(registry, states[index], final), index) + CollectErrors(registry, states, final, index + 1)
  }

  // ---------------------------------------------------------------- preparation

  function MatchField(matchBy: MatchBy): string {
    match matchBy case ByName => "name" case ByMac => "mac"
  }

  function SelectedMatch(options: Options, s: State, value: Value): Match {
    var text := if value.String? then value.text else options.display(value);
    var chosen := match options.matchBy
      case ByName => s.matchSpec.(name := Some(text))
      case ByMac => s.matchSpec.(mac := Some(text));
    if s.deviceType == "" then chosen else chosen.(deviceType := Some(s.deviceType))
  }

  /** The selected field becomes the match, read-only fields go, and the type becomes a constraint. */
  function Prepared(registry: SchemaRegistry, options: Options, s: State, value: Value): State
    requires ValidRegistry(registry)
  {
    s.(fields := StripTop(registry, Remove(s.fields, MatchField(options.matchBy))),
       matchSpec := SelectedMatch(options, s, value),
       deviceType := "")
  }

  function PrepareOne(registry: SchemaRegistry, options: Options, s: State, index: nat)
    : Result<(State, seq<string>), PrepareError>
    requires ValidRegistry(registry)
  {
    var field := MatchField(options.matchBy);
    if !s.matchSpec.IsEmpty() then Success((s, []))
    else match Get(s.fields, field)
      case None => Failure(NoMatchField(field, index))
      case Some(value) =>
        Success((Prepared(registry, options, s, value), RemovedTop(registry, Remove(s.fields, field))))
  }

  /** Prepare the first `count` states, stopping at the first without its match field. */
  function PrepareFirst(registry: SchemaRegistry, options: Options, states: seq<State>, count: nat)
    : (r: Result<Outcome, PrepareError>)
    requires ValidRegistry(registry) && count <= |states|
    ensures r.Success? ==> |r.value.states| == count
  {
    if count == 0 then Success(Outcome([], []))
    else match PrepareFirst(registry, options, states, count - 1)
      case Failure(error) => Failure(error)
      case Success(done) =>
        match PrepareOne(registry, options, states[count - 1], count - 1)
        case Failure(error) => Failure(error)
        case Success(one) => Success(Outcome(done.states + [one.0], done.removed + one.1))
  }

  function Prepare(registry: SchemaRegistry, options: Options, states: seq<State>): Result<Outcome, PrepareError>
    requires ValidRegistry(registry)
  {
    var started := ResetAll(registry, states);
    var first := CollectErrors(registry, started, false, 0);
    if first != [] then Failure(Invalid(first))
    else match PrepareFirst(registry, options, started, |started|)
      case Failure(error) => Failure(error)
      case Success(outcome) =>
        var last := CollectErrors(registry, outcome.states, true, 0);
        if last != [] then Failure(Invalid(last)) else Success(outcome)
  }

  /** Preparation as the program runs it, over a private copy of the states. */
  method PrepareForApply(registry: SchemaRegistry, options: Options, states: seq<State>)
    returns (result: Result<Outcome, PrepareError>)
    requires ValidRegistry(registry)
    requires forall s | s in states :: WellFormedFields(s.fields)
    ensures result == Prepare(registry, options, states)
  {
    hide ValidRegistry, WellFormedFields, CollectErrors, PrepareOne, Reset;
    var working := states;
    for i := 0 to |states|
      invariant |working| == |states|
      invariant forall j | 0 <= j < i :: working[j] == Reset(registry, states[j])
      invariant forall j | i <= j < |states| :: working[j] == states[j]
    {
      working := working[i := Reset(registry, working[i])];
    }
    assert working == ResetAll(registry, states);
    var first := CollectErrors(registry, working, false, 0);
    if first != [] {
      return Failure(Invalid(first));
    }
    var started := working;
    forall s | s in started ensures WellFormedFields(s.fields) {
      var i :| 0 <= i < |started| && started[i] == s;
      ResetKeepsFields(registry, states[i]);
      assert states[i] in states;
    }
    var prepared := PrepareEach(registry, options, started);
    if prepared.Failure? {
      return prepared;
    }
    var last := CollectErrors(registry, prepared.value.states, true, 0);
    result := if last != [] then Failure(Invalid(last)) else prepared;
  }

  /** Edit the states one after the other, collecting the removed paths. */
  method PrepareEach(registry: SchemaRegistry, options: Options, started: seq<State>)
    returns (result: Result<Outcome, PrepareError>)
    requires ValidRegistry(registry)
    requires forall s | s in started :: WellFormedFields(s.fields)
    ensures result == PrepareFirst(registry, options, started, |started|)
  {
    hide ValidRegistry, WellFormedFields, PrepareOne;
    var working, removed := started, [];
    for i := 0 to |started|
      invariant |working| == |started|
      invariant PrepareFirst(registry, options, started, i) == Success(Outcome(working[..i], removed))
      invariant forall j | i <= j < |started| :: working[j] == started[j]
    {
      assert started[i] in started;
      var one := PrepareState(registry, options, working[i], i);
      if one.Failure? {
        EarlyFailure(registry, options, started, i + 1);
        return Failure(one.error);
      }
      ghost var done := working[..i];
      working := working[i := one.value.0];
      assert working[..i + 1] == done + [one.value.0];
      removed := removed + one.value.1;
    }
    assert working[..|started|] == working;
    result := Success(Outcome(working, removed));
  }

  lemma ResetKeepsFields(registry: SchemaRegistry, s: State)
    ensures Reset(registry, s).fields == s.fields
  {
  }

  lemma {:induction false} EarlyFailure(registry: SchemaRegistry, options: Options, states: seq<State>, count: nat)
    requires ValidRegistry(registry) && count <= |states|
    requires PrepareFirst(registry, options, states, count).Failure?
    ensures PrepareFirst(registry, options, states, |states|) == PrepareFirst(registry, options, states, count)
    decreases |states| - count
  {
    if count < |states| {
      EarlyFailure(registry, options, states, count + 1);
    }
  }

  /** One state: move the match field, drop the read-only fields, turn the type into a constraint. */
  method PrepareState(registry: SchemaRegistry, options: Options, s: State, index: nat)
    returns (result: Result<(State, seq<string>), PrepareError>)
    requires ValidRegistry(registry) && WellFormedFields(s.fields)
    ensures result == PrepareOne(registry, options, s, index)
  {
    hide ValidRegistry, StripTop, RemovedTop, Remove, Get;
    if !s.matchSpec.IsEmpty() {
      return Success((s, []));
    }
    var state, field := s, MatchField(options.matchBy);
    var value := Get(state.fields, field);
    if value.None? {
      return Failure(NoMatchField(field, index));
    }
    var text := if value.value.String? then value.value.text else options.display(value.value);
    match options.matchBy {
      case ByName => state := state.(matchSpec := state.matchSpec.(name := Some(text)));
      case ByMac => state := state.(matchSpec := state.matchSpec.(mac := Some(text)));
    }
    RemoveKeepsWellFormed(state.fields, field);
    var remaining, removed := RemoveReadOnlyFields(registry, Remove(state.fields, field));
    state := state.(fields := remaining);
    if state.deviceType != "" {
      state := state.(matchSpec := state.matchSpec.(deviceType := Some(state.deviceType)), deviceType := "");
    }
    result := Success((state, removed));
  }

  lemma {:induction false} RemoveKeepsWellFormed(fields: Fields, key: string)
    requires WellFormedFields(fields)
    ensures WellFormedFields(Remove(fields, key))
    ensures forall e :: e in Remove(fields, key) <==> e in fields && e.key != key
  {
    hide WellFormed;
    if fields != [] {
      UniqueTail(fields);
      if fields[0].key == key {
        assert fields == [fields[0]] + fields[1..];
      } else {
        RemoveKeepsWellFormed(fields[1..], key);
        assert fields == [fields[0]] + fields[1..];
        var r := Remove(fields[1..], key);
        assert Remove(fields, key) == [fields[0]] + r;
        forall i, j | 0 <= i < j < |Remove(fields, key)|
          ensures Remove(fields, key)[i].key != Remove(fields, key)[j].key
        {
          assert Remove(fields, key)[j] == r[j - 1] && r[j - 1] in r;
          if i > 0 {
            assert Remove(fields, key)[i] == r[i - 1];
          }
        }
      }
    }
  }

  lemma UniqueTail(fields: Fields)
    requires WellFormedFields(fields) && fields != []
    ensures WellFormedFields(fields[1..])
    ensures forall e | e in fields[1..] :: e.key != fields[0].key
    ensures WellFormed(fields[0].value)
  {
    hide WellFormed;
    assert fields[0] in fields;
    forall i, j | 0 <= i < j < |fields[1..]| ensures fields[1..][i].key != fields[1..][j].key {
      assert fields[i + 1].key != fields[j + 1].key;
    }
  }
}
