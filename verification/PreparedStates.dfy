/** What preparation makes of each state: its match, what it keeps and reports, and its errors (apply.rs, schema.rs). */
module PreparedStates {
  import opened Wrappers
  import opened OrderedMaps
  import opened Values
  import opened Schemas
  import opened Stripper
  import opened Preparation
  import opened PreparationLaws
  import opened Places
  import opened RemovalPlaces

  // ---------------------------------------------------------------- removal from a whole state

  /** A removed place of a state: below a fragment's key by that fragment's schema, elsewhere by the base schema. */
  ghost predicate TakenOut(registry: SchemaRegistry, fields: Fields, place: Place)
    requires ValidRegistry(registry)
  {
    place != [] && place[0].Field? &&
    match FindTrigger(registry.fragments, Some(place[0].key))
    case None => Taken(BaseRoot(registry), Map(fields), place, false)
    case Some(f) =>
      match Get(fields, place[0].key)
      case Some(value) => Taken(f.root, value, place[1..], false)
      case None => false
  }

  /** Every entry of a fragment's map is removed, or there was none. */
  ghost predicate Emptied(registry: SchemaRegistry, fields: Fields, key: string)
    requires ValidRegistry(registry)
  {
    && FindTrigger(registry.fragments, Some(key)).Some?
    && Get(fields, key).Some? && Get(fields, key).value.Map?
    && forall e | e in Get(fields, key).value.entries :: TakenOut(registry, fields, [Field(key), Field(e.key)])
  }

  /** Neither the place nor anything around it is removed, and the fragment it belongs to is not left empty. */
  ghost predicate Stays(registry: SchemaRegistry, fields: Fields, place: Place)
    requires ValidRegistry(registry)
  {
    && (forall k | 0 < k <= |place| :: !TakenOut(registry, fields, place[..k]))
    && (place != [] && place[0].Field? ==> !Emptied(registry, fields, place[0].key))
  }

  lemma {:induction false} TopEntries(registry: SchemaRegistry, fields: Fields, text: string)
    requires ValidRegistry(registry)
    ensures text in RemovedTop(registry, fields)
       <==> exists e | e in fields :: text in RemovedTopEntry(registry, e)
  {
    hide RemovedTopEntry, ValidRegistry;
    if fields != [] {
      TopEntries(registry, fields[1..], text);
      assert fields == [fields[0]] + fields[1..];
      if text in RemovedTop(registry, fields[1..]) {
        var e :| e in fields[1..] && text in RemovedTopEntry(registry, e);
        assert e in fields;
      } else if text in RemovedTop(registry, fields) {
        assert text in RemovedTopEntry(registry, fields[0]);
      }
      if e :| e in fields && text in RemovedTopEntry(registry, e) {
        assert e == fields[0] || e in fields[1..];
      }
    }
  }

  lemma UniqueEntry(fields: Fields, e: Entry<Value>)
    requires WellFormedFields(fields) && e in fields
    ensures Get(fields, e.key) == Some(e.value) && WellFormed(e.value)
  {
    BelowEntry(fields, e);
  }

  lemma PlaceOfKey(key: string, rest: Place)
    ensures Named("", [Field(key)] + rest) == Named(key, rest)
  {
    NamedStep("", Field(key), rest);
  }

  /** Removal reports exactly the places it takes out, by their names. */
  lemma ReportIsExact(registry: SchemaRegistry, fields: Fields, text: string)
    requires ValidRegistry(registry) && WellFormedFields(fields)
    ensures text in RemovedTop(registry, fields)
       <==> exists place :: TakenOut(registry, fields, place) && Named("", place) == text
  {
    hide RemovedFields, Taken, ValidRegistry, Named, WellFormed;
    TopEntries(registry, fields, text);
    if e :| e in fields && text in RemovedTopEntry(registry, e) {
      var place := ReportedPlace(registry, fields, e, text);
    }
    if place :| TakenOut(registry, fields, place) && Named("", place) == text {
      var e := TakenPlace(registry, fields, place);
    }
  }

  lemma ReportedPlace(registry: SchemaRegistry, fields: Fields, e: Entry<Value>, text: string) returns (place: Place)
    requires ValidRegistry(registry) && WellFormedFields(fields)
    requires e in fields && text in RemovedTopEntry(registry, e)
    ensures TakenOut(registry, fields, place) && Named("", place) == text
  {
    hide Taken, Named, RemovedFields, RemovedEntry;
    UniqueEntry(fields, e);
    match FindTrigger(registry.fragments, Some(e.key)) {
      case Some(f) =>
        var rest := ReportedIsTaken(f.root, e.value, e.key, false, text);
        place := [Field(e.key)] + rest;
        assert place[0] == Field(e.key) && place[1..] == rest;
        PlaceOfKey(e.key, rest);
      case None =>
        place := OnlyEntryPlace(registry, e, text);
        TakenElsewhere(BaseRoot(registry), [e], fields, place);
    }
  }

  /** A report about one entry names a place below its key. */
  lemma OnlyEntryPlace(registry: SchemaRegistry, e: Entry<Value>, text: string) returns (place: Place)
    requires ValidRegistry(registry) && WellFormed(e.value) && text in RemovedEntry(BaseRoot(registry), e, "")
    ensures Taken(BaseRoot(registry), Map([e]), place, false) && Named("", place) == text
    ensures place != [] && place[0] == Field(e.key)
  {
    hide Taken, Named, RemovedEntry;
    ReportedEntries(BaseRoot(registry), [e], "", text);
    assert e in [e];
    assert WellFormed(Map([e]));
    place := ReportedIsTaken(BaseRoot(registry), Map([e]), "", false, text);
    TakenGoesDown(BaseRoot(registry), Map([e]), place, false);
    GetInOne(e, place[0].key);
  }

  lemma GetInOne(e: Entry<Value>, key: string)
    ensures Get([e], key).Some? ==> key == e.key
    ensures Get([e], e.key) == Some(e.value)
  {
  }

  /** Whether a place is taken depends on what its first key holds, not on the entries beside it. */
  lemma TakenElsewhere(node: SchemaNode, a: Fields, b: Fields, place: Place)
    requires place != [] && place[0].Field? && Get(a, place[0].key) == Get(b, place[0].key)
    ensures Taken(node, Map(a), place, false) <==> Taken(node, Map(b), place, false)
  {
    hide Entered;
  }

  lemma TakenPlace(registry: SchemaRegistry, fields: Fields, place: Place) returns (e: Entry<Value>)
    requires ValidRegistry(registry) && WellFormedFields(fields) && TakenOut(registry, fields, place)
    ensures e in fields && Named("", place) in RemovedTopEntry(registry, e)
  {
    hide Named, RemovedFields, RemovedEntry, Entered;
    var key := place[0].key;
    if FindTrigger(registry.fragments, Some(key)).None? {
      TakenGoesDown(BaseRoot(registry), Map(fields), place, false);
    }
    e := Entry(key, Get(fields, key).value);
    UniqueEntry(fields, e);
    match FindTrigger(registry.fragments, Some(key)) {
      case Some(f) =>
        TakenIsReported(f.root, e.value, key, false, place[1..]);
        assert place == [Field(key)] + place[1..];
        PlaceOfKey(key, place[1..]);
      case None =>
        GetInOne(e, key);
        TakenElsewhere(BaseRoot(registry), fields, [e], place);
        assert WellFormed(Map([e]));
        TakenIsReported(BaseRoot(registry), Map([e]), "", false, place);
        ReportedEntries(BaseRoot(registry), [e], "", Named("", place));
    }
  }

  // ---------------------------------------------------------------- what stays in a whole state

  /** Below a key that no fragment claims, the base schema decides. */
  lemma BasePlacesRemain(registry: SchemaRegistry, fields: Fields, place: Place)
    requires ValidRegistry(registry) && WellFormedFields(fields) && place != [] && place[0].Field?
    requires FindTrigger(registry.fragments, Some(place[0].key)).None?
    ensures At(Map(StripTop(registry, fields)), place).Some?
       <==> At(Map(fields), place).Some? && Stays(registry, fields, place)
    ensures At(Map(StripTop(registry, fields)), place).Some?
        ==> SameKind(At(Map(fields), place).value, At(Map(StripTop(registry, fields)), place).value)
  {
    hide Taken, ValidRegistry, WellFormed, StripEntry, SameKind, StripValue;
    var base, key := BaseRoot(registry), place[0].key;
    var after, alone := StripTop(registry, fields), StripFields(base, fields);
    GetTop(registry, fields, key);
    GetStripped(base, fields, key);
    if Get(fields, key).Some? {
      EntryOfBase(registry, fields, key);
    }
    assert At(Map(after), place) == At(Map(alone), place);
    MapIsWellFormed(fields);
    PlacesRemain(base, Map(fields), place, false);
    assert Cut(base, Map(fields), false) == Map(alone) by { CutMap(base, fields, false); }
    forall k | 0 < k <= |place|
      ensures TakenOut(registry, fields, place[..k]) <==> Taken(base, Map(fields), place[..k], false)
    {
      assert place[..k][0] == place[0];
    }
  }

  lemma MapIsWellFormed(fields: Fields)
    requires WellFormedFields(fields)
    ensures WellFormed(Map(fields))
  {
  }

  lemma EntryOfBase(registry: SchemaRegistry, fields: Fields, key: string)
    requires ValidRegistry(registry) && FindTrigger(registry.fragments, Some(key)).None? && Get(fields, key).Some?
    ensures StripTopEntry(registry, Entry(key, Get(fields, key).value)) ==
            match Property(BaseRoot(registry), key)
            case None => [Entry(key, Get(fields, key).value)]
            case Some(property) =>
              if property.writable then [Entry(key, StripValue(property, Get(fields, key).value))] else []
  {
    hide ValidRegistry, StripValue;
  }

  lemma EmptiedMeans(registry: SchemaRegistry, fields: Fields, key: string, f: Fragment)
    requires ValidRegistry(registry) && WellFormedFields(fields)
    requires FindTrigger(registry.fragments, Some(key)) == Some(f)
    requires Get(fields, key).Some? && Get(fields, key).value.Map?
    ensures Emptied(registry, fields, key) <==> StripFields(f.root, Get(fields, key).value.entries) == []
  {
    hide ValidRegistry, Taken, WellFormed;
    var value := Get(fields, key).value;
    UniqueEntry(fields, Entry(key, value));
    EmptiedIsOnlyReadOnly(f.root, value.entries);
    forall e | e in value.entries
      ensures TakenOut(registry, fields, [Field(key), Field(e.key)])
         <==> Property(f.root, e.key).Some? && !Property(f.root, e.key).value.writable
    {
      var place := [Field(key), Field(e.key)];
      assert place[0] == Field(key) && place[1..] == [Field(e.key)];
      FirstFieldTaken(f.root, value, e);
    }
  }

  lemma FirstFieldTaken(node: SchemaNode, value: Value, e: Entry<Value>)
    requires value.Map? && WellFormedFields(value.entries) && e in value.entries
    ensures Taken(node, value, [Field(e.key)], false)
       <==> Property(node, e.key).Some? && !Property(node, e.key).value.writable
  {
    hide Taken;
    BelowEntry(value.entries, e);
    if Property(node, e.key).Some? {
      TakenStep(node, value, [Field(e.key)], false);
    } else {
      UnknownIsKept(node, value, [Field(e.key)], false);
      assert [Field(e.key)][..1] == [Field(e.key)];
    }
  }

  lemma EntryOfFragment(registry: SchemaRegistry, fields: Fields, key: string, f: Fragment)
    requires ValidRegistry(registry) && FindTrigger(registry.fragments, Some(key)) == Some(f) && Get(fields, key).Some?
    ensures var value := Get(fields, key).value;
            var left := Cut(f.root, value, false);
            StripTopEntry(registry, Entry(key, value)) == if left == Map([]) then [] else [Entry(key, left)]
    ensures var value := Get(fields, key).value;
            value.Map? ==> Cut(f.root, value, false) == Map(StripFields(f.root, value.entries))
    ensures !Get(fields, key).value.Map? ==> Cut(f.root, Get(fields, key).value, false) == Get(fields, key).value
  {
    hide ValidRegistry;
  }

  /** Below a fragment's key the fragment's schema decides. */
  lemma FragmentPlacesRemain(registry: SchemaRegistry, fields: Fields, place: Place, f: Fragment)
    requires ValidRegistry(registry) && WellFormedFields(fields) && place != [] && place[0].Field?
    requires FindTrigger(registry.fragments, Some(place[0].key)) == Some(f)
    ensures At(Map(StripTop(registry, fields)), place).Some?
       <==> At(Map(fields), place).Some? && Stays(registry, fields, place)
    ensures At(Map(StripTop(registry, fields)), place).Some?
        ==> SameKind(At(Map(fields), place).value, At(Map(StripTop(registry, fields)), place).value)
  {
    hide Taken, ValidRegistry, WellFormed, Cut, SameKind, StripTopEntry, Emptied;
    var key, rest := place[0].key, place[1..];
    GetTop(registry, fields, key);
    if Get(fields, key).Some? {
      var value := Get(fields, key).value;
      UniqueEntry(fields, Entry(key, value));
      EntryOfFragment(registry, fields, key, f);
      PlacesRemain(f.root, value, rest, false);
      forall k | 0 < k <= |place|
        ensures TakenOut(registry, fields, place[..k]) <==> Taken(f.root, value, rest[..k - 1], false)
      {
        assert place[..k][0] == place[0] && place[..k][1..] == rest[..k - 1];
      }
      assert !Taken(f.root, value, [], false) by { NothingTaken(f.root, value); }
      assert rest[..0] == [];
      KeptBelow(registry, fields, place, f, value);
      if value.Map? {
        EmptiedMeans(registry, fields, key, f);
      } else {
        OnlyMapsEmpty(registry, fields, key);
      }
    }
  }

  lemma NothingTaken(node: SchemaNode, value: Value)
    ensures !Taken(node, value, [], false)
  {
  }

  lemma OnlyMapsEmpty(registry: SchemaRegistry, fields: Fields, key: string)
    requires ValidRegistry(registry) && Get(fields, key).Some? && !Get(fields, key).value.Map?
    ensures !Emptied(registry, fields, key)
  {
  }

  lemma KeptBelow(registry: SchemaRegistry, fields: Fields, place: Place, f: Fragment, value: Value)
    requires ValidRegistry(registry) && place != []
    requires forall k | 0 < k <= |place| ::
               TakenOut(registry, fields, place[..k]) <==> Taken(f.root, value, place[1..][..k - 1], false)
    ensures (forall k | 0 < k <= |place| :: !TakenOut(registry, fields, place[..k]))
       <==> Kept(f.root, value, place[1..], false)
  {
    hide Taken, TakenOut, ValidRegistry;
    var rest := place[1..];
    if Kept(f.root, value, rest, false) {
      forall k | 0 < k <= |place| ensures !TakenOut(registry, fields, place[..k]) {
        if k == 1 {
          assert rest[..0] == [];
          NothingTaken(f.root, value);
        } else {
          assert !Taken(f.root, value, rest[..k - 1], false);
        }
      }
    } else {
      var k :| 0 < k <= |rest| && Taken(f.root, value, rest[..k], false);
      assert TakenOut(registry, fields, place[..k + 1]);
    }
  }

  /** A place of a state remains exactly if it stays, with a value of the same kind; a scalar keeps its value. */
  lemma RemainsExactly(registry: SchemaRegistry, fields: Fields, place: Place)
    requires ValidRegistry(registry) && WellFormedFields(fields) && place != []
    ensures At(Map(StripTop(registry, fields)), place).Some?
       <==> At(Map(fields), place).Some? && Stays(registry, fields, place)
    ensures At(Map(StripTop(registry, fields)), place).Some?
        ==> SameKind(At(Map(fields), place).value, At(Map(StripTop(registry, fields)), place).value)
  {
    hide Stays, StripTop, ValidRegistry, SameKind, WellFormedFields;
    if place[0].Field? {
      var fragment := FindTrigger(registry.fragments, Some(place[0].key));
      if fragment.Some? {
        FragmentPlacesRemain(registry, fields, place, fragment.value);
      } else {
        BasePlacesRemain(registry, fields, place);
      }
    }
  }

  // ---------------------------------------------------------------- one prepared state

  /** The match a state has once query results of the kernel are matched anew. */
  ghost function MatchAtFirst(registry: SchemaRegistry, s: State): Match {
    if && s.source == Kernel
       && (|| s.deviceType != ""
           || exists e | e in s.fields ::
                && LookupField(registry, "base", e.key).Some?
                && !LookupField(registry, "base", e.key).value.writable)
    then Match(None, None, None, None, None) else s.matchSpec
  }

  /** A query result: nothing selects a device yet. */
  ghost predicate Unmatched(registry: SchemaRegistry, s: State) {
    MatchAtFirst(registry, s) == Match(None, None, None, None, None)
  }

  ghost function Selector(options: Options): string {
    if options.matchBy == ByMac then "mac" else "name"
  }

  ghost function TextOf(options: Options, value: Value): string {
    match value
    case String(text) => text
    case _ => options.display(value)
  }

  /** One selector, from the field of its name, and the former type as a constraint. */
  ghost predicate Selects(options: Options, s: State, prepared: Match) {
    && Has(s.fields, Selector(options))
    && var text := TextOf(options, Get(s.fields, Selector(options)).value);
       && prepared.name == (if options.matchBy == ByName then Some(text) else None)
       && prepared.mac == (if options.matchBy == ByMac then Some(text) else None)
       && prepared.driver == None && prepared.pciPath == None
       && prepared.deviceType == (if s.deviceType == "" then None else Some(s.deviceType))
  }

  /** The fields without the selected one and without what is removed; others keep their kind, scalars their value. */
  ghost predicate KeepsTheRest(registry: SchemaRegistry, options: Options, s: State, prepared: Fields)
    requires ValidRegistry(registry)
  {
    var others := Remove(s.fields, Selector(options));
    && Get(prepared, Selector(options)).None?
    && forall place: Place | place != [] && place[0] != Field(Selector(options)) ::
         && (At(Map(prepared), place).Some? <==> At(Map(s.fields), place).Some? && Stays(registry, others, place))
         && (At(Map(prepared), place).Some? ==>
               SameKind(At(Map(s.fields), place).value, At(Map(prepared), place).value))
  }

  /** What preparation makes of one state. */
  ghost predicate PreparedFrom(registry: SchemaRegistry, options: Options, s: State, prepared: State)
    requires ValidRegistry(registry)
  {
    if !Unmatched(registry, s) then prepared == s
    else
      && Selects(options, s, prepared.matchSpec)
      && KeepsTheRest(registry, options, s, prepared.fields)
      && prepared.deviceType == ""
      && prepared.source == s.source && prepared.priority == s.priority
  }

  lemma ResetMeans(registry: SchemaRegistry, s: State)
    ensures Reset(registry, s) == s.(matchSpec := MatchAtFirst(registry, s))
    ensures Reset(registry, s).matchSpec.IsEmpty() <==> Unmatched(registry, s)
  {
    hide LookupField;
    forall e | e in s.fields
      ensures ReadOnlyBaseField(registry, e.key) <==>
                && LookupField(registry, "base", e.key).Some?
                && !LookupField(registry, "base", e.key).value.writable
    {
    }
  }

  lemma RestIsKept(registry: SchemaRegistry, options: Options, s: State)
    requires ValidRegistry(registry) && WellFormedFields(s.fields)
    ensures KeepsTheRest(registry, options, s, StripTop(registry, Remove(s.fields, Selector(options))))
  {
    hide ValidRegistry, Stays, SameKind, WellFormed, StripTop;
    var field := Selector(options);
    var others := Remove(s.fields, field);
    RemoveKeepsWellFormed(s.fields, field);
    var prepared := StripTop(registry, others);
    GetTop(registry, others, field);
    GetRemoved(s.fields, field, field);
    forall place: Place | place != [] && place[0] != Field(field)
      ensures At(Map(prepared), place).Some? <==> At(Map(s.fields), place).Some? && Stays(registry, others, place)
      ensures At(Map(prepared), place).Some? ==>
                SameKind(At(Map(s.fields), place).value, At(Map(prepared), place).value)
    {
      RemainsExactly(registry, others, place);
      if place[0].Field? {
        GetRemoved(s.fields, field, place[0].key);
      }
      assert At(Map(others), place) == At(Map(s.fields), place);
    }
  }

  lemma OneIsPrepared(registry: SchemaRegistry, options: Options, s: State, index: nat)
    requires ValidRegistry(registry) && WellFormedFields(s.fields)
    ensures var one := PrepareOne(registry, options, Reset(registry, s), index);
            && (one.Failure? <==> Unmatched(registry, s) && !Has(s.fields, Selector(options)))
            && (one.Failure? ==> one.error == NoMatchField(Selector(options), index))
            && (one.Success? ==> PreparedFrom(registry, options, s, one.value.0))
            && (one.Success? ==> forall text :: text in one.value.1 <==>
                  && Unmatched(registry, s)
                  && exists place :: && TakenOut(registry, Remove(s.fields, Selector(options)), place)
                                     && Named("", place) == text)
  {
    hide ValidRegistry, StripTop, RemovedTop, KeepsTheRest, Get, Remove, WellFormedFields, TakenOut, Named, Unmatched,
      MatchAtFirst, LookupField;
    ResetMeans(registry, s);
    var field := Selector(options);
    assert MatchField(options.matchBy) == field;
    UnmatchedMeans(registry, s);
    if Unmatched(registry, s) && Has(s.fields, field) {
      RestIsKept(registry, options, s);
      RemovalKeepsForm(s.fields, field);
      forall text ensures text in RemovedTop(registry, Remove(s.fields, field))
                     <==> exists place :: && TakenOut(registry, Remove(s.fields, field), place)
                                          && Named("", place) == text {
        ReportIsExact(registry, Remove(s.fields, field), text);
      }
    }
  }

  lemma UnmatchedMeans(registry: SchemaRegistry, s: State)
    ensures Unmatched(registry, s) <==> MatchAtFirst(registry, s) == Match(None, None, None, None, None)
    ensures !Unmatched(registry, s) ==> s == s.(matchSpec := MatchAtFirst(registry, s))
  {
    hide LookupField;
  }

  lemma RemovalKeepsForm(fields: Fields, key: string)
    requires WellFormedFields(fields)
    ensures WellFormedFields(Remove(fields, key))
  {
    RemoveKeepsWellFormed(fields, key);
  }

  // ---------------------------------------------------------------- all states together

  /** A text that preparation reports for some state. */
  ghost predicate ReportedFor(registry: SchemaRegistry, options: Options, s: State, text: string)
    requires ValidRegistry(registry)
  {
    && Unmatched(registry, s)
    && exists place :: && TakenOut(registry, Remove(s.fields, Selector(options)), place)
                       && Named("", place) == text
  }

  lemma EachOneIs(registry: SchemaRegistry, options: Options, states: seq<State>)
    requires ValidRegistry(registry) && forall s | s in states :: WellFormedFields(s.fields)
    requires PrepareFirst(registry, options, ResetAll(registry, states), |states|).Success?
    ensures var done := PrepareFirst(registry, options, ResetAll(registry, states), |states|).value;
            forall i | 0 <= i < |states| :: PreparedFrom(registry, options, states[i], done.states[i])
  {
    hide ValidRegistry, WellFormedFields, PrepareOne, PreparedFrom, Reset, PrepareFirst, ReportedFor;
    var started := ResetAll(registry, states);
    EachIsPrepared(registry, options, started, |states|);
    forall i | 0 <= i < |states|
      ensures PreparedFrom(registry, options, states[i],
                           PrepareFirst(registry, options, started, |states|).value.states[i])
    {
      assert started[i] == Reset(registry, states[i]) && states[i] in states;
      OneIsReported(registry, options, states[i], i);
    }
  }

  lemma OneReports(registry: SchemaRegistry, options: Options, s: State, index: nat, text: string)
    requires ValidRegistry(registry) && WellFormedFields(s.fields)
    requires PrepareOne(registry, options, Reset(registry, s), index).Success?
    ensures text in PrepareOne(registry, options, Reset(registry, s), index).value.1
       <==> ReportedFor(registry, options, s, text)
  {
    hide ValidRegistry, WellFormedFields, PrepareOne, PreparedFrom, Reset, ReportedFor;
    OneIsReported(registry, options, s, index);
  }

  lemma RemovedAdds(registry: SchemaRegistry, options: Options, started: seq<State>, count: nat)
    requires ValidRegistry(registry) && 0 < count <= |started|
    requires PrepareFirst(registry, options, started, count).Success?
    ensures PrepareFirst(registry, options, started, count - 1).Success?
    ensures PrepareOne(registry, options, started[count - 1], count - 1).Success?
    ensures PrepareFirst(registry, options, started, count).value.removed
         == PrepareFirst(registry, options, started, count - 1).value.removed
          + PrepareOne(registry, options, started[count - 1], count - 1).value.1
  {
    hide ValidRegistry, PrepareOne;
  }

  lemma NobodyReports(registry: SchemaRegistry, options: Options, started: seq<State>)
    requires ValidRegistry(registry)
    ensures PrepareFirst(registry, options, started, 0) == Success(Outcome([], []))
  {
  }

  lemma {:induction false} FirstAreReported(registry: SchemaRegistry, options: Options, states: seq<State>, count: nat,
                                            text: string)
    requires ValidRegistry(registry) && count <= |states|
    requires forall s | s in states :: WellFormedFields(s.fields)
    requires PrepareFirst(registry, options, ResetAll(registry, states), count).Success?
    ensures text in PrepareFirst(registry, options, ResetAll(registry, states), count).value.removed
       <==> exists i | 0 <= i < count :: ReportedFor(registry, options, states[i], text)
  {
    hide *;
    if count == 0 {
      NobodyReports(registry, options, ResetAll(registry, states));
    } else {
      var started, last := ResetAll(registry, states), count - 1;
      RemovedAdds(registry, options, started, count);
      FirstAreReported(registry, options, states, last, text);
      assert started[last] == Reset(registry, states[last]);
      assert states[last] in states;
      OneReports(registry, options, states[last], last, text);
    }
  }

  lemma OneIsReported(registry: SchemaRegistry, options: Options, s: State, index: nat)
    requires ValidRegistry(registry) && WellFormedFields(s.fields)
    requires PrepareOne(registry, options, Reset(registry, s), index).Success?
    ensures var one := PrepareOne(registry, options, Reset(registry, s), index).value;
            && PreparedFrom(registry, options, s, one.0)
            && forall text :: text in one.1 <==> ReportedFor(registry, options, s, text)
  {
    hide ValidRegistry, WellFormedFields, PrepareOne, PreparedFrom, Reset, TakenOut, Named, Unmatched;
    OneIsPrepared(registry, options, s, index);
  }

  /**
   On success every state has the match its selector field says, keeps everything
   else that is not read-only, and the warnings name exactly what was removed;
   states that had a match are untouched.
   */
  lemma PreparedStatesAre(registry: SchemaRegistry, options: Options, states: seq<State>)
    requires ValidRegistry(registry) && forall s | s in states :: WellFormedFields(s.fields)
    requires Prepare(registry, options, states).Success?
    ensures var outcome := Prepare(registry, options, states).value;
            && |outcome.states| == |states|
            && (forall i | 0 <= i < |states| :: PreparedFrom(registry, options, states[i], outcome.states[i]))
            && forall text :: text in outcome.removed <==>
                 exists i | 0 <= i < |states| :: ReportedFor(registry, options, states[i], text)
  {
    hide ValidRegistry, WellFormedFields, PrepareFirst, PreparedFrom, ReportedFor, CollectErrors;
    EachOneIs(registry, options, states);
    forall text ensures text in Prepare(registry, options, states).value.removed
                   <==> exists i | 0 <= i < |states| :: ReportedFor(registry, options, states[i], text) {
      FirstAreReported(registry, options, states, |states|, text);
    }
  }

  // ---------------------------------------------------------------- errors

  lemma {:induction false} IndexedErrorsAre(errors: seq<ValidationError>, index: nat, e: IndexedError)
    ensures e in Indexed(errors, index) <==> e.stateIndex == index && e.error in errors
  {
    if errors != [] {
      IndexedErrorsAre(errors[1..], index, e);
      assert errors == [errors[0]] + errors[1..];
    }
  }

  lemma {:induction false} CollectedErrorsAre(registry: SchemaRegistry, states: seq<State>, final: bool, index: nat,
                                              e: IndexedError)
    requires ValidRegistry(registry)
    ensures e in CollectErrors(registry, states, final, index)
       <==> index <= e.stateIndex < |states| && e.error in StateErrors(registry, states[e.stateIndex], final)
    decreases |states| - index
  {
    hide StateErrors, ValidRegistry;
    if index < |states| {
      IndexedErrorsAre(StateErrors(registry, states[index], final), index, e);
      CollectedErrorsAre(registry, states, final, index + 1, e);
    }
  }

  /** What the first validation finds in a state: a policy is held to the writable schema. */
  ghost function FirstErrors(registry: SchemaRegistry, s: State): seq<ValidationError>
    requires ValidRegistry(registry)
  {
    var matched := s.(matchSpec := MatchAtFirst(registry, s));
    if Unmatched(registry, s) then Validate(registry, matched) else ValidateWritable(registry, matched)
  }

  /** The state has a match, or a field to take it from. */
  ghost predicate Matchable(registry: SchemaRegistry, options: Options, s: State) {
    Unmatched(registry, s) ==> Has(s.fields, Selector(options))
  }

  /** The state cannot be matched, and every one before it can. */
  ghost predicate FirstWithoutSelector(registry: SchemaRegistry, options: Options, states: seq<State>, i: nat) {
    && i < |states|
    && !Matchable(registry, options, states[i])
    && forall j | 0 <= j < i :: Matchable(registry, options, states[j])
  }

  lemma PrepareStep(registry: SchemaRegistry, options: Options, started: seq<State>, count: nat)
    requires ValidRegistry(registry) && 0 < count <= |started|
    ensures var before, one := PrepareFirst(registry, options, started, count - 1),
                               PrepareOne(registry, options, started[count - 1], count - 1);
            && (before.Failure? ==> PrepareFirst(registry, options, started, count) == before)
            && (before.Success? && one.Failure? ==>
                  PrepareFirst(registry, options, started, count) == Failure(one.error))
            && (before.Success? && one.Success? ==> PrepareFirst(registry, options, started, count).Success?)
  {
    hide ValidRegistry, PrepareOne;
  }

  lemma {:induction false} FirstFailureIs(registry: SchemaRegistry, options: Options, states: seq<State>, count: nat)
    returns (first: nat)
    requires ValidRegistry(registry) && count <= |states|
    requires forall s | s in states :: WellFormedFields(s.fields)
    ensures var done := PrepareFirst(registry, options, ResetAll(registry, states), count);
            && (done.Success? ==> forall j | 0 <= j < count :: Matchable(registry, options, states[j]))
            && (done.Failure? ==> first < count && done.error == NoMatchField(Selector(options), first)
                                  && FirstWithoutSelector(registry, options, states, first))
  {
    hide *;
    first := 0;
    if count == 0 {
      NobodyReports(registry, options, ResetAll(registry, states));
    } else {
      var started, last := ResetAll(registry, states), count - 1;
      PrepareStep(registry, options, started, count);
      first := FirstFailureIs(registry, options, states, last);
      assert started[last] == Reset(registry, states[last]);
      assert states[last] in states;
      OneFails(registry, options, states[last], last);
      if PrepareFirst(registry, options, started, last).Success?
         && PrepareOne(registry, options, started[last], last).Failure?
      {
        first := last;
        IsFirst(registry, options, states, last);
      }
    }
  }

  lemma IsFirst(registry: SchemaRegistry, options: Options, states: seq<State>, i: nat)
    requires i < |states| && !Matchable(registry, options, states[i])
    requires forall j | 0 <= j < i :: Matchable(registry, options, states[j])
    ensures FirstWithoutSelector(registry, options, states, i)
  {
    hide Matchable;
  }

  lemma OnlyOneIsFirst(registry: SchemaRegistry, options: Options, states: seq<State>, i: nat)
    requires FirstWithoutSelector(registry, options, states, i)
    ensures !(forall j | 0 <= j < |states| :: Matchable(registry, options, states[j]))
  {
    hide Matchable;
  }

  lemma OneFails(registry: SchemaRegistry, options: Options, s: State, index: nat)
    requires ValidRegistry(registry) && WellFormedFields(s.fields)
    ensures var one := PrepareOne(registry, options, Reset(registry, s), index);
            && (one.Failure? <==> !Matchable(registry, options, s))
            && (one.Failure? ==> one.error == NoMatchField(Selector(options), index))
  {
    hide ValidRegistry, WellFormedFields, PrepareOne, Reset, Unmatched, Has, PreparedFrom, TakenOut, Named;
    OneIsPrepared(registry, options, s, index);
  }

  /**
   Preparation reports every error of the first validation with the number of its state,
   or else the first state without its selector, or else what the final validation finds.
   */
  lemma PreparationErrorsAre(registry: SchemaRegistry, options: Options, states: seq<State>)
    requires ValidRegistry(registry) && forall s | s in states :: WellFormedFields(s.fields)
    ensures var result := Prepare(registry, options, states);
            if exists i | 0 <= i < |states| :: FirstErrors(registry, states[i]) != [] then
              && result.Failure? && result.error.Invalid?
              && forall e :: e in result.error.errors
                   <==> e.stateIndex < |states| && e.error in FirstErrors(registry, states[e.stateIndex])
            else if exists i :: FirstWithoutSelector(registry, options, states, i) then
              exists i :: && FirstWithoutSelector(registry, options, states, i)
                          && result == Failure(NoMatchField(Selector(options), i))
            else
              var prepared := PrepareFirst(registry, options, ResetAll(registry, states), |states|);
              && prepared.Success?
              && (result.Success? ==> result == prepared)
              && (result.Failure? ==> result.error.Invalid? && result.error.errors != [])
              && forall e :: (result.Failure? && e in result.error.errors)
                   <==> && e.stateIndex < |states|
                        && e.error in ValidateWritable(registry, prepared.value.states[e.stateIndex])
  {
    hide ValidRegistry, WellFormedFields, PrepareFirst, CollectErrors, FirstErrors, Matchable, Reset, Validate,
      ValidateWritable;
    var started := ResetAll(registry, states);
    forall e ensures e in CollectErrors(registry, started, false, 0)
                <==> e.stateIndex < |states| && e.error in FirstErrors(registry, states[e.stateIndex])
    {
      CollectedErrorsAre(registry, started, false, 0, e);
      if e.stateIndex < |states| {
        FirstErrorsAre(registry, states[e.stateIndex]);
      }
    }
    var first := CollectErrors(registry, started, false, 0);
    forall i | 0 <= i < |states| && FirstErrors(registry, states[i]) != []
      ensures IndexedError(i, FirstErrors(registry, states[i])[0]) in first
    {
    }
    if first != [] {
      var e := first[0];
      assert e in first;
      assert FirstErrors(registry, states[e.stateIndex]) != [];
    } else {
      var unmatched := FirstFailureIs(registry, options, states, |states|);
      var prepared := PrepareFirst(registry, options, started, |states|);
      if prepared.Success? {
        var last := CollectErrors(registry, prepared.value.states, true, 0);
        forall e ensures e in last
                    <==> && e.stateIndex < |states|
                         && e.error in ValidateWritable(registry, prepared.value.states[e.stateIndex]) {
          CollectedErrorsAre(registry, prepared.value.states, true, 0, e);
        }
      }
    }
  }

  lemma FirstErrorsAre(registry: SchemaRegistry, s: State)
    requires ValidRegistry(registry)
    ensures StateErrors(registry, Reset(registry, s), false) == FirstErrors(registry, s)
  {
    hide ValidRegistry, Validate, ValidateWritable, Unmatched, MatchAtFirst;
    ResetMeans(registry, s);
  }
}
