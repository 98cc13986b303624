/** Removal keeps the order of what stays, and reports in the order it meets what goes (schema.rs, apply.rs). */
module RemovalOrder {
  import opened Wrappers
  import opened OrderedMaps
  import opened Subsequences
  import opened Listings
  import opened Values
  import opened Schemas
  import opened Stripper
  import opened Preparation

  // ---------------------------------------------------------------- what stays

  /** A key stays unless the schema calls it read-only. */
  predicate Staying(node: SchemaNode, e: Entry<Value>) {
    match Property(node, e.key)
    case None => true
    case Some(property) => property.writable
  }

  function StayingOnes(node: SchemaNode, fields: Fields): (r: seq<bool>)
    ensures |r| == |fields|
    ensures forall i | 0 <= i < |r| :: r[i] <==> Staying(node, fields[i])
  {
    seq(|fields|, i requires 0 <= i < |fields| => Staying(node, fields[i]))
  }

  /**
   What removal leaves of a value: the settable and unknown entries of a map in
   order, every item of a list that is a map cut likewise, and all else as it was.
   */
  ghost predicate IsCut(node: SchemaNode, value: Value, left: Value)
    decreases value, 1
  {
    match value
    case Map(entries) => left.Map? && IsCutMap(node, entries, left.entries)
    case List(items) =>
      if node.items.None? then left == value
      else
        && left.List? && |left.items| == |items|
        && forall i | 0 <= i < |items| ::
             if items[i].Map?
             then left.items[i].Map? && IsCutMap(node.items.value, items[i].entries, left.items[i].entries)
             else left.items[i] == items[i]
    case _ => left == value
  }

  ghost predicate IsCutMap(node: SchemaNode, fields: Fields, left: Fields)
    decreases fields, 1
  {
    exists at | Selects(StayingOnes(node, fields), at) && |at| == |left| ::
      forall k | 0 <= k < |at| && at[k] < |fields| :: IsCutEntry(node, fields[at[k]], left[k])
  }

  ghost predicate IsCutEntry(node: SchemaNode, e: Entry<Value>, left: Entry<Value>)
    decreases e, 0
  {
    && left.key == e.key
    && match Property(node, e.key)
       case None => left.value == e.value
       case Some(property) => IsCut(property, e.value, left.value)
  }

  ghost predicate AreCut(node: SchemaNode, fields: Fields, left: Fields) {
    |fields| == |left| && forall k | 0 <= k < |left| :: IsCutEntry(node, fields[k], left[k])
  }

  lemma CutNext(node: SchemaNode, e: Entry<Value>, own: Fields, fields: Fields, left: Fields)
    requires AreCut(node, fields, left)
    requires if Staying(node, e) then |own| == 1 && IsCutEntry(node, e, own[0]) else own == []
    ensures AreCut(node, (if Staying(node, e) then [e] else []) + fields, own + left)
  {
    hide IsCutEntry, Staying;
  }

  lemma {:induction false} CutEntry(node: SchemaNode, e: Entry<Value>)
    ensures var own := StripEntry(node, e);
            if Staying(node, e) then |own| == 1 && IsCutEntry(node, e, own[0]) else own == []
    decreases e, 0
  {
    hide IsCut, StripValue;
    var property := Property(node, e.key);
    if property.Some? && property.value.writable {
      CutValue(property.value, e.value);
    }
  }

  lemma {:induction false} CutFields(node: SchemaNode, fields: Fields)
    ensures AreCut(node, Picked(fields, StayingOnes(node, fields)), StripFields(node, fields))
    decreases fields, 0
  {
    hide StripEntry, Staying, AreCut, Picked;
    if fields == [] {
      NothingCut(node);
    } else {
      var tail := fields[1..];
      CutEntry(node, fields[0]);
      CutFields(node, tail);
      PickedHead(fields, StayingOnes(node, fields));
      assert StayingOnes(node, fields)[1..] == StayingOnes(node, tail);
      CutNext(node, fields[0], StripEntry(node, fields[0]), Picked(tail, StayingOnes(node, tail)),
              StripFields(node, tail));
    }
  }

  lemma NothingCut(node: SchemaNode)
    ensures AreCut(node, Picked([], StayingOnes(node, [])), StripFields(node, []))
  {
  }

  lemma {:induction false} CutMap(node: SchemaNode, fields: Fields)
    ensures IsCutMap(node, fields, StripFields(node, fields))
    decreases fields, 1
  {
    hide StripFields, IsCutEntry;
    CutFields(node, fields);
    var at := PickedAt(fields, StayingOnes(node, fields));
  }

  lemma {:induction false} CutItems(node: SchemaNode, items: seq<Value>)
    ensures var left := StripItems(node, items);
            && |left| == |items|
            && forall i | 0 <= i < |items| ::
                 if items[i].Map?
                 then left[i].Map? && IsCutMap(node, items[i].entries, left[i].entries)
                 else left[i] == items[i]
    decreases items, 0
  {
    hide IsCutMap, StripFields;
    if items != [] {
      if items[0].Map? {
        CutMap(node, items[0].entries);
      }
      CutItems(node, items[1..]);
    }
  }

  /** Removal leaves exactly this of a value. */
  lemma {:induction false} CutValue(node: SchemaNode, value: Value)
    ensures IsCut(node, value, StripValue(node, value))
    decreases value, 1
  {
    hide IsCutMap, StripFields, StripItems;
    match value {
      case Map(entries) => CutMap(node, entries);
      case List(items) =>
        if node.items.Some? {
          CutItems(node.items.value, items);
        }
      case _ =>
    }
  }

  // ---------------------------------------------------------------- what goes

  type Paths = Teller<string>

  /** A read-only entry, by its path, or what goes from inside a settable one. */
  ghost predicate Goes(node: SchemaNode, value: Value, path: string, at: Spot, text: string)
    decreases value, 1
  {
    match value
    case Map(entries) => GoesFromMap(node, entries, path, at, text)
    case List(items) =>
      && node.items.Some? && at != [] && at[0] < |items| && items[at[0]].Map?
      && GoesFromMap(node.items.value, items[at[0]].entries, path + "[" + Decimal(at[0]) + "]", at[1..], text)
    case _ => false
  }

  ghost predicate GoesFromMap(node: SchemaNode, fields: Fields, prefix: string, at: Spot, text: string)
    decreases fields, 1
  {
    at != [] && at[0] < |fields| && GoesFromEntry(node, fields[at[0]], prefix, at[1..], text)
  }

  ghost predicate GoesFromEntry(node: SchemaNode, e: Entry<Value>, prefix: string, at: Spot, text: string)
    decreases e, 0
  {
    var path := (if prefix == "" then "" else prefix + ".") + e.key;
    match Property(node, e.key)
    case None => false
    case Some(property) =>
      if property.writable then Goes(property, e.value, path, at, text) else at == [] && text == path
  }

  function Nobody(): Paths {
    (at: Spot, text: string) => false
  }

  ghost function FromValue(node: SchemaNode, value: Value, path: string): Paths {
    (at: Spot, text: string) => Goes(node, value, path, at, text)
  }

  ghost function FromMap(node: SchemaNode, fields: Fields, prefix: string): Paths {
    (at: Spot, text: string) => GoesFromMap(node, fields, prefix, at, text)
  }

  ghost function FromEntry(node: SchemaNode, e: Entry<Value>, prefix: string): Paths {
    (at: Spot, text: string) => GoesFromEntry(node, e, prefix, at, text)
  }

  ghost function FromEntryAt(node: SchemaNode, fields: Fields, prefix: string, i: nat): Paths {
    if i < |fields| then FromEntry(node, fields[i], prefix) else Nobody()
  }

  ghost function FromEntries(node: SchemaNode, fields: Fields, prefix: string): nat -> Paths {
    (i: nat) => FromEntryAt(node, fields, prefix, i)
  }

  ghost function FromItemAt(node: SchemaNode, items: seq<Value>, path: string, i: nat): Paths {
    if i < |items| && items[i].Map? then FromMap(node, items[i].entries, path + "[" + Decimal(i) + "]") else Nobody()
  }

  ghost function FromItems(node: SchemaNode, items: seq<Value>, path: string): nat -> Paths {
    (i: nat) => FromItemAt(node, items, path, i)
  }

  lemma {:induction false} EntryGoes(node: SchemaNode, e: Entry<Value>, prefix: string) returns (at: seq<Spot>)
    ensures Lists(FromEntry(node, e, prefix), RemovedEntry(node, e, prefix), at)
    decreases e, 0
  {
    hide Lists, Goes, RemovedFromValue;
    var path := JoinPath(prefix, e.key);
    assert path == (if prefix == "" then "" else prefix + ".") + e.key;
    var property := Property(node, e.key);
    if property.Some? && property.value.writable {
      at := ValueGoes(property.value, e.value, path);
      Retold(FromValue(property.value, e.value, path), FromEntry(node, e, prefix), RemovedEntry(node, e, prefix), at);
    } else {
      Single(FromEntry(node, e, prefix), RemovedEntry(node, e, prefix));
      at := if RemovedEntry(node, e, prefix) == [] then [] else [[]];
    }
  }

  lemma {:induction false} MapGoes(node: SchemaNode, fields: Fields, prefix: string) returns (at: seq<Spot>)
    ensures Lists(FromMap(node, fields, prefix), RemovedFields(node, fields, prefix), at)
    decreases fields, 1
  {
    hide Lists, Parts, RemovedEntry, GoesFromEntry;
    var parts := FromEntries(node, fields, prefix);
    var found: seq<string> := [];
    at := [];
    NoParts(parts);
    for n := 0 to |fields|
      invariant Lists(Parts(parts, n), found, at)
      invariant RemovedFields(node, fields, prefix) == found + RemovedFields(node, fields[n..], prefix)
    {
      var within := EntryGoes(node, fields[n], prefix);
      var more := RemovedEntry(node, fields[n], prefix);
      OneMorePart(parts, n, found, at, more, within);
      assert fields[n..][0] == fields[n] && fields[n..][1..] == fields[n + 1..];
      found, at := found + more, at + Inside(n, within);
    }
    assert fields[|fields|..] == [] && found + [] == found;
    Retold(Parts(parts, |fields|), FromMap(node, fields, prefix), found, at);
  }

  lemma {:induction false} ItemsGo(node: SchemaNode, items: seq<Value>, path: string) returns (at: seq<Spot>)
    ensures Lists(Parts(FromItems(node, items, path), |items|), RemovedFromItems(node, items, path, 0), at)
    decreases items, 0
  {
    hide Lists, Parts, RemovedFields, GoesFromMap;
    var parts := FromItems(node, items, path);
    var found: seq<string> := [];
    at := [];
    NoParts(parts);
    for n := 0 to |items|
      invariant Lists(Parts(parts, n), found, at)
      invariant RemovedFromItems(node, items, path, 0) == found + RemovedFromItems(node, items[n..], path, n)
    {
      var more := RemovedFromItem(node, items[n], ItemPath(path, n));
      var within: seq<Spot> := [];
      if items[n].Map? {
        within := MapGoes(node, items[n].entries, path + "[" + Decimal(n) + "]");
      } else {
        Single(Nobody(), []);
      }
      OneMorePart(parts, n, found, at, more, within);
      assert items[n..][0] == items[n] && items[n..][1..] == items[n + 1..];
      found, at := found + more, at + Inside(n, within);
    }
    assert items[|items|..] == [] && found + [] == found;
  }

  /** The report about a value: one path for everything that goes, in order. */
  lemma {:induction false} ValueGoes(node: SchemaNode, value: Value, path: string) returns (at: seq<Spot>)
    ensures Lists(FromValue(node, value, path), RemovedFromValue(node, value, path), at)
    decreases value, 1
  {
    hide Lists, Parts, RemovedFields, RemovedFromItems, GoesFromMap;
    match value {
      case Map(entries) =>
        at := MapGoes(node, entries, path);
        Retold(FromMap(node, entries, path), FromValue(node, value, path), RemovedFields(node, entries, path), at);
      case List(items) =>
        if node.items.Some? {
          at := ItemsGo(node.items.value, items, path);
          Retold(Parts(FromItems(node.items.value, items, path), |items|), FromValue(node, value, path),
                 RemovedFromItems(node.items.value, items, path, 0), at);
        } else {
          Single(FromValue(node, value, path), []);
          at := [];
        }
      case _ =>
        Single(FromValue(node, value, path), []);
        at := [];
    }
  }

  // ---------------------------------------------------------------- states

  /** A fragment's map is cut by its own schema and dropped when nothing is left; the base decides about all else. */
  ghost predicate IsCutTop(registry: SchemaRegistry, e: Entry<Value>, left: Fields)
    requires ValidRegistry(registry)
  {
    match FindTrigger(registry.fragments, Some(e.key))
    case None =>
      if Staying(BaseRoot(registry), e) then |left| == 1 && IsCutEntry(BaseRoot(registry), e, left[0]) else left == []
    case Some(f) =>
      if !e.value.Map? then left == [e]
      else if forall k | k in e.value.entries :: !Staying(f.root, k) then left == []
      else |left| == 1 && left[0].key == e.key && IsCut(f.root, e.value, left[0].value)
  }

  lemma TopIsCut(registry: SchemaRegistry, e: Entry<Value>)
    requires ValidRegistry(registry)
    ensures IsCutTop(registry, e, StripTopEntry(registry, e))
  {
    hide ValidRegistry, IsCutEntry, StripEntry, StripFields, IsCutMap, FindTrigger, Staying;
    CutEntry(BaseRoot(registry), e);
    var f := FindTrigger(registry.fragments, Some(e.key));
    if f.Some? && e.value.Map? {
      CutMap(f.value.root, e.value.entries);
      LeftEmpty(f.value.root, e.value.entries);
    }
  }

  lemma LeftEmpty(node: SchemaNode, fields: Fields)
    ensures StripFields(node, fields) == [] <==> forall e | e in fields :: !Staying(node, e)
  {
    hide StripFields, IsCutEntry, Staying;
    CutFields(node, fields);
    var at := PickedAt(fields, StayingOnes(node, fields));
    SomethingKept(StayingOnes(node, fields), at);
    if at == [] {
      NoneKept(StayingOnes(node, fields), at);
    }
    forall e | e in fields ensures exists i :: 0 <= i < |fields| && fields[i] == e {
    }
  }

  /** The parts that the entries of a state leave, one after the other. */
  ghost predicate AreCutTops(registry: SchemaRegistry, fields: Fields, left: Fields, parts: seq<Fields>)
    requires ValidRegistry(registry)
  {
    && |parts| == |fields| && left == Flat(parts)
    && forall i | 0 <= i < |fields| :: IsCutTop(registry, fields[i], parts[i])
  }

  function Flat(parts: seq<Fields>): Fields {
    if parts == [] then [] else parts[0] + Flat(parts[1..])
  }

  /** A state keeps the order of its fields. */
  lemma {:induction false} TopsAreCut(registry: SchemaRegistry, fields: Fields) returns (parts: seq<Fields>)
    requires ValidRegistry(registry)
    ensures AreCutTops(registry, fields, StripTop(registry, fields), parts)
  {
    hide ValidRegistry, IsCutTop, StripTopEntry;
    if fields == [] {
      return [];
    }
    TopIsCut(registry, fields[0]);
    var rest := TopsAreCut(registry, fields[1..]);
    parts := [StripTopEntry(registry, fields[0])] + rest;
    assert parts[1..] == rest;
  }

  ghost predicate GoesFromTop(registry: SchemaRegistry, e: Entry<Value>, at: Spot, text: string)
    requires ValidRegistry(registry)
  {
    match FindTrigger(registry.fragments, Some(e.key))
    case Some(f) => e.value.Map? && GoesFromMap(f.root, e.value.entries, e.key, at, text)
    case None => GoesFromEntry(BaseRoot(registry), e, "", at, text)
  }

  /** What goes from one of several states: those that have a match already are left alone. */
  ghost predicate GoesFromState(registry: SchemaRegistry, options: Options, s: State, at: Spot, text: string)
    requires ValidRegistry(registry)
  {
    var others := Remove(s.fields, match options.matchBy case ByName => "name" case ByMac => "mac");
    s.matchSpec == EMPTY_MATCH && at != [] && at[0] < |others|
      && GoesFromTop(registry, others[at[0]], at[1..], text)
  }

  ghost function FromTop(registry: SchemaRegistry, e: Entry<Value>): Paths
    requires ValidRegistry(registry)
  {
    (at: Spot, text: string) => GoesFromTop(registry, e, at, text)
  }

  ghost function FromTopAt(registry: SchemaRegistry, fields: Fields, i: nat): Paths
    requires ValidRegistry(registry)
  {
    if i < |fields| then FromTop(registry, fields[i]) else Nobody()
  }

  ghost function FromTops(registry: SchemaRegistry, fields: Fields): nat -> Paths
    requires ValidRegistry(registry)
  {
    (i: nat) => FromTopAt(registry, fields, i)
  }

  lemma TopGoes(registry: SchemaRegistry, e: Entry<Value>) returns (at: seq<Spot>)
    requires ValidRegistry(registry)
    ensures Lists(FromTop(registry, e), RemovedTopEntry(registry, e), at)
  {
    hide ValidRegistry, Lists, RemovedFields, RemovedEntry, GoesFromMap, GoesFromEntry, FindTrigger;
    match FindTrigger(registry.fragments, Some(e.key)) {
      case Some(f) =>
        if e.value.Map? {
          at := MapGoes(f.root, e.value.entries, e.key);
          Retold(FromMap(f.root, e.value.entries, e.key), FromTop(registry, e), RemovedTopEntry(registry, e), at);
        } else {
          Single(FromTop(registry, e), []);
          at := [];
        }
      case None =>
        at := EntryGoes(BaseRoot(registry), e, "");
        Retold(FromEntry(BaseRoot(registry), e, ""), FromTop(registry, e), RemovedTopEntry(registry, e), at);
    }
  }

  lemma TopsGo(registry: SchemaRegistry, fields: Fields) returns (at: seq<Spot>)
    requires ValidRegistry(registry)
    ensures Lists(Parts(FromTops(registry, fields), |fields|), RemovedTop(registry, fields), at)
  {
    hide ValidRegistry, Lists, Parts, RemovedTopEntry, GoesFromTop;
    var parts := FromTops(registry, fields);
    var found: seq<string> := [];
    at := [];
    NoParts(parts);
    for n := 0 to |fields|
      invariant Lists(Parts(parts, n), found, at)
      invariant RemovedTop(registry, fields) == found + RemovedTop(registry, fields[n..])
    {
      var within := TopGoes(registry, fields[n]);
      var more := RemovedTopEntry(registry, fields[n]);
      OneMorePart(parts, n, found, at, more, within);
      assert fields[n..][0] == fields[n] && fields[n..][1..] == fields[n + 1..];
      found, at := found + more, at + Inside(n, within);
    }
    assert fields[|fields|..] == [] && found + [] == found;
  }

  ghost function FromState(registry: SchemaRegistry, options: Options, s: State): Paths
    requires ValidRegistry(registry)
  {
    (at: Spot, text: string) => GoesFromState(registry, options, s, at, text)
  }

  ghost function FromStateAt(registry: SchemaRegistry, options: Options, states: seq<State>, i: nat): Paths
    requires ValidRegistry(registry)
  {
    if i < |states| then FromState(registry, options, states[i]) else Nobody()
  }

  ghost function FromStates(registry: SchemaRegistry, options: Options, states: seq<State>): nat -> Paths
    requires ValidRegistry(registry)
  {
    (i: nat) => FromStateAt(registry, options, states, i)
  }

  lemma StateGoes(registry: SchemaRegistry, options: Options, s: State, index: nat) returns (at: seq<Spot>)
    requires ValidRegistry(registry) && PrepareOne(registry, options, s, index).Success?
    ensures Lists(FromState(registry, options, s), PrepareOne(registry, options, s, index).value.1, at)
  {
    hide ValidRegistry, Lists, Parts, GoesFromTop, RemovedTop;
    if s.matchSpec.IsEmpty() {
      var others := Remove(s.fields, MatchField(options.matchBy));
      at := TopsGo(registry, others);
      PartsAreTops(registry, others);
      Retold(Parts(FromTops(registry, others), |others|), FromState(registry, options, s),
             RemovedTop(registry, others), at);
    } else {
      Single(FromState(registry, options, s), []);
      at := [];
    }
  }

  lemma PartsAreTops(registry: SchemaRegistry, fields: Fields)
    requires ValidRegistry(registry)
    ensures forall at, text ::
              Parts(FromTops(registry, fields), |fields|)(at, text) <==>
              at != [] && at[0] < |fields| && GoesFromTop(registry, fields[at[0]], at[1..], text)
  {
    hide ValidRegistry, GoesFromTop;
  }

  /** The warnings of a preparation: state by state and field by field, everything that goes, once, by its path. */
  lemma {:induction false} WarningsAreListed(registry: SchemaRegistry, options: Options, states: seq<State>, count: nat)
    returns (at: seq<Spot>)
    requires ValidRegistry(registry) && count <= |states|
    requires PrepareFirst(registry, options, states, count).Success?
    ensures Lists(Parts(FromStates(registry, options, states), count),
                  PrepareFirst(registry, options, states, count).value.removed, at)
  {
    hide ValidRegistry, Lists, Parts, PrepareOne, GoesFromState;
    if count == 0 {
      NoParts(FromStates(registry, options, states));
      return [];
    }
    var before := WarningsAreListed(registry, options, states, count - 1);
    var within := StateGoes(registry, options, states[count - 1], count - 1);
    OneMorePart(FromStates(registry, options, states), count - 1,
                PrepareFirst(registry, options, states, count - 1).value.removed, before,
                PrepareOne(registry, options, states[count - 1], count - 1).value.1, within);
    at := before + Inside(count - 1, within);
  }

  /** What a successful preparation warns of, the match of query results being forgotten first. */
  lemma PreparationWarns(registry: SchemaRegistry, options: Options, states: seq<State>) returns (at: seq<Spot>)
    requires ValidRegistry(registry) && Prepare(registry, options, states).Success?
    ensures Lists(Parts(FromStates(registry, options, ResetAll(registry, states)), |states|),
                  Prepare(registry, options, states).value.removed, at)
  {
    hide ValidRegistry, Lists, Parts, PrepareFirst, CollectErrors, Reset;
    at := WarningsAreListed(registry, options, ResetAll(registry, states), |states|);
  }

  // ---------------------------------------------------------------- errors

  type Indices = Teller<IndexedError>

  /** The errors of one state, numbered with it. */
  function OfState(errors: seq<ValidationError>, index: nat): Indices {
    (at: Spot, e: IndexedError) =>
      at != [] && at[1..] == [] && at[0] < |errors| && e == IndexedError(index, errors[at[0]])
  }

  function OfStateAt(registry: SchemaRegistry, states: seq<State>, final: bool, i: nat): Indices
    requires ValidRegistry(registry)
  {
    OfState(if i < |states| then StateErrors(registry, states[i], final) else [], i)
  }

  function OfStates(registry: SchemaRegistry, states: seq<State>, final: bool): nat -> Indices
    requires ValidRegistry(registry)
  {
    (i: nat) => OfStateAt(registry, states, final, i)
  }

  lemma {:induction false} IndexedAt(errors: seq<ValidationError>, index: nat)
    ensures forall k | 0 <= k < |errors| :: Indexed(errors, index)[k] == IndexedError(index, errors[k])
  {
    if errors != [] {
      IndexedAt(errors[1..], index);
    }
  }

  lemma IndexedLists(errors: seq<ValidationError>, index: nat) returns (at: seq<Spot>)
    ensures Lists(OfState(errors, index), Indexed(errors, index), at)
  {
    hide Indexed;
    IndexedAt(errors, index);
    at := seq(|errors|, k requires 0 <= k < |errors| => [k]);
    forall spot, e | OfState(errors, index)(spot, e) ensures IsFound(spot, e, at, Indexed(errors, index)) {
      assert at[spot[0]] == [spot[0]] == spot;
    }
  }

  /** The errors of a list of states: state by state, each list as it is reported for the state. */
  lemma {:induction false} ErrorsAreListed(registry: SchemaRegistry, states: seq<State>, final: bool)
    returns (at: seq<Spot>)
    requires ValidRegistry(registry)
    ensures Lists(Parts(OfStates(registry, states, final), |states|), CollectErrors(registry, states, final, 0), at)
  {
    hide ValidRegistry, Lists, Parts, StateErrors, Indexed, OfState;
    var parts := OfStates(registry, states, final);
    var found: seq<IndexedError> := [];
    at := [];
    NoParts(parts);
    for n := 0 to |states|
      invariant Lists(Parts(parts, n), found, at)
      invariant CollectErrors(registry, states, final, 0) == found + CollectErrors(registry, states, final, n)
    {
      var more := Indexed(StateErrors(registry, states[n], final), n);
      var within := IndexedLists(StateErrors(registry, states[n], final), n);
      OneMorePart(parts, n, found, at, more, within);
      found, at := found + more, at + Inside(n, within);
    }
    assert found + [] == found;
  }
}
