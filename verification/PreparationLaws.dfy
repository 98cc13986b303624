/** Preparation passes its second validation exactly for clean states, and is final (apply.rs). */
module PreparationLaws {
  import opened Wrappers
  import opened OrderedMaps
  import opened Values
  import opened Schemas
  import opened Conformance
  import opened Stripper
  import opened Preparation

  // ---------------------------------------------------------------- clean states

  ghost predicate CleanTopEntry(registry: SchemaRegistry, entry: Entry<Value>)
    requires ValidRegistry(registry)
  {
    match FindTrigger(registry.fragments, Some(entry.key))
    case Some(f) =>
      entry.value.Map? ==> OnlyReadOnly(f.root, entry.value.entries) || CleanFields(f.root, entry.value.entries)
    case None => CleanEntry(BaseRoot(registry), entry)
  }

  /** A fragment whose every entry is read-only disappears as a whole. */
  ghost predicate OnlyReadOnly(node: SchemaNode, fields: Fields) {
    forall e | e in fields :: Property(node, e.key).Some? && !Property(node, e.key).value.writable
  }

  /**
   What a caller can check beforehand: the base schema does not require the
   match field, and every other field is clean.
   */
  ghost predicate CleanState(registry: SchemaRegistry, s: State, field: string)
    requires ValidRegistry(registry)
  {
    && (field in BaseRoot(registry).required ==> field in TriggerKeys(registry.fragments))
    && forall e | e in s.fields && e.key != field :: CleanTopEntry(registry, e)
  }

  lemma {:induction false} EmptiedIsOnlyReadOnly(node: SchemaNode, fields: Fields)
    ensures StripFields(node, fields) == [] <==> OnlyReadOnly(node, fields)
  {
    if fields != [] {
      EmptiedIsOnlyReadOnly(node, fields[1..]);
      assert fields == [fields[0]] + fields[1..];
    }
  }

  // ---------------------------------------------------------------- looking up what remains

  lemma {:induction false} GetTop(registry: SchemaRegistry, fields: Fields, key: string)
    requires ValidRegistry(registry) && WellFormedFields(fields)
    ensures Get(StripTop(registry, fields), key) ==
      match Get(fields, key)
      case None => None
      case Some(value) =>
        var left := StripTopEntry(registry, Entry(key, value));
        if left == [] then None else Some(left[0].value)
  {
    hide StripTopEntry, ValidRegistry, WellFormed;
    if fields != [] {
      UniqueTail(fields);
      GetTop(registry, fields[1..], key);
      var head, tail := StripTopEntry(registry, fields[0]), StripTop(registry, fields[1..]);
      TopAtMostOne(registry, fields[0]);
      if head == [] {
        assert head + tail == tail;
      } else {
        assert head[0] in head;
        assert (head + tail)[1..] == tail;
      }
      assert Entry(fields[0].key, fields[0].value) == fields[0];
    }
  }

  /** Every remaining base entry conforms exactly when the removed-from entries are clean within. */
  lemma {:induction false} BaseEntriesExact(registry: SchemaRegistry, w: Walk, fields: Fields)
    requires ValidRegistry(registry) && w.writableOnly
    requires forall e | e in fields :: ConformsEntry(Reading(w), BaseRoot(registry), e, TriggerKeys(registry.fragments))
    ensures (forall e | e in StripTop(registry, fields) ::
               ConformsEntry(w, BaseRoot(registry), e, TriggerKeys(registry.fragments)))
       <==> forall e | e in fields && e.key !in TriggerKeys(registry.fragments) :: CleanWithin(BaseRoot(registry), e)
  {
    hide StripTopEntry, ValidRegistry, ConformsEntry, CleanWithin;
    if fields != [] {
      BaseEntryExact(registry, w, fields[0]);
      BaseEntriesExact(registry, w, fields[1..]);
      assert fields == [fields[0]] + fields[1..];
    }
  }

  lemma BaseEntryExact(registry: SchemaRegistry, w: Walk, entry: Entry<Value>)
    requires ValidRegistry(registry) && w.writableOnly
    requires ConformsEntry(Reading(w), BaseRoot(registry), entry, TriggerKeys(registry.fragments))
    ensures (forall e | e in StripTopEntry(registry, entry) ::
               ConformsEntry(w, BaseRoot(registry), e, TriggerKeys(registry.fragments)))
       <==> (entry.key !in TriggerKeys(registry.fragments) ==> CleanWithin(BaseRoot(registry), entry))
  {
    hide CleanWithin, StripEntry, StripFields;
    TriggerKeysAre(registry.fragments, entry.key);
    if entry.key in TriggerKeys(registry.fragments) {
      TopAtMostOne(registry, entry);
    } else {
      FoundTrigger(registry.fragments, None);
      EntryStripExact(w, BaseRoot(registry), entry, TriggerKeys(registry.fragments));
    }
  }

  lemma {:induction false} GetUnique(fields: Fields, e: Entry<Value>)
    requires WellFormedFields(fields) && e in fields
    ensures Get(fields, e.key) == Some(e.value)
  {
    hide WellFormed;
    UniqueTail(fields);
    if fields[0] != e {
      assert e in fields[1..];
      GetUnique(fields[1..], e);
    }
  }

  lemma GetRemoved(fields: Fields, field: string, key: string)
    requires WellFormedFields(fields)
    ensures Get(Remove(fields, field), key) == if key == field then None else Get(fields, key)
  {
    hide WellFormed;
    RemoveKeepsWellFormed(fields, field);
    var left := Remove(fields, field);
    if Get(left, key).Some? {
      GetUnique(fields, Entry(key, Get(left, key).value));
    }
    var kept := Get(fields, key);
    assert kept.Some? && key != field ==> Entry(key, kept.value) in left;
  }

  ghost predicate BaseClean(registry: SchemaRegistry, s: State, field: string)
    requires ValidRegistry(registry)
  {
    && (field in BaseRoot(registry).required ==> field in TriggerKeys(registry.fragments))
    && forall e | e in s.fields && e.key != field && e.key !in TriggerKeys(registry.fragments) ::
         CleanEntry(BaseRoot(registry), e)
  }

  /** A required base field remains unless it was the match field or read-only. */
  lemma RequiredRemains(registry: SchemaRegistry, fields: Fields, field: string, key: string)
    requires ValidRegistry(registry) && WellFormedFields(fields)
    requires key !in TriggerKeys(registry.fragments) && Has(fields, key)
    ensures Has(StripTop(registry, Remove(fields, field)), key)
      <==> key != field && StaysIn(BaseRoot(registry), key)
  {
    hide ValidRegistry, WellFormedFields, StripTop, Get, Remove, StripValue;
    TriggerKeysAre(registry.fragments, key);
    RemoveKeepsWellFormed(fields, field);
    GetRemoved(fields, field, key);
    GetTop(registry, Remove(fields, field), key);
  }

  lemma BaseStripExact(registry: SchemaRegistry, w: Walk, s: State, field: string)
    requires ValidRegistry(registry) && WellFormedFields(s.fields) && w.writableOnly
    requires ConformsFields(Reading(w), BaseRoot(registry), s.fields, TriggerKeys(registry.fragments))
    ensures ConformsFields(w, BaseRoot(registry), StripTop(registry, Remove(s.fields, field)),
                           TriggerKeys(registry.fragments))
       <==> BaseClean(registry, s, field)
  {
    hide ValidRegistry, WellFormedFields, StripTop, Get, Remove, TriggerKeys, BaseRoot, ConformsEntry, Clean;
    var root, triggers := BaseRoot(registry), TriggerKeys(registry.fragments);
    var left := Remove(s.fields, field);
    RemoveKeepsWellFormed(s.fields, field);
    BaseEntriesExact(registry, w, left);
    forall k | k in root.required && k !in triggers
      ensures Has(StripTop(registry, left), k) <==> k != field && StaysIn(root, k)
    {
      RequiredRemains(registry, s.fields, field, k);
    }
    BaseCleanSplits(registry, s, field);
  }

  /** Cleanness of the base entries, apart into what is inside them and what is required. */
  lemma BaseCleanSplits(registry: SchemaRegistry, s: State, field: string)
    requires ValidRegistry(registry)
    requires forall k | k in BaseRoot(registry).required && k !in TriggerKeys(registry.fragments) :: Has(s.fields, k)
    ensures BaseClean(registry, s, field) <==>
      && (forall e | e in s.fields && e.key != field && e.key !in TriggerKeys(registry.fragments) ::
            CleanWithin(BaseRoot(registry), e))
      && (forall k | k in BaseRoot(registry).required && k !in TriggerKeys(registry.fragments) ::
            k != field && StaysIn(BaseRoot(registry), k))
  {
    hide ValidRegistry, Get, TriggerKeys, BaseRoot, Clean;
    var root, triggers := BaseRoot(registry), TriggerKeys(registry.fragments);
    if BaseClean(registry, s, field) {
      forall e | e in s.fields && e.key != field && e.key !in triggers ensures CleanWithin(root, e) {
        assert CleanEntry(root, e);
      }
      forall k | k in root.required && k !in triggers
        ensures k != field && StaysIn(root, k)
      {
        assert Has(s.fields, k);
        assert k != field ==> CleanEntry(root, Entry(k, Get(s.fields, k).value));
      }
    }
  }

  lemma FragmentStripExact(registry: SchemaRegistry, f: Fragment, s: State, t: State, field: string)
    requires ValidRegistry(registry) && DistinctTriggers(registry.fragments) && f in registry.fragments
    requires WellFormedFields(s.fields) && f.triggerKey.Some?
    requires ConformsFragment(registry, f, s, false)
    requires t.fields == StripTop(registry, Remove(s.fields, field))
    ensures ConformsFragment(registry, f, t, true)
       <==> forall e | e in s.fields && e.key != field && e.key == f.triggerKey.value :: CleanTopEntry(registry, e)
  {
    hide WellFormedFields, StripTop, Get, Remove, StripFields, CleanFields, OnlyReadOnly, ConformsFields;
    var key, w := f.triggerKey.value, Walk(registry.text, f.name, true);
    assert Some(key) == f.triggerKey;
    OnlyTrigger(registry.fragments, f);
    RemoveKeepsWellFormed(s.fields, field);
    GetRemoved(s.fields, field, key);
    GetTop(registry, Remove(s.fields, field), key);
    forall e | e in s.fields && e.key == key ensures Get(s.fields, key) == Some(e.value) {
      GetUnique(s.fields, e);
    }
    var found := Get(s.fields, key);
    if found.Some? {
      FieldsStripExact(w, f.root, found.value.entries);
      EmptiedIsOnlyReadOnly(f.root, found.value.entries);
    }
  }

  /** The central equivalence: what is prepared conforms to the policy rules exactly when the state was clean. */
  lemma StateStripExact(registry: SchemaRegistry, s: State, t: State, field: string)
    requires ValidRegistry(registry) && DistinctTriggers(registry.fragments) && WellFormedFields(s.fields)
    requires ConformsState(registry, s, false)
    requires t.fields == StripTop(registry, Remove(s.fields, field)) && t.deviceType == ""
    ensures ConformsState(registry, t, true) <==> CleanState(registry, s, field)
  {
    hide WellFormedFields, StripTop, Get, Remove, ConformsFields, ConformsFragment, CleanTopEntry;
    forall f | f in registry.fragments
      ensures ConformsFragment(registry, f, t, true) <==>
        if f.triggerKey.None? then BaseClean(registry, s, field)
        else forall e | e in s.fields && e.key != field && e.key == f.triggerKey.value :: CleanTopEntry(registry, e)
    {
      if f.triggerKey.None? {
        OnlyTrigger(registry.fragments, f);
        BaseFragmentExact(registry, f, s, t, field);
      } else {
        FragmentStripExact(registry, f, s, t, field);
      }
    }
    CleanStateSplits(registry, s, field);
  }

  lemma BaseFragmentExact(registry: SchemaRegistry, f: Fragment, s: State, t: State, field: string)
    requires ValidRegistry(registry) && FindTrigger(registry.fragments, None) == Some(f) && f.triggerKey.None?
    requires ValidFragment(f)
    requires WellFormedFields(s.fields) && ConformsFragment(registry, f, s, false)
    requires t.fields == StripTop(registry, Remove(s.fields, field)) && t.deviceType == ""
    ensures ConformsFragment(registry, f, t, true) <==> BaseClean(registry, s, field)
  {
    hide WellFormedFields, StripTop, Remove, ConformsFields;
    BaseStripExact(registry, Walk(registry.text, f.name, true), s, field);
  }

  lemma CleanStateSplits(registry: SchemaRegistry, s: State, field: string)
    requires ValidRegistry(registry) && DistinctTriggers(registry.fragments)
    ensures CleanState(registry, s, field) <==>
      forall f | f in registry.fragments ::
        if f.triggerKey.None? then BaseClean(registry, s, field)
        else forall e | e in s.fields && e.key != field && e.key == f.triggerKey.value :: CleanTopEntry(registry, e)
  {
    hide CleanEntry, CleanFields, OnlyReadOnly, TriggerKeys, ValidFragment;
    FoundTrigger(registry.fragments, None);
    forall e | e in s.fields && e.key != field
      ensures e.key in TriggerKeys(registry.fragments) ==>
        exists f | f in registry.fragments :: f.triggerKey == Some(e.key)
      ensures e.key !in TriggerKeys(registry.fragments)
        ==> (CleanTopEntry(registry, e) <==> CleanEntry(BaseRoot(registry), e))
    {
      TriggerKeysAre(registry.fragments, e.key);
      FoundTrigger(registry.fragments, Some(e.key));
    }
    if CleanState(registry, s, field) {
      assert BaseClean(registry, s, field);
    }
  }

  // ---------------------------------------------------------------- whole runs

  lemma StateErrorsMean(registry: SchemaRegistry, s: State, final: bool)
    requires ValidRegistry(registry)
    ensures StateErrors(registry, s, final) == [] <==> ConformsState(registry, s, final || !s.matchSpec.IsEmpty())
  {
    hide ConformsState, ValidRegistry, ValidateFrom;
    ValidatorIsCorrect(registry, s);
  }

  lemma {:induction false} NoErrorsMeans(registry: SchemaRegistry, states: seq<State>, final: bool, index: nat)
    requires ValidRegistry(registry) && index <= |states|
    ensures CollectErrors(registry, states, final, index) == []
       <==> forall j | index <= j < |states| ::
              ConformsState(registry, states[j], final || !states[j].matchSpec.IsEmpty())
    decreases |states| - index
  {
    hide ConformsState, ValidRegistry, StateErrors;
    if index < |states| {
      StateErrorsMean(registry, states[index], final);
      NoErrorsMeans(registry, states, final, index + 1);
    }
  }

  lemma {:induction false} EachIsPrepared(registry: SchemaRegistry, options: Options, states: seq<State>, count: nat)
    requires ValidRegistry(registry) && count <= |states|
    ensures PrepareFirst(registry, options, states, count).Success?
       <==> forall i | 0 <= i < count :: PrepareOne(registry, options, states[i], i).Success?
    ensures PrepareFirst(registry, options, states, count).Success? ==>
      forall i | 0 <= i < count :: PrepareFirst(registry, options, states, count).value.states[i]
                                == PrepareOne(registry, options, states[i], i).value.0
  {
    hide PrepareOne, ValidRegistry;
    if count > 0 {
      EachIsPrepared(registry, options, states, count - 1);
    }
  }

  /** A state is ready for preparation when it is well formed and passes the first validation. */
  ghost predicate Ready(registry: SchemaRegistry, options: Options, s: State)
    requires ValidRegistry(registry)
  {
    && WellFormedFields(s.fields)
    && (s.matchSpec.IsEmpty() ==> Has(s.fields, MatchField(options.matchBy)))
    && ConformsState(registry, s, !s.matchSpec.IsEmpty())
  }

  lemma OneExact(registry: SchemaRegistry, options: Options, s: State, index: nat)
    requires ValidRegistry(registry) && DistinctTriggers(registry.fragments) && Ready(registry, options, s)
    ensures PrepareOne(registry, options, s, index).Success?
    ensures ConformsState(registry, PrepareOne(registry, options, s, index).value.0, true)
       <==> (s.matchSpec.IsEmpty() ==> CleanState(registry, s, MatchField(options.matchBy)))
  {
    hide ConformsState, CleanState, ValidRegistry, WellFormedFields, StripTop, RemovedTop, Get, Remove,
      DistinctTriggers;
    if s.matchSpec.IsEmpty() {
      StateStripExact(registry, s, PrepareOne(registry, options, s, index).value.0, MatchField(options.matchBy));
    }
  }

  /**
   States that pass the first validation and have their match field are
   prepared successfully exactly when every state still without a match is clean;
   the only failure left is the final validation.
   */
  lemma PreparationExact(registry: SchemaRegistry, options: Options, states: seq<State>)
    requires ValidRegistry(registry) && DistinctTriggers(registry.fragments)
    requires forall s | s in states :: Ready(registry, options, Reset(registry, s))
    ensures Prepare(registry, options, states).Success?
       <==> forall s | s in states && Reset(registry, s).matchSpec.IsEmpty() ::
              CleanState(registry, Reset(registry, s), MatchField(options.matchBy))
    ensures Prepare(registry, options, states).Failure? ==> Prepare(registry, options, states).error.Invalid?
  {
    hide ConformsState, CleanState, ValidRegistry, DistinctTriggers, PrepareFirst, PrepareOne, CollectErrors, Reset;
    var started, field := ResetAll(registry, states), MatchField(options.matchBy);
    forall i | 0 <= i < |started|
      ensures ConformsState(registry, started[i], !started[i].matchSpec.IsEmpty())
      ensures PrepareOne(registry, options, started[i], i).Success?
      ensures ConformsState(registry, PrepareOne(registry, options, started[i], i).value.0, true)
         <==> (started[i].matchSpec.IsEmpty() ==> CleanState(registry, started[i], field))
    {
      assert states[i] in states;
      OneExact(registry, options, started[i], i);
    }
    NoErrorsMeans(registry, started, false, 0);
    EachIsPrepared(registry, options, started, |started|);
    var outcome := PrepareFirst(registry, options, started, |started|).value;
    NoErrorsMeans(registry, outcome.states, true, 0);
    assert CollectErrors(registry, outcome.states, true, 0) == []
      <==> forall i | 0 <= i < |states| :: started[i].matchSpec.IsEmpty() ==> CleanState(registry, started[i], field);
  }

  // ---------------------------------------------------------------- registries for which preparation always succeeds

  ghost predicate StrippableRegistry(registry: SchemaRegistry, field: string)
    requires ValidRegistry(registry)
  {
    && DistinctTriggers(registry.fragments)
    && (forall f | f in registry.fragments :: Strippable(f.root))
    && field !in BaseRoot(registry).required
  }

  lemma ConformingIsClean(registry: SchemaRegistry, s: State, writableOnly: bool, field: string)
    requires ValidRegistry(registry) && StrippableRegistry(registry, field)
    requires WellFormedFields(s.fields) && ConformsState(registry, s, writableOnly)
    ensures CleanState(registry, s, field)
  {
    hide Strippable, CleanFields, CleanEntry, OnlyReadOnly, ConformsFields, WellFormedFields, Get;
    FoundTrigger(registry.fragments, None);
    forall e | e in s.fields && e.key != field ensures CleanTopEntry(registry, e) {
      FoundTrigger(registry.fragments, Some(e.key));
      TriggerKeysAre(registry.fragments, e.key);
      GetUnique(s.fields, e);
      match FindTrigger(registry.fragments, Some(e.key)) {
        case Some(f) =>
          var w := Walk(registry.text, f.name, writableOnly);
          assert ConformsFragment(registry, f, s, writableOnly);
          StrippableFieldsAreClean(w, f.root, e.value.entries, []);
          CleanWhole(f.root, e.value.entries);
        case None =>
          var base := FindTrigger(registry.fragments, None).value;
          assert ConformsFragment(registry, base, s, writableOnly);
          StrippableFieldsAreClean(Walk(registry.text, base.name, writableOnly), base.root, s.fields,
                                   TriggerKeys(registry.fragments));
      }
    }
  }

  lemma CleanWhole(node: SchemaNode, fields: Fields)
    requires forall e | e in fields && e.key !in [] :: CleanEntry(node, e)
    ensures CleanFields(node, fields)
  {
    forall e | e in fields ensures CleanEntry(node, e) {
      assert e.key !in [];
    }
  }

  /**
   With no read-only required property, no array of arrays and no required
   match field, preparation never fails its second validation.
   */
  lemma PreparationSucceeds(registry: SchemaRegistry, options: Options, states: seq<State>)
    requires ValidRegistry(registry) && StrippableRegistry(registry, MatchField(options.matchBy))
    requires forall s | s in states :: Ready(registry, options, Reset(registry, s))
    ensures Prepare(registry, options, states).Success?
  {
    hide ConformsState, CleanState, ValidRegistry, Prepare, Reset, WellFormedFields, Get;
    PreparationExact(registry, options, states);
    forall s | s in states && Reset(registry, s).matchSpec.IsEmpty()
      ensures CleanState(registry, Reset(registry, s), MatchField(options.matchBy))
    {
      ConformingIsClean(registry, Reset(registry, s), false, MatchField(options.matchBy));
    }
  }

  // ---------------------------------------------------------------- preparing again

  predicate DotFree(name: string) {
    name != "" && '.' !in name
  }

  /**
   The base schema is closed, its field names and the trigger keys are single
   path components, and no base field is named like a trigger. Every registry
   built from the embedded fragments by adding nodes is plain.
   */
  ghost predicate PlainRegistry(registry: SchemaRegistry)
    requires ValidRegistry(registry)
  {
    && DistinctTriggers(registry.fragments)
    && FindFragment(registry.fragments, "base") == FindTrigger(registry.fragments, None)
    && PlainBase(BaseRoot(registry))
    && forall key | key in TriggerKeys(registry.fragments) :: DotFree(key) && Property(BaseRoot(registry), key).None?
  }

  ghost predicate PlainBase(root: SchemaNode) {
    && !root.additionalProperties && root.items.None?
    && UniqueKeys(root.properties)
    && forall e | e in root.properties :: DotFree(e.key)
  }

  /** Nested fields have dotted paths, so they never answer for a single name. */
  lemma {:induction false} NestedPathsAreDotted(node: SchemaNode, prefix: string, out: OrderedMap<FieldInfo>,
                                                key: string)
    requires ValidSchemaNode(node) && prefix != "" && '.' !in key
    ensures Get(DeriveFields(node, prefix, out), key) == Get(out, key)
    decreases node
  {
    NestedPropertiesAreDotted(node.properties, prefix, out, key);
    if node.items.Some? {
      NestedPathsAreDotted(node.items.value, prefix, DeriveProperties(node.properties, prefix, out), key);
    }
  }

  lemma {:induction false} NestedPropertiesAreDotted(properties: OrderedMap<SchemaNode>, prefix: string,
                                                     out: OrderedMap<FieldInfo>, key: string)
    requires forall e | e in properties :: ValidSchemaNode(e.value)
    requires prefix != "" && '.' !in key
    ensures Get(DeriveProperties(properties, prefix, out), key) == Get(out, key)
    decreases properties
  {
    hide Get, ValidSchemaNode;
    if properties != [] {
      var node, path := properties[0].value, JoinPath(prefix, properties[0].key);
      assert properties[0] in properties;
      assert SemanticType(node).Some? by { SemanticTypeOf(node); }
      assert path[|prefix|] == '.';
      var own := Insert(out, path, FieldInfo(node.writable, SemanticType(node).value));
      NestedPathsAreDotted(node, path, own, key);
      NestedPropertiesAreDotted(properties[1..], prefix, DeriveFields(node, path, own), key);
    }
  }

  lemma SemanticTypeOf(node: SchemaNode)
    requires ValidSchemaNode(node)
    ensures SemanticType(node).Some?
  {
  }

  /** The flat field map agrees with the schema tree on single names. */
  lemma {:induction false} TopLookup(properties: OrderedMap<SchemaNode>, out: OrderedMap<FieldInfo>, key: string)
    requires forall e | e in properties :: ValidSchemaNode(e.value)
    requires UniqueKeys(properties) && forall e | e in properties :: DotFree(e.key)
    requires DotFree(key)
    ensures var info := Get(DeriveProperties(properties, "", out), key);
            match Get(properties, key)
            case None => info == Get(out, key)
            case Some(node) => info.Some? && info.value.writable == node.writable
    decreases properties
  {
    hide ValidSchemaNode;
    if properties != [] {
      var node, name := properties[0].value, properties[0].key;
      assert properties[0] in properties;
      SemanticTypeOf(node);
      var own := Insert(out, name, FieldInfo(node.writable, SemanticType(node).value));
      NestedPathsAreDotted(node, name, own, key);
      forall i, j | 0 <= i < j < |properties[1..]| ensures properties[1..][i].key != properties[1..][j].key {
        assert properties[i + 1].key != properties[j + 1].key;
      }
      TopLookup(properties[1..], DeriveFields(node, name, own), key);
      if name == key {
        forall e | e in properties[1..] ensures e.key != key {
          var j :| 1 <= j < |properties| && properties[j] == e;
        }
      }
    }
  }

  /** On a plain registry a field that may stay in a policy is never read-only base data. */
  lemma SettableFieldIsNotReadOnly(registry: SchemaRegistry, key: string)
    requires ValidRegistry(registry) && PlainRegistry(registry)
    requires key in TriggerKeys(registry.fragments) ||
             (Property(BaseRoot(registry), key).Some? && Property(BaseRoot(registry), key).value.writable)
    ensures !ReadOnlyBaseField(registry, key)
  {
    var root := BaseRoot(registry);
    FoundTrigger(registry.fragments, None);
    assert Property(root, key).Some? ==> Entry(key, Property(root, key).value) in root.properties;
    TopLookup(root.properties, [], key);
    assert LookupField(registry, "base", key) == Get(DeriveProperties(root.properties, "", []), key);
  }

  /** A policy without a device type keeps its match when it is prepared again. */
  lemma PolicyIsNotReset(registry: SchemaRegistry, s: State)
    requires ValidRegistry(registry) && PlainRegistry(registry)
    requires ConformsState(registry, s, true) && s.deviceType == ""
    ensures Reset(registry, s) == s
  {
    hide Conforms, LookupField, PlainBase, Get;
    FoundTrigger(registry.fragments, None);
    var base := FindTrigger(registry.fragments, None).value;
    assert ConformsFragment(registry, base, s, true);
    forall e | e in s.fields ensures !ReadOnlyBaseField(registry, e.key) {
      assert ConformsEntry(Walk(registry.text, base.name, true), base.root, e, TriggerKeys(registry.fragments));
      assert !base.root.additionalProperties by { ClosedBase(registry); }
      SettableFieldIsNotReadOnly(registry, e.key);
    }
  }

  lemma ClosedBase(registry: SchemaRegistry)
    requires ValidRegistry(registry) && PlainRegistry(registry)
    ensures !BaseRoot(registry).additionalProperties
  {
  }

  lemma ResetTwice(registry: SchemaRegistry, s: State)
    ensures Reset(registry, Reset(registry, s)) == Reset(registry, s)
  {
  }

  lemma PreparedIsMatched(registry: SchemaRegistry, options: Options, s: State, index: nat)
    requires ValidRegistry(registry) && PrepareOne(registry, options, s, index).Success?
    ensures !PrepareOne(registry, options, s, index).value.0.matchSpec.IsEmpty()
    ensures s.matchSpec.IsEmpty() ==> PrepareOne(registry, options, s, index).value.0.deviceType == ""
    ensures !s.matchSpec.IsEmpty() ==> PrepareOne(registry, options, s, index).value.0 == s
  {
    hide StripTop, RemovedTop, ValidRegistry, Get, Remove;
  }

  lemma {:induction false} MatchedPassThrough(registry: SchemaRegistry, options: Options, states: seq<State>,
                                              count: nat)
    requires ValidRegistry(registry) && count <= |states|
    requires forall s | s in states :: !s.matchSpec.IsEmpty()
    ensures PrepareFirst(registry, options, states, count) == Success(Outcome(states[..count], []))
  {
    hide ValidRegistry, Prepared;
    if count > 0 {
      MatchedPassThrough(registry, options, states, count - 1);
      assert states[count - 1] in states;
      assert PrepareOne(registry, options, states[count - 1], count - 1) == Success((states[count - 1], []));
      assert states[..count] == states[..count - 1] + [states[count - 1]];
      var none: seq<string> := [];
      assert none + none == none;
    }
  }

  /** Preparing prepared states changes nothing and warns of nothing. */
  lemma PreparingAgainChangesNothing(registry: SchemaRegistry, options: Options, states: seq<State>)
    requires ValidRegistry(registry) && PlainRegistry(registry)
    requires Prepare(registry, options, states).Success?
    ensures var outcome := Prepare(registry, options, states).value;
            forall again: Options :: Prepare(registry, again, outcome.states) == Success(Outcome(outcome.states, []))
  {
    hide ConformsState, ValidRegistry, PlainRegistry, PrepareFirst, PrepareOne, CollectErrors, Reset;
    var started := ResetAll(registry, states);
    var prepared := Prepare(registry, options, states).value.states;
    EachIsPrepared(registry, options, started, |started|);
    NoErrorsMeans(registry, prepared, true, 0);
    forall i | 0 <= i < |prepared|
      ensures !prepared[i].matchSpec.IsEmpty() && Reset(registry, prepared[i]) == prepared[i]
    {
      PreparedIsMatched(registry, options, started[i], i);
      if started[i].matchSpec.IsEmpty() {
        PolicyIsNotReset(registry, prepared[i]);
      } else {
        ResetTwice(registry, states[i]);
      }
    }
    assert ResetAll(registry, prepared) == prepared;
    NoErrorsMeans(registry, prepared, false, 0);
    forall again: Options ensures Prepare(registry, again, prepared) == Success(Outcome(prepared, [])) {
      MatchedPassThrough(registry, again, prepared, |prepared|);
      assert prepared[..|prepared|] == prepared;
    }
  }

  // ---------------------------------------------------------------- the embedded fragments

  lemma EmbeddedIsPlain(text: IpText)
    ensures PlainRegistry(Embedded(text))
    ensures StrippableRegistry(Embedded(text), "name") && StrippableRegistry(Embedded(text), "mac")
  {
    hide ValidRegistry, DeriveFields, PlainBase, Strippable, Get;
    StrippableLeaves(BASE_ROOT);
    StrippableLeaves(ETHERNET_ROOT);
    Ipv4IsStrippable();
    BaseIsPlain();
    var registry := Embedded(text);
    ThreeArePlain(registry, registry.fragments[0], registry.fragments[1], registry.fragments[2]);
  }

  lemma ThreeArePlain(registry: SchemaRegistry, base: Fragment, ipv4: Fragment, ethernet: Fragment)
    requires ValidRegistry(registry) && registry.fragments == [base, ipv4, ethernet]
    requires base.name == "base" && base.triggerKey == None
    requires ipv4.triggerKey == Some("ipv4") && ethernet.triggerKey == Some("ethernet")
    requires PlainBase(base.root) && Property(base.root, "ipv4").None? && Property(base.root, "ethernet").None?
    requires Strippable(base.root) && Strippable(ipv4.root) && Strippable(ethernet.root) && base.root.required == []
    ensures PlainRegistry(registry)
    ensures StrippableRegistry(registry, "name") && StrippableRegistry(registry, "mac")
  {
    hide ValidRegistry, PlainBase, Strippable, Get, FindTrigger, TriggerKeys, DotFree;
    TriggersOfThree(registry.fragments);
    TriggersAreDotFree();
    assert Some("ipv4") != Some("ethernet");
    assert FindFragment(registry.fragments, "base") == Some(base);
  }

  lemma TriggersOfThree(fragments: seq<Fragment>)
    requires |fragments| == 3
    requires fragments[0].triggerKey == None && fragments[1].triggerKey.Some? && fragments[2].triggerKey.Some?
    ensures FindTrigger(fragments, None) == Some(fragments[0])
    ensures TriggerKeys(fragments) == [fragments[1].triggerKey.value, fragments[2].triggerKey.value]
  {
    var rest, last := fragments[1..], fragments[1..][1..];
    assert last[1..] == [] && rest[0] == fragments[1] && last[0] == fragments[2];
    assert TriggerKeys(last) == [fragments[2].triggerKey.value] + TriggerKeys(last[1..]);
    assert TriggerKeys(rest) == [fragments[1].triggerKey.value] + TriggerKeys(last);
    assert TriggerKeys(fragments) == [] + TriggerKeys(rest);
  }

  lemma StrippableLeaves(node: SchemaNode)
    requires node.required == [] && node.items.None?
    requires forall i | 0 <= i < |node.properties| ::
      var p := node.properties[i].value; p.required == [] && p.properties == [] && p.items.None?
    ensures Strippable(node)
  {
    forall e | e in node.properties ensures Strippable(e.value) {
      var i :| 0 <= i < |node.properties| && node.properties[i] == e;
    }
  }

  lemma Ipv4IsStrippable()
    ensures Strippable(IPV4_ROOT)
  {
    var item := IPV4_ITEM;
    forall e | e in item.properties ensures Strippable(e.value) {
      var i :| 0 <= i < |item.properties| && item.properties[i] == e;
    }
    assert item.properties[0].key == "ip" && item.properties[0].value.writable;
    assert Strippable(item);
    var addresses := IPV4_ROOT.properties[0].value;
    assert addresses.items == Some(item);
    assert Strippable(addresses);
    forall e | e in IPV4_ROOT.properties ensures Strippable(e.value) {
      var i :| 0 <= i < |IPV4_ROOT.properties| && IPV4_ROOT.properties[i] == e;
    }
  }

  const BASE_NAMES: seq<string> := ["type", "name", "mac", "carrier", "driver", "enabled", "mtu"]

  lemma BaseNames()
    ensures |BASE_ROOT.properties| == |BASE_NAMES|
    ensures forall i | 0 <= i < |BASE_NAMES| :: BASE_ROOT.properties[i].key == BASE_NAMES[i]
  {
  }

  lemma BaseNamesArePlain()
    ensures forall i | 0 <= i < |BASE_NAMES| ::
              DotFree(BASE_NAMES[i]) && BASE_NAMES[i] != "ipv4" && BASE_NAMES[i] != "ethernet"
    ensures forall i, j | 0 <= i < j < |BASE_NAMES| :: BASE_NAMES[i] != BASE_NAMES[j]
  {
  }

  lemma BaseIsPlain()
    ensures PlainBase(BASE_ROOT)
    ensures Property(BASE_ROOT, "ipv4").None? && Property(BASE_ROOT, "ethernet").None?
    ensures DotFree("ipv4") && DotFree("ethernet")
  {
    hide Get, DotFree;
    BaseNames();
    BaseNamesArePlain();
    TriggersAreDotFree();
    var root := BASE_ROOT;
    forall e | e in root.properties ensures DotFree(e.key) && e.key != "ipv4" && e.key != "ethernet" {
      var i :| 0 <= i < |root.properties| && root.properties[i] == e;
      assert e.key == BASE_NAMES[i];
    }
  }

  lemma TriggersAreDotFree()
    ensures DotFree("ipv4") && DotFree("ethernet")
  {
  }
}
