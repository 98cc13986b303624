/** What the split of a policy conserves, and that its static part stays valid (policy lib.rs). */
module ProductionLaws {
  import opened Wrappers
  import opened OrderedMaps
  import opened Values
  import opened Schemas
  import opened Conformance
  import opened Preparation
  import opened PreparationLaws
  import opened Providers
  import opened Production

  // ---------------------------------------------------------------- lookups after the split

  lemma {:induction false} UniqueRest(fields: Fields)
    requires UniqueKeys(fields) && fields != []
    ensures UniqueKeys(fields[1..]) && forall e | e in fields[1..] :: e.key != fields[0].key
  {
    forall i, j | 0 <= i < j < |fields[1..]| ensures fields[1..][i].key != fields[1..][j].key {
      assert fields[i + 1].key != fields[j + 1].key;
    }
  }

  lemma {:induction false} StaticEntryLookup(domain: string, values: Fields, key: string)
    ensures Get(StaticEntries(domain, values), key) == if Registered(domain, key).Some? then None else Get(values, key)
  {
    hide Registered;
    if values != [] {
      StaticEntryLookup(domain, values[1..], key);
      if Registered(domain, values[0].key).Some? {
        assert StaticEntries(domain, values) == StaticEntries(domain, values[1..]);
      } else {
        assert StaticEntries(domain, values)[1..] == StaticEntries(domain, values[1..]);
      }
    }
  }

  /** What the static fields hold at a key: the split of what was there. */
  lemma {:induction false} StaticLookup(fields: Fields, key: string)
    requires UniqueKeys(fields)
    ensures Get(StaticFields(fields), key) ==
      match Get(fields, key)
      case None => None
      case Some(value) => var left := StaticField(Entry(key, value)); if left == [] then None else Some(left[0].value)
  {
    hide StaticEntries;
    if fields != [] {
      UniqueRest(fields);
      StaticLookup(fields[1..], key);
      var head, tail := StaticField(fields[0]), StaticFields(fields[1..]);
      if head == [] {
        assert head + tail == tail;
      } else {
        assert (head + tail)[1..] == tail && (head + tail)[0] == head[0];
      }
      assert Entry(fields[0].key, fields[0].value) == fields[0];
    }
  }

  /** The value two levels down, where triggers live. */
  function ValueAt(fields: Fields, domain: string, key: string): Option<Value> {
    var found := Get(fields, domain);
    if found.Some? && found.value.Map? then Get(found.value.entries, key) else None
  }

  /** The static part holds no trigger, and everything else it held before. */
  lemma StaticValueAt(fields: Fields, domain: string, key: string)
    requires UniqueKeys(fields)
    ensures ValueAt(StaticFields(fields), domain, key)
         == if Registered(domain, key).Some? then None else ValueAt(fields, domain, key)
  {
    hide Registered, Get, StaticEntries;
    StaticLookup(fields, domain);
    var found := Get(fields, domain);
    if found.Some? && found.value.Map? {
      StaticEntryLookup(domain, found.value.entries, key);
      EmptyHasNothing(key);
    }
  }

  lemma EmptyHasNothing(key: string)
    ensures Get<Value>([], key).None?
  {
  }

  // ---------------------------------------------------------------- putting the parameters back

  /** The domain and key a declaration's dotted location names. */
  function Place(decl: ProviderDecl): (string, string) {
    match SplitOnce(decl.location, '.')
    case Some(parts) => parts
    case None => (decl.location, "")
  }

  function EntriesAt(fields: Fields, domain: string): Fields {
    var found := Get(fields, domain);
    if found.Some? && found.value.Map? then found.value.entries else []
  }

  function PutBack(fields: Fields, decl: ProviderDecl): Fields {
    var (domain, key) := Place(decl);
    Insert(fields, domain, Map(Insert(EntriesAt(fields, domain), key, Map(decl.params))))
  }

  /** Re-insert every provider's parameters at its location. */
  function Restore(providers: seq<ProviderDecl>, fields: Fields): Fields
    decreases |providers|
  {
    if providers == [] then fields
    else PutBack(Restore(providers[..|providers| - 1], fields), providers[|providers| - 1])
  }

  /** The parameters declared for a place: the last declaration counts. */
  function DeclaredAt(providers: seq<ProviderDecl>, domain: string, key: string): Option<Fields> {
    if providers == [] then None
    else
      var last := providers[|providers| - 1];
      if Place(last) == (domain, key) then Some(last.params) else DeclaredAt(providers[..|providers| - 1], domain, key)
  }

  predicate DeclaresIn(providers: seq<ProviderDecl>, domain: string) {
    exists p | p in providers :: Place(p).0 == domain
  }

  lemma PutBackLookup(fields: Fields, decl: ProviderDecl, domain: string, key: string)
    requires Get(fields, Place(decl).0).Some? ==> Get(fields, Place(decl).0).value.Map?
    ensures Get(PutBack(fields, decl), Place(decl).0).Some? && Get(PutBack(fields, decl), Place(decl).0).value.Map?
    ensures domain != Place(decl).0 ==> Get(PutBack(fields, decl), domain) == Get(fields, domain)
    ensures ValueAt(PutBack(fields, decl), domain, key)
         == if Place(decl) == (domain, key) then Some(Map(decl.params)) else ValueAt(fields, domain, key)
  {
    hide Get, Insert, Place;
    EmptyHasNothing(key);
  }

  lemma {:induction false} RestoreLookup(providers: seq<ProviderDecl>, fields: Fields, domain: string, key: string)
    requires forall p | p in providers :: Get(fields, Place(p).0).Some? ==> Get(fields, Place(p).0).value.Map?
    ensures ValueAt(Restore(providers, fields), domain, key)
         == (var declared := DeclaredAt(providers, domain, key);
             if declared.Some? then Some(Map(declared.value)) else ValueAt(fields, domain, key))
    ensures DeclaresIn(providers, domain) ==>
      Get(Restore(providers, fields), domain).Some? && Get(Restore(providers, fields), domain).value.Map?
    ensures !DeclaresIn(providers, domain) ==> Get(Restore(providers, fields), domain) == Get(fields, domain)
    decreases |providers|
  {
    hide PutBack, Place, ValueAt, Get;
    if providers != [] {
      var last, before := providers[|providers| - 1], providers[..|providers| - 1];
      assert providers == before + [last];
      RestoreLookup(before, fields, domain, key);
      RestoredDomain(before, fields, Place(last).0);
      PutBackLookup(Restore(before, fields), last, domain, key);
    }
  }

  lemma {:induction false} RestoredDomain(providers: seq<ProviderDecl>, fields: Fields, domain: string)
    requires forall p | p in providers :: Get(fields, Place(p).0).Some? ==> Get(fields, Place(p).0).value.Map?
    requires Get(fields, domain).Some? ==> Get(fields, domain).value.Map?
    ensures Get(Restore(providers, fields), domain).Some? ==> Get(Restore(providers, fields), domain).value.Map?
    decreases |providers|
  {
    hide PutBack, Place, Get;
    if providers != [] {
      var last, before := providers[|providers| - 1], providers[..|providers| - 1];
      assert providers == before + [last];
      RestoredDomain(before, fields, domain);
      RestoredDomain(before, fields, Place(last).0);
      PutBackLookup(Restore(before, fields), last, domain, "");
    }
  }

  // ---------------------------------------------------------------- what was declared

  lemma PlaceOfDeclaration(policy: Policy, r: Registration, params: Fields)
    requires '.' !in r.domain
    ensures Place(Declare(policy, r, params)) == (r.domain, r.key)
  {
    SplitOnceAt(r.domain, r.key, '.');
  }

  lemma RegisteredDomainsAreDotFree(domain: string, key: string)
    requires Registered(domain, key).Some?
    ensures '.' !in Registered(domain, key).value.domain
    ensures Registered(domain, key).value.domain == domain && Registered(domain, key).value.key == key
  {
  }

  lemma {:induction false} DeclaredConcat(a: seq<ProviderDecl>, b: seq<ProviderDecl>, domain: string, key: string)
    ensures DeclaredAt(a + b, domain, key)
         == if DeclaredAt(b, domain, key).Some? then DeclaredAt(b, domain, key) else DeclaredAt(a, domain, key)
    decreases |b|
  {
    hide Place;
    if b == [] {
      assert a + b == a;
    } else {
      assert (a + b)[..|a + b| - 1] == a + b[..|b| - 1];
      DeclaredConcat(a, b[..|b| - 1], domain, key);
    }
  }

  lemma {:induction false} DeclaredEntryAt(policy: Policy, domain: string, values: Fields, d: string, key: string)
    requires UniqueKeys(values) && DomainTriggersAreMaps(domain, values)
    ensures DeclaredAt(DeclaredEntries(policy, domain, values), d, key)
         == if d == domain && Registered(domain, key).Some? && Get(values, key).Some?
            then (assert Entry(key, Get(values, key).value) in values; Some(Get(values, key).value.entries)) else None
    ensures forall p | p in DeclaredEntries(policy, domain, values) :: Place(p).0 == domain
    ensures DeclaredEntries(policy, domain, values) != [] <==> exists v | v in values :: Registered(domain, v.key).Some?
    decreases |values|
  {
    hide Registered, Place, Declare;
    if values != [] {
      UniqueRest(values);
      assert DomainTriggersAreMaps(domain, values[1..]);
      DeclaredEntryAt(policy, domain, values[1..], d, key);
      var first := values[0];
      assert first in values;
      var head, tail := DeclaredEntry(policy, domain, first), DeclaredEntries(policy, domain, values[1..]);
      DeclaredConcat(head, tail, d, key);
      OneDeclared(policy, domain, first, d, key);
      assert values == [first] + values[1..];
    }
  }

  lemma OneDeclared(policy: Policy, domain: string, v: Entry<Value>, d: string, key: string)
    requires Registered(domain, v.key).Some? ==> v.value.Map?
    ensures DeclaredAt(DeclaredEntry(policy, domain, v), d, key)
         == if d == domain && v.key == key && Registered(domain, key).Some? then Some(v.value.entries) else None
    ensures forall p | p in DeclaredEntry(policy, domain, v) :: Place(p).0 == domain
    ensures DeclaredEntry(policy, domain, v) != [] <==> Registered(domain, v.key).Some?
  {
    hide Registered, Place, Declare;
    if Registered(domain, v.key).Some? {
      var r := Registered(domain, v.key).value;
      RegisteredDomainsAreDotFree(domain, v.key);
      PlaceOfDeclaration(policy, r, v.value.entries);
      assert DeclaredEntry(policy, domain, v) == [Declare(policy, r, v.value.entries)];
      DeclareKeepsParams(policy, r, v.value.entries);
    }
  }

  lemma DeclareKeepsParams(policy: Policy, r: Registration, params: Fields)
    ensures Declare(policy, r, params).params == params
  {
  }

  /** A place is declared exactly when it held a trigger, with the parameters it held. */
  lemma {:induction false} DeclaredFieldAt(policy: Policy, fields: Fields, domain: string, key: string)
    requires WellFormedFields(fields) && TriggersAreMaps(fields)
    ensures DeclaredAt(Declarations(policy, fields), domain, key)
         == (var found := ValueAt(fields, domain, key);
             if Registered(domain, key).Some? && found.Some? && found.value.Map?
             then Some(found.value.entries) else None)
    ensures Registered(domain, key).Some? && ValueAt(fields, domain, key).Some?
      ==> ValueAt(fields, domain, key).value.Map?
    ensures DeclaresIn(Declarations(policy, fields), domain)
      ==> Get(fields, domain).Some? && Get(fields, domain).value.Map?
    decreases |fields|
  {
    hide Registered, Place, DeclaredEntries, DomainTriggersAreMaps, WellFormed;
    if fields != [] {
      UniqueTail(fields);
      assert TriggersAreMaps(fields[1..]);
      DeclaredFieldAt(policy, fields[1..], domain, key);
      var first := fields[0];
      assert first in fields;
      FirstFieldAt(policy, first, domain, key);
      DeclaredConcat(DeclaredField(policy, first), Declarations(policy, fields[1..]), domain, key);
    }
  }

  lemma FirstFieldAt(policy: Policy, e: Entry<Value>, domain: string, key: string)
    requires WellFormed(e.value) && (e.value.Map? ==> DomainTriggersAreMaps(e.key, e.value.entries))
    ensures DeclaredAt(DeclaredField(policy, e), domain, key)
         == (var found := if domain == e.key && e.value.Map? then Get(e.value.entries, key) else None;
             if Registered(domain, key).Some? && found.Some? && found.value.Map?
             then Some(found.value.entries) else None)
    ensures domain == e.key && e.value.Map? && Registered(domain, key).Some? && Get(e.value.entries, key).Some? ==>
      Get(e.value.entries, key).value.Map?
    ensures forall p | p in DeclaredField(policy, e) :: Place(p).0 == e.key
    ensures !e.value.Map? ==> DeclaredField(policy, e) == []
  {
    hide Registered, Place, DeclaredEntries;
    if e.value.Map? {
      assert WellFormedFields(e.value.entries);
      DeclaredEntryAt(policy, e.key, e.value.entries, domain, key);
      var found := Get(e.value.entries, key);
      assert found.Some? ==> Entry(key, found.value) in e.value.entries;
    }
  }

  // ---------------------------------------------------------------- conservation

  /** Equal up to the order of keys within a domain and of the domains themselves. */
  ghost predicate SameFields(a: Fields, b: Fields) {
    && (forall domain :: SameShapeAt(a, b, domain))
    && (forall domain, key :: ValueAt(a, domain, key) == ValueAt(b, domain, key))
  }

  ghost predicate SameShapeAt(a: Fields, b: Fields, domain: string) {
    var x, y := Get(a, domain), Get(b, domain);
    && (x.Some? <==> y.Some?)
    && (x.Some? && y.Some? ==> x == y || (x.value.Map? && y.value.Map?))
  }

  lemma StaticShape(fields: Fields, domain: string)
    requires UniqueKeys(fields)
    ensures var before, after := Get(fields, domain), Get(StaticFields(fields), domain);
            && (before.None? ==> after.None?)
            && (before.Some? && !before.value.Map? ==> after == before)
            && (before.Some? && before.value.Map? && after.Some? ==> after.value.Map?)
  {
    hide Get, StaticEntries;
    StaticLookup(fields, domain);
  }

  /** A domain disappears only when something was declared in it. */
  lemma DroppedWasDeclared(policy: Policy, fields: Fields, domain: string)
    requires WellFormedFields(fields) && TriggersAreMaps(fields)
    requires Get(fields, domain).Some? && Get(fields, domain).value.Map? && Get(StaticFields(fields), domain).None?
    ensures DeclaresIn(Declarations(policy, fields), domain)
  {
    hide Registered, Get, Place, WellFormed, Declarations, DeclaredEntries, DeclaredAt, DeclaresIn,
      DomainTriggersAreMaps;
    StaticLookup(fields, domain);
    var entries := Get(fields, domain).value.entries;
    var key := entries[0].key;
    assert StaticEntries(domain, entries) == [] && entries != [];
    StaticEntryLookup(domain, entries, key);
    EmptyHasNothing(key);
    HeadIsFound(entries);
    DeclaredFieldAt(policy, fields, domain, key);
    DeclaredSomewhere(Declarations(policy, fields), domain, key);
  }

  lemma HeadIsFound(entries: Fields)
    requires entries != []
    ensures Get(entries, entries[0].key).Some?
  {
  }

  lemma {:induction false} DeclaredSomewhere(providers: seq<ProviderDecl>, domain: string, key: string)
    requires DeclaredAt(providers, domain, key).Some?
    ensures DeclaresIn(providers, domain)
  {
    hide Place;
    var last, before := providers[|providers| - 1], providers[..|providers| - 1];
    assert providers == before + [last];
    if Place(last) != (domain, key) {
      DeclaredSomewhere(before, domain, key);
    }
  }

  /** Re-inserting the declared parameters at their locations recovers the policy's fields. */
  lemma SplitConserves(policy: Policy, fields: Fields)
    requires WellFormedFields(fields) && TriggersAreMaps(fields)
    ensures SameFields(Restore(Declarations(policy, fields), StaticFields(fields)), fields)
  {
    hide Registered, Get, Place, WellFormed, Declarations, StaticFields, DeclaredAt, DeclaresIn, TriggersAreMaps,
      Restore, ValueAt;
    var providers, left := Declarations(policy, fields), StaticFields(fields);
    DeclarationsAreBelowMaps(policy, fields);
    forall domain, key ensures ValueAt(Restore(providers, left), domain, key) == ValueAt(fields, domain, key) {
      RestoreLookup(providers, left, domain, key);
      StaticValueAt(fields, domain, key);
      DeclaredFieldAt(policy, fields, domain, key);
    }
    forall domain ensures SameShapeAt(Restore(providers, left), fields, domain) {
      RestoreLookup(providers, left, domain, "");
      DeclaredFieldAt(policy, fields, domain, "");
      StaticShape(fields, domain);
      if Get(fields, domain).Some? && Get(fields, domain).value.Map? && Get(left, domain).None? {
        DroppedWasDeclared(policy, fields, domain);
      }
    }
  }

  lemma DeclarationsAreBelowMaps(policy: Policy, fields: Fields)
    requires WellFormedFields(fields) && TriggersAreMaps(fields)
    ensures forall p | p in Declarations(policy, fields) ::
      Get(StaticFields(fields), Place(p).0).Some? ==> Get(StaticFields(fields), Place(p).0).value.Map?
  {
    hide Registered, Get, Place, WellFormed, Declarations, StaticFields, TriggersAreMaps, DeclaredAt, ValueAt;
    forall p | p in Declarations(policy, fields)
      ensures Get(StaticFields(fields), Place(p).0).Some? ==> Get(StaticFields(fields), Place(p).0).value.Map?
    {
      var domain := Place(p).0;
      assert DeclaresIn(Declarations(policy, fields), domain);
      DeclaredFieldAt(policy, fields, domain, "");
      StaticShape(fields, domain);
    }
  }

  // ---------------------------------------------------------------- the static part stays valid

  lemma {:induction false} StaticMembers(domain: string, values: Fields)
    ensures forall v | v in StaticEntries(domain, values) :: v in values
  {
    hide Registered;
    if values != [] {
      StaticMembers(domain, values[1..]);
    }
  }

  lemma StaticEntriesConform(w: Walk, node: SchemaNode, domain: string, values: Fields)
    requires ValidSchemaNode(node) && ConformsFields(w, node, values, [])
    requires forall k | k in node.required :: Registered(domain, k).None?
    ensures ConformsFields(w, node, StaticEntries(domain, values), [])
  {
    hide Registered, Get, StaticEntries;
    StaticMembers(domain, values);
    forall v | v in StaticEntries(domain, values) ensures ConformsEntry(w, node, v, []) {
      assert ConformsEntry(w, node, v, []);
    }
    forall k | k in node.required && k !in [] ensures Has(StaticEntries(domain, values), k) {
      assert Has(values, k);
      StaticEntryLookup(domain, values, k);
    }
  }

  lemma {:induction false} StaticUntouched(domain: string, values: Fields)
    requires forall v | v in values :: Registered(domain, v.key).None?
    ensures StaticEntries(domain, values) == values
  {
    hide Registered;
    if values != [] {
      StaticUntouched(domain, values[1..]);
    }
  }

  /** A field that is not in a registered domain passes through the split. */
  lemma UnregisteredField(e: Entry<Value>)
    requires forall key :: Registered(e.key, key).None?
    ensures StaticField(e) == [e]
  {
    hide Registered;
    if e.value.Map? {
      StaticUntouched(e.key, e.value.entries);
      assert Entry(e.key, Map(e.value.entries)) == e;
    }
  }

  lemma {:induction false} StaticFieldMembers(fields: Fields, e: Entry<Value>)
    requires e in StaticFields(fields)
    ensures exists f | f in fields :: e in StaticField(f) && f.key == e.key
  {
    hide StaticEntries;
    if e !in StaticField(fields[0]) {
      assert e in StaticFields(fields[1..]);
      StaticFieldMembers(fields[1..], e);
    }
  }

  /** The hosted key is never required, whichever node describes its domain. */
  lemma HostedIsOptional(registry: SchemaRegistry, domain: string, node: SchemaNode)
    requires ValidRegistry(registry) && HostsAll(registry)
    requires match FindTrigger(registry.fragments, Some(domain))
             case Some(f) => node == f.root
             case None => Property(BaseRoot(registry), domain) == Some(node)
    ensures forall k | k in node.required :: Registered(domain, k).None?
  {
    hide Registered, Property, BaseRoot, ValidRegistry, FindTrigger;
    forall k | k in node.required ensures Registered(domain, k).None? {
      if Registered(domain, k).Some? {
        HostsRegistered(registry, domain, k);
      }
    }
  }

  lemma BaseFieldConforms(registry: SchemaRegistry, w: Walk, fields: Fields, e: Entry<Value>)
    requires ValidRegistry(registry) && HostsAll(registry)
    requires ConformsFields(w, BaseRoot(registry), fields, TriggerKeys(registry.fragments))
    requires e in StaticFields(fields)
    ensures ConformsEntry(w, BaseRoot(registry), e, TriggerKeys(registry.fragments))
  {
    hide Registered, Get, StaticFields, StaticEntries, ValidRegistry, BaseRoot, HostsAll, ConformsFields, TriggerKeys;
    if e.key !in TriggerKeys(registry.fragments) {
      StaticFieldMembers(fields, e);
      var f :| f in fields && e in StaticField(f) && f.key == e.key;
      BaseEntryConforms(w, BaseRoot(registry), fields, TriggerKeys(registry.fragments), f);
      TriggerKeysAre(registry.fragments, e.key);
      if forall key :: Registered(e.key, key).None? {
        UnregisteredField(f);
      } else {
        var key :| Registered(e.key, key).Some?;
        HostedDomain(registry, e.key, key);
        var node := Property(BaseRoot(registry), e.key).value;
        HostedIsOptional(registry, e.key, node);
        ObjectsHoldMaps(w, node, f.value);
        StaticEntriesConform(w, node, e.key, f.value.entries);
        assert e == Entry(e.key, Map(StaticEntries(e.key, f.value.entries)));
        MapsConform(w, node, StaticEntries(e.key, f.value.entries));
      }
    }
  }

  lemma HostedDomain(registry: SchemaRegistry, domain: string, key: string)
    requires ValidRegistry(registry) && HostsAll(registry) && Registered(domain, key).Some?
    requires FindTrigger(registry.fragments, Some(domain)).None?
    ensures Property(BaseRoot(registry), domain).Some? && domain !in BaseRoot(registry).required
    ensures ValidSchemaNode(Property(BaseRoot(registry), domain).value)
    ensures Property(BaseRoot(registry), domain).value.fieldType == Some(ObjectType)
  {
    hide Registered, Property, BaseRoot, ValidRegistry, FindTrigger;
    HostsRegistered(registry, domain, key);
    PropertyIsValid(BaseRoot(registry), domain);
  }

  lemma MapsConform(w: Walk, node: SchemaNode, entries: Fields)
    requires ValidSchemaNode(node) && node.fieldType == Some(ObjectType) && ConformsFields(w, node, entries, [])
    ensures Conforms(w, node, Map(entries))
  {
    hide ConformsFields;
  }

  /** A required base field outside the triggers survives the split. */
  lemma RequiredSurvives(registry: SchemaRegistry, fields: Fields, key: string)
    requires ValidRegistry(registry) && HostsAll(registry) && UniqueKeys(fields)
    requires key in BaseRoot(registry).required && key !in TriggerKeys(registry.fragments) && Has(fields, key)
    ensures Has(StaticFields(fields), key)
  {
    hide Registered, Get, StaticEntries, ValidRegistry, BaseRoot, HostsAll, TriggerKeys;
    StaticLookup(fields, key);
    TriggerKeysAre(registry.fragments, key);
    if forall k :: Registered(key, k).None? {
      UnregisteredField(Entry(key, Get(fields, key).value));
    } else {
      var k :| Registered(key, k).Some?;
      HostedDomain(registry, key, k);
    }
  }

  lemma StaticFragmentConforms(registry: SchemaRegistry, f: Fragment, s: State, t: State)
    requires ValidRegistry(registry) && HostsAll(registry) && DistinctTriggers(registry.fragments)
      && f in registry.fragments
    requires WellFormedFields(s.fields) && ConformsFragment(registry, f, s, true)
    requires t.fields == StaticFields(s.fields) && t.deviceType == s.deviceType
    ensures ConformsFragment(registry, f, t, true)
  {
    hide Registered, Get, StaticFields, StaticEntries, HostsAll, ConformsEntry, TriggerKeys, Conforms, WellFormed;
    var w := Walk(registry.text, f.name, true);
    OnlyTrigger(registry.fragments, f);
    match f.triggerKey {
      case None =>
        BaseRootIs(registry, f);
        var triggers := TriggerKeys(registry.fragments);
        forall e | e in t.fields ensures ConformsEntry(w, f.root, e, triggers) {
          BaseFieldConforms(registry, w, s.fields, e);
        }
        forall k | k in f.root.required && k !in triggers ensures Has(t.fields, k) {
          assert Has(s.fields, k);
          RequiredSurvives(registry, s.fields, k);
        }
      case Some(key) =>
        StaticLookup(s.fields, key);
        var found := Get(s.fields, key);
        if found.Some? {
          HostedIsOptional(registry, key, f.root);
          StaticEntriesConform(w, f.root, key, found.value.entries);
        }
    }
  }

  /** The static contribution still passes the composed writable schema. */
  lemma StaticStateConforms(registry: SchemaRegistry, s: State, t: State)
    requires ValidRegistry(registry) && HostsAll(registry) && DistinctTriggers(registry.fragments)
    requires WellFormedFields(s.fields) && ConformsState(registry, s, true)
    requires t.fields == StaticFields(s.fields) && t.deviceType == s.deviceType
    ensures ConformsState(registry, t, true)
  {
    hide HostsAll, ConformsFragment, WellFormedFields, StaticFields;
    forall f | f in registry.fragments ensures ConformsFragment(registry, f, t, true) {
      StaticFragmentConforms(registry, f, s, t);
    }
  }

  // ---------------------------------------------------------------- the theorem

  lemma ComposedIsPlain(text: IpText)
    ensures PlainRegistry(Composed(text)) && HostsAll(Composed(text))
  {
    hide ValidRegistry, PlainRegistry, Hosts, Embedded;
    EmbeddedIsPlain(text);
    SchemaRegistries.CallsKeepPlain(Embedded(text), PROVIDER_CALLS);
    ComposedHosts(text);
  }

  /** The state speaks for the policy's device, in the policy's name and at its priority. */
  ghost predicate IsContribution(policy: Policy, s: State) {
    && s.deviceType == policy.deviceType && s.matchSpec == policy.matchSpec && s.source == Static(policy.name)
    && s.priority == if policy.priority.Some? then policy.priority.value else 100
  }

  lemma {:induction false} GetAppended(fields: Fields, e: Entry<Value>, key: string)
    ensures Get(fields + [e], key)
         == if Get(fields, key).Some? then Get(fields, key) else if key == e.key then Some(e.value) else None
  {
    if fields == [] {
      assert fields + [e] == [e] && [e][1..] == [];
    } else {
      assert (fields + [e])[1..] == fields[1..] + [e];
      GetAppended(fields[1..], e, key);
    }
  }

  const EMPTY_IPV6: Entry<Value> := Entry("ipv6", Map([]))

  function WithEmptyIpv6(s: State): State {
    s.(fields := s.fields + [EMPTY_IPV6])
  }

  /** The embedded fragments do not know the `ipv6` domain. */
  lemma EmbeddedRejectsIpv6(text: IpText, s: State, value: Value)
    requires Entry("ipv6", value) in s.fields
    ensures Validate(Embedded(text), s) != []
  {
    hide ValidateFrom, Conforms, ValidSchemaNode, PlainBase, DotFree, DeriveFields, Get;
    var registry := Embedded(text);
    ValidatorIsCorrect(registry, s);
    BaseHasNoIpv6();
    var base := registry.fragments[0];
    IndexOfThree(base, registry.fragments[1], registry.fragments[2]);
    TriggerKeysAre(registry.fragments, "ipv6");
    assert !ConformsEntry(Walk(text, base.name, false), base.root, Entry("ipv6", value),
                          TriggerKeys(registry.fragments));
    assert !ConformsFragment(registry, base, s, false);
  }

  lemma EmptyObjectConforms(w: Walk, root: SchemaNode, ignored: seq<string>)
    requires ValidSchemaNode(root) && OpenObject(root, "ipv6")
    ensures ConformsEntry(w, root, EMPTY_IPV6, ignored)
  {
    PropertyIsValid(root, "ipv6");
    var node := Property(root, "ipv6").value;
    assert ConformsFields(w, node, [], []);
  }

  /** A fragment that accepts a state accepts it with an empty `ipv6` map appended. */
  lemma EmptyIpv6Fragment(registry: SchemaRegistry, f: Fragment, s: State)
    requires ValidRegistry(registry) && DistinctTriggers(registry.fragments) && f in registry.fragments
    requires FindTrigger(registry.fragments, Some("ipv6")).None? && OpenObject(BaseRoot(registry), "ipv6")
    requires ConformsFragment(registry, f, s, true)
    ensures ConformsFragment(registry, f, WithEmptyIpv6(s), true)
  {
    hide OpenObject, ConformsEntry, Conforms, Get, TriggerKeys, ValidSchemaNode;
    var t, w := WithEmptyIpv6(s), Walk(registry.text, f.name, true);
    OnlyTrigger(registry.fragments, f);
    FoundTrigger(registry.fragments, Some("ipv6"));
    if f.triggerKey.None? {
      BaseRootIs(registry, f);
      var triggers := TriggerKeys(registry.fragments);
      EmptyObjectConforms(w, f.root, triggers);
      forall e | e in t.fields ensures ConformsEntry(w, f.root, e, triggers) {
        assert e in s.fields || e == EMPTY_IPV6;
      }
      forall k | k in f.root.required && k !in triggers ensures Has(t.fields, k) {
        assert Has(s.fields, k);
        GetAppended(s.fields, EMPTY_IPV6, k);
      }
    } else {
      GetAppended(s.fields, EMPTY_IPV6, f.triggerKey.value);
    }
  }

  /**
   The composed registry accepts an explicit empty `ipv6` map in any state it accepts; the embedded
   one never does.
   */
  lemma EmptyIpv6NeedsTheComposedSchema(text: IpText, s: State)
    requires ValidateWritable(Composed(text), s) == []
    ensures ValidateWritable(Composed(text), WithEmptyIpv6(s)) == []
    ensures Validate(Embedded(text), WithEmptyIpv6(s)) != []
  {
    hide ValidateFrom, ConformsFragment, Composed, HostsAll, PlainBase, OpenObject, Hosts, Embedded, TriggerKeys;
    ComposedIsPlain(text);
    ComposedHosts(text);
    ValidatorIsCorrect(Composed(text), s);
    ValidatorIsCorrect(Composed(text), WithEmptyIpv6(s));
    forall f | f in Composed(text).fragments ensures ConformsFragment(Composed(text), f, WithEmptyIpv6(s), true) {
      EmptyIpv6Fragment(Composed(text), f, s);
    }
    assert EMPTY_IPV6 in WithEmptyIpv6(s).fields;
    EmbeddedRejectsIpv6(text, WithEmptyIpv6(s), Map([]));
  }

  lemma {:induction false} FieldStays(fields: Fields, e: Entry<Value>)
    requires e in fields && StaticField(e) == [e]
    ensures e in StaticFields(fields)
  {
    hide StaticEntries;
    if e != fields[0] {
      assert e in fields[1..];
      FieldStays(fields[1..], e);
    }
  }

  /** Production keeps an explicitly empty domain in the static state, though it drops one emptied of triggers. */
  lemma EmptyDomainsSurvive(text: IpText, policy: Policy, domain: string)
    requires WellFormedFields(policy.fields) && Produce(text, policy).Success?
    requires Entry(domain, Map([])) in policy.fields
    ensures var state := Produce(text, policy).value.state;
            state.Some? && Entry(domain, Map([])) in state.value.fields
  {
    hide ValidateFrom, Composed, TriggersAreMaps, WellFormed, Declarations, StaticFields, ValidRegistry;
    CandidateTriggersAreMaps(text, policy);
    EmptyFieldIsStatic(domain);
    FieldStays(policy.fields, Entry(domain, Map([])));
  }

  lemma EmptyFieldIsStatic(domain: string)
    ensures StaticField(Entry(domain, Map([]))) == [Entry(domain, Map([]))]
  {
  }

  /**
   A produced policy: its static state passes the composed writable schema and
   holds no trigger, its declarations name the policy and its device, and the
   two together hold exactly what the policy held.
   */
  lemma ProductionIsConservative(text: IpText, policy: Policy)
    requires WellFormedFields(policy.fields) && Produce(text, policy).Success?
    ensures var produced := Produce(text, policy).value;
            var fields := if produced.state.Some? then produced.state.value.fields else [];
            && (produced.state.Some? ==> ValidateWritable(Composed(text), produced.state.value) == [])
            && (produced.state.Some? ==> IsContribution(policy, produced.state.value))
            && (produced.state.None? ==> policy.deviceType == "" && produced.providers != [])
            && (forall domain, key | Registered(domain, key).Some? :: ValueAt(fields, domain, key).None?)
            && SameFields(Restore(produced.providers, fields), policy.fields)
  {
    hide ValidateFrom, ConformsState, Composed, HostsAll, PlainBase, TriggersAreMaps, WellFormed, Registered, ValueAt,
      StaticFields, Declarations, SameFields, Restore, ValidRegistry, TriggerKeys;
    ComposedIsPlain(text);
    var s := CandidateState(policy);
    var fields := StaticFields(policy.fields);
    ValidatorIsCorrect(Composed(text), s);
    CandidateTriggersAreMaps(text, policy);
    SplitConserves(policy, policy.fields);
    forall domain, key | Registered(domain, key).Some? ensures ValueAt(fields, domain, key).None? {
      StaticValueAt(policy.fields, domain, key);
    }
    var produced := Produce(text, policy).value;
    if produced.state.Some? {
      ValidatorIsCorrect(Composed(text), produced.state.value);
      StaticStateConforms(Composed(text), s, produced.state.value);
    }
  }
}
