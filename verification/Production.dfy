/** Splitting a policy into static state and provider declarations (policy lib.rs). */
module Production {
  import opened Wrappers
  import opened OrderedMaps
  import opened Values
  import opened Schemas
  import opened Conformance
  import opened Preparation
  import opened PreparationLaws
  import opened Providers

  /** External annotations stay on the policy and are outside the model. */
  datatype Policy = Policy(name: string, matchSpec: Match, deviceType: string, fields: Fields, priority: Option<int>)

  datatype ProviderDecl = ProviderDecl(
    kind: string,
    source: ProviderSource,
    policy: string,
    location: string,
    priority: int,
    params: Fields,
    matchSpec: Match,
    deviceType: string)

  datatype Produced = Produced(state: Option<State>, providers: seq<ProviderDecl>)

  datatype PolicyError =
    | EmptyName
    | DuplicateName(name: string)
    | MissingMatch
    | Invalid(errors: seq<ValidationError>)
    | EmptyPolicy

  function CandidateState(policy: Policy): State {
    NewState(Static(policy.name)).(matchSpec := policy.matchSpec, deviceType := policy.deviceType,
                                   fields := policy.fields)
  }

  function Declare(policy: Policy, r: Registration, params: Fields): ProviderDecl {
    ProviderDecl(r.kind, r.source, policy.name, r.Location(), r.source.DefaultPriority(), params, policy.matchSpec,
                 policy.deviceType)
  }

  // ---------------------------------------------------------------- the split

  /** Every registered trigger holds a parameter map. */
  ghost predicate TriggersAreMaps(fields: Fields) {
    forall e | e in fields && e.value.Map? :: DomainTriggersAreMaps(e.key, e.value.entries)
  }

  ghost predicate DomainTriggersAreMaps(domain: string, values: Fields) {
    forall v | v in values && Registered(domain, v.key).Some? :: v.value.Map?
  }

  function StaticEntry(domain: string, v: Entry<Value>): Fields {
    if Registered(domain, v.key).Some? then [] else [v]
  }

  function StaticEntries(domain: string, values: Fields): Fields {
    if values == [] then [] else StaticEntry(domain, values[0]) + StaticEntries(domain, values[1..])
  }

  function DeclaredEntry(policy: Policy, domain: string, v: Entry<Value>): seq<ProviderDecl>
    requires Registered(domain, v.key).Some? ==> v.value.Map?
  {
    match Registered(domain, v.key)
    case None => []
    case Some(r) => [Declare(policy, r, v.value.entries)]
  }

  function DeclaredEntries(policy: Policy, domain: string, values: Fields): seq<ProviderDecl>
    requires DomainTriggersAreMaps(domain, values)
  {
    if values == [] then []
    else
      assert values[0] in values;
      DeclaredEntry(policy, domain, values[0]) + DeclaredEntries(policy, domain, values[1..])
  }

  /** A domain that held nothing but triggers goes with them; one that was empty stays. */
  function StaticField(e: Entry<Value>): Fields {
    if e.value.Map? then
      var left := StaticEntries(e.key, e.value.entries);
      if left == [] && e.value.entries != [] then [] else [Entry(e.key, Map(left))]
    else [e]
  }

  function DeclaredField(policy: Policy, e: Entry<Value>): seq<ProviderDecl>
    requires e.value.Map? ==> DomainTriggersAreMaps(e.key, e.value.entries)
  {
    if e.value.Map? then DeclaredEntries(policy, e.key, e.value.entries) else []
  }

  function StaticFields(fields: Fields): Fields {
    if fields == [] then [] else StaticField(fields[0]) + StaticFields(fields[1..])
  }

  function Declarations(policy: Policy, fields: Fields): seq<ProviderDecl>
    requires TriggersAreMaps(fields)
  {
    if fields == [] then []
    else
      assert fields[0] in fields;
      DeclaredField(policy, fields[0]) + Declarations(policy, fields[1..])
  }

  function StaticState(policy: Policy, fields: Fields): State {
    var source := Static(policy.name);
    var priority := match policy.priority case Some(p) => p case None => source.DefaultPriority();
    State(policy.deviceType, policy.matchSpec, fields, source, priority)
  }

  // ---------------------------------------------------------------- validation makes every trigger a map

  ghost predicate HostsAll(registry: SchemaRegistry)
    requires ValidRegistry(registry)
  {
    Hosts(registry, DHCP4) && Hosts(registry, DHCP6) && Hosts(registry, RA)
  }

  lemma HostsRegistered(registry: SchemaRegistry, domain: string, key: string)
    requires ValidRegistry(registry) && HostsAll(registry) && Registered(domain, key).Some?
    ensures Hosts(registry, Registered(domain, key).value)
    ensures Registered(domain, key).value.domain == domain && Registered(domain, key).value.key == key
  {
    hide Hosts;
  }

  lemma ObjectsHoldMaps(w: Walk, node: SchemaNode, value: Value)
    requires ValidSchemaNode(node) && node.fieldType == Some(ObjectType) && Conforms(w, node, value)
    ensures value.Map? && ConformsFields(w, node, value.entries, [])
  {
    hide ConformsFields;
  }

  lemma KeyHoldsMap(w: Walk, node: SchemaNode, values: Fields, v: Entry<Value>)
    requires ValidSchemaNode(node) && ConformsFields(w, node, values, []) && v in values && HostsKey(node, v.key)
    ensures v.value.Map?
  {
    assert ConformsEntry(w, node, v, []);
    PropertyIsValid(node, v.key);
    ObjectsHoldMaps(w, Property(node, v.key).value, v.value);
  }

  /** What a conforming state holds at a domain conforms to the node that describes the domain. */
  lemma DomainConforms(registry: SchemaRegistry, s: State, e: Entry<Value>, p: Registration)
    requires ValidRegistry(registry) && Hosts(registry, p) && WellFormedFields(s.fields)
    requires ConformsState(registry, s, true) && e in s.fields && e.key == p.domain
    ensures e.value.Map?
    ensures exists w, node ::
              ValidSchemaNode(node) && HostsKey(node, p.key) && ConformsFields(w, node, e.value.entries, [])
  {
    hide WellFormedFields, ConformsFields, HostsKey, Get, Conforms;
    GetUnique(s.fields, e);
    FoundTrigger(registry.fragments, Some(p.domain));
    FoundTrigger(registry.fragments, None);
    TriggerKeysAre(registry.fragments, p.domain);
    match FindTrigger(registry.fragments, Some(p.domain)) {
      case Some(f) =>
        assert ConformsFragment(registry, f, s, true);
        assert ConformsFields(Walk(registry.text, f.name, true), f.root, e.value.entries, []);
      case None =>
        var base := FindTrigger(registry.fragments, None).value;
        var w := Walk(registry.text, base.name, true);
        assert ConformsFragment(registry, base, s, true);
        BaseEntryConforms(w, base.root, s.fields, TriggerKeys(registry.fragments), e);
        PropertyIsValid(base.root, p.domain);
        ObjectsHoldMaps(w, Property(base.root, p.domain).value, e.value);
        assert ConformsFields(w, Property(base.root, p.domain).value, e.value.entries, []);
    }
  }

  lemma BaseEntryConforms(w: Walk, node: SchemaNode, fields: Fields, ignored: seq<string>, e: Entry<Value>)
    requires ValidSchemaNode(node) && ConformsFields(w, node, fields, ignored) && e in fields && e.key !in ignored
    ensures ConformsEntry(w, node, e, ignored)
    ensures Property(node, e.key).Some? ==>
      ValidSchemaNode(Property(node, e.key).value) && Conforms(w, Property(node, e.key).value, e.value)
  {
    hide Conforms;
    if Property(node, e.key).Some? {
      PropertyIsValid(node, e.key);
    }
  }

  /** The split never meets a trigger that is not a map, so its assertion cannot fail. */
  lemma ValidTriggersAreMaps(registry: SchemaRegistry, s: State)
    requires ValidRegistry(registry) && HostsAll(registry) && WellFormedFields(s.fields)
    requires ConformsState(registry, s, true)
    ensures TriggersAreMaps(s.fields)
  {
    hide ValidRegistry, HostsAll, Hosts, ConformsState, WellFormedFields, ConformsFields, HostsKey, ValidSchemaNode,
      Registered;
    forall e | e in s.fields && e.value.Map? ensures DomainTriggersAreMaps(e.key, e.value.entries) {
      forall v | v in e.value.entries && Registered(e.key, v.key).Some? ensures v.value.Map? {
        var p := Registered(e.key, v.key).value;
        HostsRegistered(registry, e.key, v.key);
        DomainConforms(registry, s, e, p);
        var w, node :| ValidSchemaNode(node) && HostsKey(node, p.key) && ConformsFields(w, node, e.value.entries, []);
        KeyHoldsMap(w, node, e.value.entries, v);
      }
    }
  }

  // ---------------------------------------------------------------- production

  function Produce(text: IpText, policy: Policy): Result<Produced, PolicyError>
    requires WellFormedFields(policy.fields)
  {
    if policy.name == "" then Failure(EmptyName)
    else if policy.matchSpec.IsEmpty() then Failure(MissingMatch)
    else
      var errors := ValidateWritable(Composed(text), CandidateState(policy));
      if errors != [] then Failure(PolicyError.Invalid(errors))
      else
        CandidateTriggersAreMaps(text, policy);
        var fields, providers := StaticFields(policy.fields), Declarations(policy, policy.fields);
        var hasState := fields != [] || policy.deviceType != "";
        if !hasState && providers == [] then Failure(EmptyPolicy)
        else Success(Produced(if hasState then Some(StaticState(policy, fields)) else None, providers))
  }

  lemma CandidateTriggersAreMaps(text: IpText, policy: Policy)
    requires WellFormedFields(policy.fields)
    requires ValidateWritable(Composed(text), CandidateState(policy)) == []
    ensures TriggersAreMaps(policy.fields)
  {
    hide ValidateWritable, ConformsState, Composed, Hosts, TriggersAreMaps, WellFormedFields;
    ComposedHosts(text);
    ValidatorIsCorrect(Composed(text), CandidateState(policy));
    ValidTriggersAreMaps(Composed(text), CandidateState(policy));
  }

  // ---------------------------------------------------------------- production in place

  lemma {:induction false} StaticKeys(domain: string, values: Fields, key: string)
    requires forall v | v in values :: v.key != key
    ensures forall v | v in StaticEntries(domain, values) :: v.key != key
  {
    hide Registered;
    if values != [] {
      StaticKeys(domain, values[1..], key);
    }
  }

  lemma {:induction false} StaticConcat(domain: string, a: Fields, b: Fields)
    ensures StaticEntries(domain, a + b) == StaticEntries(domain, a) + StaticEntries(domain, b)
  {
    hide StaticEntry;
    if a == [] {
      assert a + b == b;
    } else {
      StaticConcat(domain, a[1..], b);
      assert (a + b)[1..] == a[1..] + b;
    }
  }

  lemma KeysBefore(values: Fields, i: nat)
    requires i < |values| && WellFormedFields(values)
    ensures forall x | x in values[..i] :: x.key != values[i].key
    ensures values[i] in values && WellFormed(values[i].value)
    ensures values[i..][1..] == values[i + 1..] && values[i..] == [values[i]] + values[i + 1..]
  {
    hide WellFormed;
    assert values[i] in values;
    forall x | x in values[..i] ensures x.key != values[i].key {
      var j :| 0 <= j < i && values[j] == x;
    }
  }

  lemma EntryCursor(domain: string, values: Fields, i: nat)
    requires i < |values| && WellFormedFields(values)
    ensures forall v | v in StaticEntries(domain, values[..i]) :: v.key != values[i].key
    ensures StaticEntries(domain, values[..i + 1])
      == StaticEntries(domain, values[..i]) + StaticEntry(domain, values[i])
    ensures StaticEntries(domain, values[..i]) + values[i..]
         == StaticEntries(domain, values[..i]) + [Entry(values[i].key, values[i].value)] + values[i + 1..]
  {
    hide StaticEntry, WellFormedFields;
    KeysBefore(values, i);
    StaticKeys(domain, values[..i], values[i].key);
    assert values[..i + 1] == values[..i] + [values[i]];
    StaticConcat(domain, values[..i], [values[i]]);
    assert [values[i]][1..] == [];
  }

  /** Take one key out of a domain's map if it is a trigger. */
  method SplitKey(policy: Policy, domain: string, values: Fields, key: string,
                  ghost before: Fields, ghost value: Value, ghost after: Fields)
    returns (left: Fields, providers: seq<ProviderDecl>)
    requires values == before + [Entry(key, value)] + after && forall v | v in before :: v.key != key
    requires Registered(domain, key).Some? ==> value.Map?
    ensures left == before + StaticEntry(domain, Entry(key, value)) + after
    ensures providers == DeclaredEntry(policy, domain, Entry(key, value))
  {
    hide Registered, Get, Remove, Declare;
    left, providers := values, [];
    var registration := Registered(domain, key);
    if registration.Some? {
      GetMiddle(before, Entry(key, value), after);
      RemoveMiddle(before, Entry(key, value), after);
      var params := Get(values, key).value;
      left := Remove(values, key);
      providers := [Declare(policy, registration.value, params.entries)];
      assert before + [] + after == before + after;
    }
  }

  lemma DeclaredNext(policy: Policy, domain: string, values: Fields, i: nat)
    requires i < |values| && DomainTriggersAreMaps(domain, values)
    ensures DomainTriggersAreMaps(domain, values[i..]) && DomainTriggersAreMaps(domain, values[i + 1..])
    ensures Registered(domain, values[i].key).Some? ==> values[i].value.Map?
    ensures DeclaredEntries(policy, domain, values[i..])
         == DeclaredEntry(policy, domain, Entry(values[i].key, values[i].value))
           + DeclaredEntries(policy, domain, values[i + 1..])
  {
    hide DeclaredEntry, Registered;
    assert values[i] in values;
    assert values[i..][1..] == values[i + 1..];
    assert Entry(values[i].key, values[i].value) == values[i..][0];
  }

  /** Take the triggers out of one domain's map, key by key. */
  method SplitDomain(policy: Policy, domain: string, values: Fields)
    returns (left: Fields, providers: seq<ProviderDecl>, removedAny: bool)
    requires WellFormedFields(values) && DomainTriggersAreMaps(domain, values)
    ensures left == StaticEntries(domain, values) && providers == DeclaredEntries(policy, domain, values)
    ensures left == [] ==> removedAny == (values != [])
  {
    hide WellFormedFields, Registered, StaticEntry, StaticEntries, DeclaredEntry, DeclaredEntries,
      DomainTriggersAreMaps;
    left, providers, removedAny := values, [], false;
    NothingDeclared(policy, domain, values);
    for i := 0 to |values|
      invariant left == StaticEntries(domain, values[..i]) + values[i..]
      invariant DomainTriggersAreMaps(domain, values[i..])
      invariant providers + DeclaredEntries(policy, domain, values[i..]) == DeclaredEntries(policy, domain, values)
      invariant !removedAny ==> left == values
      invariant removedAny ==> values != []
    {
      EntryCursor(domain, values, i);
      DeclaredNext(policy, domain, values, i);
      var declared;
      ghost var previous := left;
      ghost var done, rest := StaticEntries(domain, values[..i]), values[i + 1..];
      left, declared := SplitKey(policy, domain, left, values[i].key, done, values[i].value, rest);
      removedAny := removedAny || declared != [];
      providers := providers + declared;
      NotRemoved(policy, domain, values[i]);
    }
    assert values[..|values|] == values;
  }

  lemma NothingDeclared(policy: Policy, domain: string, values: Fields)
    ensures StaticEntries(domain, []) == []
    ensures DomainTriggersAreMaps(domain, values[|values|..])
      && DeclaredEntries(policy, domain, values[|values|..]) == []
    ensures values[0..] == values
  {
  }

  lemma NotRemoved(policy: Policy, domain: string, v: Entry<Value>)
    requires Registered(domain, v.key).Some? ==> v.value.Map?
    ensures DeclaredEntry(policy, domain, Entry(v.key, v.value)) == [] ==> StaticEntry(domain, v) == [v]
  {
  }
}
