/** What a policy is split into: each declaration and each static field, in the policy's order (policy lib.rs). */
module ProducedParts {
  import opened Wrappers
  import opened OrderedMaps
  import opened Subsequences
  import opened Values
  import opened Schemas
  import opened Providers
  import opened Production

  // ---------------------------------------------------------------- declarations

  /** The three triggers: their kind, family and priority. */
  ghost predicate Triggers(domain: string, key: string, kind: string, source: ProviderSource, priority: int) {
    || (domain == "ipv4" && key == "dhcp4" && kind == "dhcp4" && source == DhcpProvider && priority == 50)
    || (domain == "ipv6" && key == "dhcp6" && kind == "dhcp6" && source == DhcpProvider && priority == 50)
    || (domain == "ipv6" && key == "ra" && kind == "ra" && source == RaProvider && priority == 25)
  }

  predicate IsTrigger(domain: string, key: string) {
    || (domain == "ipv4" && key == "dhcp4")
    || (domain == "ipv6" && (key == "dhcp6" || key == "ra"))
  }

  /** The declaration of a trigger: the policy's name, match and type, the trigger's place, and its parameters. */
  ghost predicate IsDeclaration(policy: Policy, domain: string, v: Entry<Value>, d: ProviderDecl) {
    && Triggers(domain, v.key, d.kind, d.source, d.priority)
    && d.location == domain + "." + v.key
    && d.policy == policy.name && d.matchSpec == policy.matchSpec && d.deviceType == policy.deviceType
    && v.value == Map(d.params)
  }

  lemma TriggersAreRegistered(domain: string, key: string)
    ensures Registered(domain, key).Some? <==> IsTrigger(domain, key)
    ensures Registered(domain, key).Some? ==>
              var r := Registered(domain, key).value;
              && Triggers(domain, key, r.kind, r.source, r.source.DefaultPriority())
              && r.Location() == domain + "." + key
  {
  }

  /** The value number `value` in the map of the field number `field`. */
  datatype Spot = Spot(field: nat, value: nat)

  predicate Precedes(a: Spot, b: Spot) {
    a.field < b.field || (a.field == b.field && a.value < b.value)
  }

  predicate HoldsTriggerAt(fields: Fields, p: Spot) {
    && p.field < |fields| && fields[p.field].value.Map?
    && p.value < |fields[p.field].value.entries|
    && IsTrigger(fields[p.field].key, fields[p.field].value.entries[p.value].key)
  }

  ghost predicate DeclaresAt(policy: Policy, fields: Fields, p: Spot, d: ProviderDecl) {
    && HoldsTriggerAt(fields, p)
    && IsDeclaration(policy, fields[p.field].key, fields[p.field].value.entries[p.value], d)
  }

  /** Which values of a map are triggers. */
  function AreTriggers(domain: string, values: Fields): (r: seq<bool>)
    ensures |r| == |values|
    ensures forall i | 0 <= i < |r| :: r[i] <==> IsTrigger(domain, values[i].key)
  {
    seq(|values|, i requires 0 <= i < |values| => IsTrigger(domain, values[i].key))
  }

  ghost predicate AreDeclared(policy: Policy, domain: string, triggers: Fields, providers: seq<ProviderDecl>) {
    && |triggers| == |providers|
    && forall k | 0 <= k < |triggers| :: IsDeclaration(policy, domain, triggers[k], providers[k])
  }

  lemma DeclaredNext(policy: Policy, domain: string, v: Entry<Value>, triggers: Fields, providers: seq<ProviderDecl>)
    requires AreDeclared(policy, domain, triggers, providers)
    requires Registered(domain, v.key).Some? ==> v.value.Map?
    ensures AreDeclared(policy, domain, (if IsTrigger(domain, v.key) then [v] else []) + triggers,
                        DeclaredEntry(policy, domain, v) + providers)
  {
    hide Registered, IsTrigger, Triggers;
    TriggersAreRegistered(domain, v.key);
  }

  lemma {:induction false} DeclaredArePicked(policy: Policy, domain: string, values: Fields)
    requires DomainTriggersAreMaps(domain, values)
    ensures AreDeclared(policy, domain, Picked(values, AreTriggers(domain, values)),
                        DeclaredEntries(policy, domain, values))
  {
    hide Registered, IsTrigger, AreDeclared, Picked, DeclaredEntry;
    if values == [] {
      NothingDeclared(policy, domain);
    } else {
      var tail := values[1..];
      assert values == [values[0]] + tail;
      DeclaredArePicked(policy, domain, tail);
      var triggers := AreTriggers(domain, values);
      PickedHead(values, triggers);
      assert triggers[1..] == AreTriggers(domain, tail);
      DeclaredNext(policy, domain, values[0], Picked(tail, triggers[1..]), DeclaredEntries(policy, domain, tail));
    }
  }

  lemma NothingDeclared(policy: Policy, domain: string)
    ensures AreDeclared(policy, domain, Picked([], AreTriggers(domain, [])), [])
  {
  }

  function OfFirst(at: seq<nat>): (r: seq<Spot>)
    ensures |r| == |at|
    ensures forall k | 0 <= k < |r| :: r[k] == Spot(0, at[k])
  {
    seq(|at|, k requires 0 <= k < |at| => Spot(0, at[k]))
  }

  function OneFurther(spots: seq<Spot>): (r: seq<Spot>)
    ensures |r| == |spots|
    ensures forall k | 0 <= k < |r| :: r[k] == Spot(spots[k].field + 1, spots[k].value)
  {
    seq(|spots|, k requires 0 <= k < |spots| => Spot(spots[k].field + 1, spots[k].value))
  }

  lemma FurtherHolds(fields: Fields, p: Spot)
    requires fields != []
    ensures HoldsTriggerAt(fields[1..], p) <==> HoldsTriggerAt(fields, Spot(p.field + 1, p.value))
    ensures HoldsTriggerAt(fields[1..], p) ==> fields[1..][p.field] == fields[p.field + 1]
  {
    hide IsTrigger;
  }

  ghost predicate DeclaresInOrder(policy: Policy, fields: Fields, providers: seq<ProviderDecl>, spots: seq<Spot>) {
    && |spots| == |providers|
    && (forall k | 0 <= k < |spots| :: DeclaresAt(policy, fields, spots[k], providers[k]))
    && (forall k, l | 0 <= k < l < |spots| :: Precedes(spots[k], spots[l]))
    && (forall p | HoldsTriggerAt(fields, p) :: p in spots)
  }

  lemma HeadDeclares(policy: Policy, fields: Fields) returns (spots: seq<Spot>)
    requires fields != [] && (fields[0].value.Map? ==> DomainTriggersAreMaps(fields[0].key, fields[0].value.entries))
    ensures |spots| == |DeclaredField(policy, fields[0])|
    ensures forall k | 0 <= k < |spots| ::
              spots[k].field == 0 && DeclaresAt(policy, fields, spots[k], DeclaredField(policy, fields[0])[k])
    ensures forall k, l | 0 <= k < l < |spots| :: Precedes(spots[k], spots[l])
    ensures forall p | HoldsTriggerAt(fields, p) && p.field == 0 :: p in spots
  {
    hide IsTrigger, DeclaredEntries, DomainTriggersAreMaps, Triggers;
    var e := fields[0];
    if !e.value.Map? {
      return [];
    }
    DeclaredArePicked(policy, e.key, e.value.entries);
    var at := PickedAt(e.value.entries, AreTriggers(e.key, e.value.entries));
    spots := OfFirst(at);
    forall k | 0 <= k < |spots| ensures DeclaresAt(policy, fields, spots[k], DeclaredField(policy, e)[k]) {
      DeclaredIsTrigger(policy, e.key, e.value.entries[at[k]], DeclaredField(policy, e)[k]);
    }
    forall p | HoldsTriggerAt(fields, p) && p.field == 0 ensures p in spots {
      var k :| 0 <= k < |at| && at[k] == p.value;
      assert spots[k] == p;
    }
  }

  lemma DeclaredIsTrigger(policy: Policy, domain: string, v: Entry<Value>, d: ProviderDecl)
    requires IsDeclaration(policy, domain, v, d)
    ensures IsTrigger(domain, v.key)
  {
  }

  lemma DeclaresNext(policy: Policy, fields: Fields, first: seq<Spot>, rest: seq<Spot>,
                     own: seq<ProviderDecl>, others: seq<ProviderDecl>)
    requires fields != [] && |first| == |own|
    requires forall k | 0 <= k < |first| :: first[k].field == 0 && DeclaresAt(policy, fields, first[k], own[k])
    requires forall k, l | 0 <= k < l < |first| :: Precedes(first[k], first[l])
    requires forall p | HoldsTriggerAt(fields, p) && p.field == 0 :: p in first
    requires DeclaresInOrder(policy, fields[1..], others, rest)
    ensures DeclaresInOrder(policy, fields, own + others, first + OneFurther(rest))
  {
    hide IsTrigger, IsDeclaration, HoldsTriggerAt, OneFurther;
    var spots, all, n := first + OneFurther(rest), own + others, |first|;
    forall k | 0 <= k < |spots| ensures DeclaresAt(policy, fields, spots[k], all[k]) {
      if k >= n {
        assert DeclaresAt(policy, fields[1..], rest[k - n], others[k - n]);
        FurtherHolds(fields, rest[k - n]);
      }
    }
    forall k, l | 0 <= k < l < |spots| ensures Precedes(spots[k], spots[l]) {
      assert k >= n ==> Precedes(rest[k - n], rest[l - n]);
    }
    forall p | HoldsTriggerAt(fields, p) ensures p in spots {
      if p.field > 0 {
        var q := Spot(p.field - 1, p.value);
        FurtherHolds(fields, q);
        var k :| 0 <= k < |rest| && rest[k] == q;
        assert spots[n + k] == p;
      }
    }
  }

  /** One declaration for every trigger, in the order of the policy's fields and of each field's keys. */
  lemma {:induction false} DeclarationsAre(policy: Policy, fields: Fields) returns (spots: seq<Spot>)
    requires TriggersAreMaps(fields)
    ensures DeclaresInOrder(policy, fields, Declarations(policy, fields), spots)
  {
    hide DeclaredField, DomainTriggersAreMaps, DeclaresAt, DeclaresInOrder, HoldsTriggerAt, Precedes;
    if fields == [] {
      NoTriggers(policy);
      return [];
    }
    var tail := fields[1..];
    assert fields == [fields[0]] + tail;
    var first := HeadDeclares(policy, fields);
    var rest := DeclarationsAre(policy, tail);
    spots := first + OneFurther(rest);
    DeclaresNext(policy, fields, first, rest, DeclaredField(policy, fields[0]), Declarations(policy, tail));
  }

  lemma NoTriggers(policy: Policy)
    ensures DeclaresInOrder(policy, [], [], [])
  {
  }

  // ---------------------------------------------------------------- static fields

  /** Which values of a map are no triggers. */
  function NoTrigger(domain: string, values: Fields): (r: seq<bool>)
    ensures |r| == |values|
    ensures forall i | 0 <= i < |r| :: r[i] <==> !IsTrigger(domain, values[i].key)
  {
    seq(|values|, i requires 0 <= i < |values| => !IsTrigger(domain, values[i].key))
  }

  predicate HoldsOnlyTriggers(e: Entry<Value>) {
    e.value.Map? && e.value.entries != [] && forall v | v in e.value.entries :: IsTrigger(e.key, v.key)
  }

  /** A map without its triggers, its other values in order; anything else as it was. */
  ghost predicate IsStaticPart(e: Entry<Value>, left: Entry<Value>) {
    if e.value.Map?
    then left == Entry(e.key, Map(Picked(e.value.entries, NoTrigger(e.key, e.value.entries))))
    else left == e
  }

  function Stays(fields: Fields): (r: seq<bool>)
    ensures |r| == |fields|
    ensures forall i | 0 <= i < |r| :: r[i] <==> !HoldsOnlyTriggers(fields[i])
  {
    seq(|fields|, i requires 0 <= i < |fields| => !HoldsOnlyTriggers(fields[i]))
  }

  lemma {:induction false} StaticEntriesArePicked(domain: string, values: Fields)
    ensures StaticEntries(domain, values) == Picked(values, NoTrigger(domain, values))
  {
    hide IsTrigger, Registered;
    if values != [] {
      TriggersAreRegistered(domain, values[0].key);
      StaticEntriesArePicked(domain, values[1..]);
      PickedHead(values, NoTrigger(domain, values));
      assert NoTrigger(domain, values)[1..] == NoTrigger(domain, values[1..]);
    }
  }

  lemma StaticFieldIs(e: Entry<Value>)
    ensures if HoldsOnlyTriggers(e) then StaticField(e) == []
            else |StaticField(e)| == 1 && IsStaticPart(e, StaticField(e)[0])
  {
    hide IsTrigger;
    if e.value.Map? {
      var values := e.value.entries;
      StaticEntriesArePicked(e.key, values);
      var at := PickedAt(values, NoTrigger(e.key, values));
      if HoldsOnlyTriggers(e) {
        assert forall i | 0 <= i < |values| :: values[i] in values;
        SomethingKept(NoTrigger(e.key, values), at);
      } else if v :| v in values && !IsTrigger(e.key, v.key) {
        var i: nat :| i < |values| && values[i] == v;
        assert i in at;
      }
    }
  }

  ghost predicate AreStaticParts(fields: Fields, left: Fields) {
    |fields| == |left| && forall k | 0 <= k < |left| :: IsStaticPart(fields[k], left[k])
  }

  lemma StaticNext(e: Entry<Value>, fields: Fields, left: Fields)
    requires AreStaticParts(fields, left)
    ensures AreStaticParts((if HoldsOnlyTriggers(e) then [] else [e]) + fields, StaticField(e) + left)
  {
    hide StaticField, IsStaticPart, HoldsOnlyTriggers;
    StaticFieldIs(e);
  }

  /** The fields that stay, in the policy's order: all but the maps that held triggers and nothing else. */
  lemma {:induction false} StaticFieldsAre(fields: Fields)
    ensures AreStaticParts(Picked(fields, Stays(fields)), StaticFields(fields))
  {
    hide StaticField, HoldsOnlyTriggers, AreStaticParts, Picked;
    if fields == [] {
      NothingStays();
    } else {
      var tail := fields[1..];
      StaticFieldsAre(tail);
      PickedHead(fields, Stays(fields));
      assert Stays(fields)[1..] == Stays(tail);
      StaticNext(fields[0], Picked(tail, Stays(tail)), StaticFields(tail));
    }
  }

  lemma NothingStays()
    ensures AreStaticParts(Picked([], Stays([])), [])
  {
  }

  // ---------------------------------------------------------------- production

  lemma {:induction false} OneDeclarationAtLeast(policy: Policy, fields: Fields)
    requires TriggersAreMaps(fields) && StaticFields(fields) == [] && fields != []
    ensures Declarations(policy, fields) != []
  {
    hide HoldsTriggerAt, DeclaresAt, Declarations, StaticFields, IsTrigger;
    StaticFieldsAre(fields);
    var spots := DeclarationsAre(policy, fields);
    var at := PickedAt(fields, Stays(fields));
    NoneKept(Stays(fields), at);
    assert HoldsOnlyTriggers(fields[0]);
    HeadHoldsTrigger(fields);
  }

  lemma HeadHoldsTrigger(fields: Fields)
    requires fields != [] && HoldsOnlyTriggers(fields[0])
    ensures HoldsTriggerAt(fields, Spot(0, 0))
  {
    hide IsTrigger;
    assert fields[0].value.entries[0] in fields[0].value.entries;
  }

  /** When production fails, and with what: in this order, and nothing else is wrong with a policy. */
  lemma ProductionErrors(text: IpText, policy: Policy)
    requires WellFormedFields(policy.fields)
    ensures var result := Produce(text, policy);
            var named := policy.name != "";
            var matches := policy.matchSpec != Match(None, None, None, None, None);
            var errors := ValidateWritable(Composed(text), CandidateState(policy));
            var empty := policy.fields == [] && policy.deviceType == "";
            && (result == Failure(EmptyName) <==> !named)
            && (result == Failure(MissingMatch) <==> named && !matches)
            && (forall e :: result == Failure(PolicyError.Invalid(e)) <==> named && matches && e == errors && e != [])
            && (result == Failure(EmptyPolicy) <==> named && matches && errors == [] && empty)
            && (result.Success? <==> named && matches && errors == [] && !empty)
  {
    hide ValidateWritable, Composed, CandidateState, StaticFields, Declarations, TriggersAreMaps, WellFormedFields,
      ValidRegistry;
    if policy.name != "" && !policy.matchSpec.IsEmpty() {
      if ValidateWritable(Composed(text), CandidateState(policy)) == [] {
        CandidateTriggersAreMaps(text, policy);
        if policy.fields != [] && StaticFields(policy.fields) == [] {
          OneDeclarationAtLeast(policy, policy.fields);
        }
        NothingProduced(policy);
      }
    }
  }

  lemma NothingProduced(policy: Policy)
    ensures StaticFields([]) == []
    ensures TriggersAreMaps([]) && Declarations(policy, []) == []
  {
  }

  /** A policy's static state is left out exactly if it gives no type and all its fields are maps of triggers. */
  lemma StateIsLeftOut(text: IpText, policy: Policy)
    requires WellFormedFields(policy.fields) && Produce(text, policy).Success?
    ensures Produce(text, policy).value.state == None <==>
            policy.deviceType == "" && forall e | e in policy.fields :: HoldsOnlyTriggers(e)
  {
    hide ValidateWritable, Composed, CandidateState, StaticFields, Declarations, TriggersAreMaps, WellFormedFields,
      ValidRegistry, HoldsOnlyTriggers;
    CandidateTriggersAreMaps(text, policy);
    StaticFieldsAre(policy.fields);
    var at := PickedAt(policy.fields, Stays(policy.fields));
    SomethingKept(Stays(policy.fields), at);
    if at == [] {
      NoneKept(Stays(policy.fields), at);
    }
  }
}
