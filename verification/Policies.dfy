/** Producing policies and sets of policies (policy lib.rs). */
module Policies {
  import opened Wrappers
  import opened OrderedMaps
  import opened Values
  import opened Schemas
  import opened Providers
  import opened Production

  lemma {:induction false} FieldKeys(fields: Fields, key: string)
    requires forall e | e in fields :: e.key != key
    ensures forall e | e in StaticFields(fields) :: e.key != key
  {
    hide StaticEntries;
    if fields != [] {
      FieldKeys(fields[1..], key);
    }
  }

  lemma {:induction false} FieldConcat(a: Fields, b: Fields)
    ensures StaticFields(a + b) == StaticFields(a) + StaticFields(b)
  {
    hide StaticField;
    if a == [] {
      assert a + b == b;
    } else {
      FieldConcat(a[1..], b);
      assert (a + b)[1..] == a[1..] + b && (a + b)[0] == a[0];
      var head, middle, tail := StaticField(a[0]), StaticFields(a[1..]), StaticFields(b);
      assert head + (middle + tail) == (head + middle) + tail;
    }
  }

  lemma FieldCursor(fields: Fields, i: nat)
    requires i < |fields| && WellFormedFields(fields)
    ensures forall e | e in StaticFields(fields[..i]) :: e.key != fields[i].key
    ensures StaticFields(fields[..i + 1]) == StaticFields(fields[..i]) + StaticField(fields[i])
    ensures WellFormed(fields[i].value)
  {
    hide StaticField, StaticFields, WellFormedFields, WellFormed;
    KeysBefore(fields, i);
    FieldKeys(fields[..i], fields[i].key);
    assert fields[..i + 1] == fields[..i] + [fields[i]];
    FieldConcat(fields[..i], [fields[i]]);
    OneField(fields[i]);
  }

  /** The entry under the cursor, between what is done and what is left to do. */
  lemma Between(done: Fields, fields: Fields, i: nat)
    requires i < |fields|
    ensures done + fields[i..] == done + [Entry(fields[i].key, fields[i].value)] + fields[i + 1..]
    ensures Entry(fields[i].key, fields[i].value) == fields[i]
  {
    assert fields[i..] == [fields[i]] + fields[i + 1..];
  }

  lemma OneField(e: Entry<Value>)
    ensures StaticFields([e]) == StaticField(e)
  {
    assert [e][1..] == [];
  }

  lemma DeclarationsNext(policy: Policy, fields: Fields, i: nat)
    requires i < |fields| && TriggersAreMaps(fields)
    ensures TriggersAreMaps(fields[i..]) && TriggersAreMaps(fields[i + 1..])
    ensures fields[i].value.Map? ==> DomainTriggersAreMaps(fields[i].key, fields[i].value.entries)
    ensures Declarations(policy, fields[i..])
         == DeclaredField(policy, Entry(fields[i].key, fields[i].value)) + Declarations(policy, fields[i + 1..])
  {
    hide DeclaredField, DomainTriggersAreMaps;
    assert fields[i] in fields;
    assert fields[i..][1..] == fields[i + 1..];
    assert Entry(fields[i].key, fields[i].value) == fields[i..][0];
  }

  /** Split what the fields hold at one key. */
  method SplitField(policy: Policy, fields: Fields, key: string, ghost before: Fields, ghost value: Value,
                    ghost after: Fields)
    returns (left: Fields, providers: seq<ProviderDecl>)
    requires fields == before + [Entry(key, value)] + after && forall e | e in before :: e.key != key
    requires WellFormed(value) && (value.Map? ==> DomainTriggersAreMaps(key, value.entries))
    ensures left == before + StaticField(Entry(key, value)) + after
    ensures providers == DeclaredField(policy, Entry(key, value))
  {
    hide Get, Remove, Insert, StaticEntries, DeclaredEntries, DomainTriggersAreMaps;
    left, providers := fields, [];
    GetMiddle(before, Entry(key, value), after);
    RemoveMiddle(before, Entry(key, value), after);
    var found := Get(fields, key).value;
    if found.Map? {
      assert WellFormedFields(found.entries);
      var values, removedAny;
      values, providers, removedAny := SplitDomain(policy, key, found.entries);
      InsertMiddle(before, Entry(key, value), after, Map(values));
      left := Insert(fields, key, Map(values));
      if removedAny && values == [] {
        GoneAfterInsert(before, key, value, after, Map(values));
        left := Remove(left, key);
        assert before + [] + after == before + after;
      }
    }
  }

  lemma GoneAfterInsert(before: Fields, key: string, value: Value, after: Fields, inserted: Value)
    requires forall e | e in before :: e.key != key
    ensures Remove(Insert(before + [Entry(key, value)] + after, key, inserted), key) == before + after
  {
    hide Get, Remove, Insert;
    InsertMiddle(before, Entry(key, value), after, inserted);
    RemoveMiddle(before, Entry(key, inserted), after);
  }

  method SplitFields(policy: Policy, fields: Fields) returns (left: Fields, providers: seq<ProviderDecl>)
    requires WellFormedFields(fields) && TriggersAreMaps(fields)
    ensures left == StaticFields(fields) && providers == Declarations(policy, fields)
  {
    hide WellFormedFields, WellFormed, StaticField, StaticFields, DeclaredField, Declarations, TriggersAreMaps,
      DomainTriggersAreMaps;
    left, providers := fields, [];
    NothingToSplit(policy, fields);
    for i := 0 to |fields|
      invariant left == StaticFields(fields[..i]) + fields[i..]
      invariant TriggersAreMaps(fields[i..])
      invariant providers + Declarations(policy, fields[i..]) == Declarations(policy, fields)
    {
      FieldCursor(fields, i);
      Between(StaticFields(fields[..i]), fields, i);
      DeclarationsNext(policy, fields, i);
      var declared;
      ghost var done, rest := StaticFields(fields[..i]), fields[i + 1..];
      left, declared := SplitField(policy, left, fields[i].key, done, fields[i].value, rest);
      providers := providers + declared;
    }
    assert fields[..|fields|] == fields;
  }

  lemma NothingToSplit(policy: Policy, fields: Fields)
    ensures StaticFields([]) == []
    ensures TriggersAreMaps(fields[|fields|..]) && Declarations(policy, fields[|fields|..]) == []
    ensures fields[0..] == fields
  {
  }

  /** Validate one policy and split it. */
  method ProducePolicy(text: IpText, policy: Policy) returns (result: Result<Produced, PolicyError>)
    requires WellFormedFields(policy.fields)
    ensures result == Produce(text, policy)
  {
    hide WellFormedFields, StaticFields, Declarations, TriggersAreMaps, ValidateFrom, Composed, ValidRegistry;
    if policy.name == "" {
      return Failure(EmptyName);
    }
    if policy.matchSpec.IsEmpty() {
      return Failure(MissingMatch);
    }
    var errors := ValidateWritable(Composed(text), CandidateState(policy));
    if errors != [] {
      return Failure(PolicyError.Invalid(errors));
    }
    CandidateTriggersAreMaps(text, policy);
    var fields, providers := SplitFields(policy, policy.fields);
    if fields == [] && policy.deviceType == "" && providers == [] {
      return Failure(EmptyPolicy);
    }
    var state := if fields != [] || policy.deviceType != "" then Some(StaticState(policy, fields)) else None;
    result := Success(Produced(state, providers));
  }

  // ---------------------------------------------------------------- sets of policies

  datatype Outcome = Outcome(states: seq<State>, providers: seq<ProviderDecl>)

  ghost function ProducedOf(text: IpText, policy: Policy): Produced {
    if WellFormedFields(policy.fields) && Produce(text, policy).Success?
    then Produce(text, policy).value
    else Produced(None, [])
  }

  /** The static contributions of each policy in order. */
  ghost function StatesOf(text: IpText, policies: seq<Policy>): seq<State> {
    if policies == [] then []
    else
      var last := ProducedOf(text, policies[|policies| - 1]).state;
      StatesOf(text, policies[..|policies| - 1]) + if last.Some? then [last.value] else []
  }

  ghost function ProvidersOf(text: IpText, policies: seq<Policy>): seq<ProviderDecl> {
    if policies == [] then []
    else ProvidersOf(text, policies[..|policies| - 1]) + ProducedOf(text, policies[|policies| - 1]).providers
  }

  ghost predicate UniqueNames(policies: seq<Policy>) {
    forall i, j | 0 <= i < j < |policies| :: policies[i].name != policies[j].name
  }

  class PolicySet {
    var policies: seq<Policy>

    ghost predicate Valid()
      reads this
    {
      && UniqueNames(policies)
      && forall p | p in policies :: p.name != "" && WellFormedFields(p.fields)
    }

    constructor ()
      ensures Valid() && policies == []
    {
      policies := [];
    }

    /** Names are unique and never replaced. */
    method Insert(policy: Policy) returns (result: Result<(), PolicyError>)
      requires Valid() && WellFormedFields(policy.fields)
      modifies this
      ensures Valid()
      ensures result == if policy.name == "" then Failure(EmptyName)
                        else if exists p | p in old(policies) :: p.name == policy.name
                          then Failure(DuplicateName(policy.name))
                        else Success(())
      ensures policies == if result.Success? then old(policies) + [policy] else old(policies)
    {
      hide WellFormedFields;
      if policy.name == "" {
        return Failure(EmptyName);
      }
      if exists p | p in policies :: p.name == policy.name {
        return Failure(DuplicateName(policy.name));
      }
      forall i | 0 <= i < |policies| ensures policies[i].name != policy.name {
        assert policies[i] in policies;
      }
      policies := policies + [policy];
      result := Success(());
    }

    /** All or nothing: the ordered concatenation, or the first policy's error. */
    method ProduceAll(text: IpText) returns (result: Result<Outcome, PolicyError>)
      requires Valid()
      ensures result.Success? <==> forall p | p in policies :: Produce(text, p).Success?
      ensures result.Success? ==> result.value == Outcome(StatesOf(text, policies), ProvidersOf(text, policies))
      ensures result.Failure? ==>
        exists i | 0 <= i < |policies| ::
          && Produce(text, policies[i]) == Failure(result.error)
          && forall j | 0 <= j < i :: Produce(text, policies[j]).Success?
    {
      hide WellFormedFields, Produce;
      var states, providers := [], [];
      for i := 0 to |policies|
        invariant forall j | 0 <= j < i :: Produce(text, policies[j]).Success?
        invariant states == StatesOf(text, policies[..i]) && providers == ProvidersOf(text, policies[..i])
      {
        assert policies[i] in policies;
        var one := ProducePolicy(text, policies[i]);
        if one.Failure? {
          return Failure(one.error);
        }
        assert policies[..i + 1][..i] == policies[..i];
        assert ProducedOf(text, policies[i]) == one.value;
        if one.value.state.Some? {
          states := states + [one.value.state.value];
        }
        providers := providers + one.value.providers;
      }
      assert policies[..|policies|] == policies;
      result := Success(Outcome(states, providers));
    }
  }
}
