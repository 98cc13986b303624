/** The policy and query forms of whole states: round trips and fixed points (yaml.rs). */
module StateTrees {
  import opened Wrappers
  import opened OrderedMaps
  import opened Values
  import opened Schemas
  import opened Preparation
  import opened Yaml
  import opened YamlLaws

  // ---------------------------------------------------------------- matches

  lemma MatchEntryReads(key: string, value: Option<string>, rest: seq<YamlEntry>, m: Match)
    requires value.Some? ==> WithMatchKey(m, key, value.value).Success?
    ensures ParseMatchFrom(m, MatchEntry(key, value) + rest)
         == ParseMatchFrom(if value.Some? then WithMatchKey(m, key, value.value).value else m, rest)
  {
    hide WithMatchKey;
    if value.Some? {
      assert (MatchEntry(key, value) + rest)[1..] == rest;
      assert (MatchEntry(key, value) + rest)[0] == YamlEntry(Text(key), Text(value.value));
    } else {
      assert MatchEntry(key, value) + rest == rest;
    }
  }

  lemma MatchRoundTrip(m: Match)
    ensures ParseMatch(Mapping(MatchEntries(m))) == Success(m)
  {
    hide ParseMatchFrom, MatchEntry;
    var mac := MatchEntry("mac", m.mac);
    var pci := MatchEntry("pci_path", m.pciPath) + mac;
    var driver := MatchEntry("driver", m.driver) + pci;
    var kind := MatchEntry("type", m.deviceType) + driver;
    MatchEntryReads("name", m.name, kind, EMPTY_MATCH);
    var m1 := EMPTY_MATCH.(name := m.name);
    MatchEntryReads("type", m.deviceType, driver, m1);
    var m2 := m1.(deviceType := m.deviceType);
    MatchEntryReads("driver", m.driver, pci, m2);
    var m3 := m2.(driver := m.driver);
    MatchEntryReads("pci_path", m.pciPath, mac, m3);
    var m4 := m3.(pciPath := m.pciPath);
    MatchEntryReads("mac", m.mac, [], m4);
    assert mac + [] == mac;
    NoEntries(m);
  }

  lemma NoEntries(m: Match)
    ensures ParseMatchFrom(m, []) == Success(m)
  {
  }

  // ---------------------------------------------------------------- fields

  function TopReread(registry: SchemaRegistry, fields: Fields): Fields
    requires ValidRegistry(registry)
  {
    if fields == [] then []
    else
      var value := Reread(registry.text, SchemaAt(registry, fields[0].key), fields[0].value);
      [Entry(fields[0].key, value)] + TopReread(registry, fields[1..])
  }

  ghost predicate RepresentableTop(registry: SchemaRegistry, fields: Fields)
    requires ValidRegistry(registry)
  {
    forall e | e in fields :: RepresentableTopEntry(registry, e)
  }

  ghost predicate RepresentableTopEntry(registry: SchemaRegistry, e: Entry<Value>)
    requires ValidRegistry(registry)
  {
    Representable(registry.text, SchemaAt(registry, e.key), e.value)
  }

  ghost predicate CanonicalTop(registry: SchemaRegistry, fields: Fields)
    requires ValidRegistry(registry)
  {
    forall e | e in fields :: CanonicalTopEntry(registry, e)
  }

  ghost predicate CanonicalTopEntry(registry: SchemaRegistry, e: Entry<Value>)
    requires ValidRegistry(registry)
  {
    CanonicalText(registry.text, SchemaAt(registry, e.key), e.value)
  }

  lemma TopHead(registry: SchemaRegistry, fields: Fields)
    requires ValidRegistry(registry) && fields != []
    ensures var reread := TopReread(registry, fields);
            && reread != [] && reread[1..] == TopReread(registry, fields[1..])
            && reread[0] == Entry(fields[0].key,
                                  Reread(registry.text, SchemaAt(registry, fields[0].key), fields[0].value))
  {
    hide Reread, SchemaAt, ValidRegistry;
  }

  lemma {:induction false} TopRepresentable(registry: SchemaRegistry, fields: Fields)
    requires ValidRegistry(registry) && Faithful(registry.text)
    ensures TopReread(registry, fields) == fields <==> RepresentableTop(registry, fields)
    ensures |TopReread(registry, fields)| == |fields|
  {
    hide Reread, Representable, SchemaAt, ValidRegistry;
    if fields != [] {
      var first := fields[0];
      RepresentableExact(registry.text, SchemaAt(registry, first.key), first.value);
      TopRepresentable(registry, fields[1..]);
      TopHead(registry, fields);
      assert fields == [first] + fields[1..];
      var reread := TopReread(registry, fields);
      assert reread == fields <==> reread[0] == first && reread[1..] == fields[1..];
      assert RepresentableTopEntry(registry, first) <==> reread[0] == first;
      assert first in fields;
    }
  }

  lemma {:induction false} EncodedLength(text: IpText, fields: Fields)
    ensures |EncodeFields(text, fields)| == |fields|
  {
    hide EncodeValue;
    if fields != [] {
      EncodedLength(text, fields[1..]);
    }
  }

  lemma {:induction false} TopCanonical(registry: SchemaRegistry, fields: Fields)
    requires ValidRegistry(registry) && Faithful(registry.text)
    ensures EncodeFields(registry.text, TopReread(registry, fields)) == EncodeFields(registry.text, fields)
      <==> CanonicalTop(registry, fields)
  {
    hide Reread, CanonicalText, SchemaAt, ValidRegistry, EncodeValue, EncodeFields, TopReread;
    if fields == [] {
      NothingReread(registry);
    } else {
      var first := fields[0];
      ReprintExact(registry.text, SchemaAt(registry, first.key), first.value);
      TopCanonical(registry, fields[1..]);
      TopHead(registry, fields);
      assert fields == [first] + fields[1..];
      var reread := TopReread(registry, fields);
      EncodedHead(registry.text, reread);
      EncodedHead(registry.text, fields);
      var a, b := EncodeFields(registry.text, reread), EncodeFields(registry.text, fields);
      assert a == b <==> a[0] == b[0] && a[1..] == b[1..];
      assert CanonicalTopEntry(registry, first) <==> a[0] == b[0];
      assert first in fields;
    }
  }

  lemma NothingReread(registry: SchemaRegistry)
    requires ValidRegistry(registry)
    ensures TopReread(registry, []) == []
  {
  }

  lemma {:induction false} TopHas(registry: SchemaRegistry, fields: Fields, key: string)
    requires ValidRegistry(registry)
    ensures Has(TopReread(registry, fields), key) <==> Has(fields, key)
  {
    hide Reread, SchemaAt, ValidRegistry;
    if fields != [] {
      TopHas(registry, fields[1..], key);
      TopHead(registry, fields);
    }
  }

  lemma {:induction false} SameImplied(registry: SchemaRegistry, fragments: seq<Fragment>, fields: Fields)
    requires ValidRegistry(registry)
    ensures ImpliedType(fragments, TopReread(registry, fields)) == ImpliedType(fragments, fields)
  {
    hide TopReread, Get, ValidRegistry;
    if fragments != [] {
      if fragments[0].triggerKey.Some? {
        TopHas(registry, fields, fragments[0].triggerKey.value);
      }
      SameImplied(registry, fragments[1..], fields);
    }
  }

  lemma DeviceStep(registry: SchemaRegistry, draft: Draft, entries: seq<YamlEntry>, next: Draft)
    requires ValidRegistry(registry) && entries != []
    requires DecodeDeviceEntry(registry, draft, entries[0]) == Success(next)
    ensures DecodeDevice(registry, draft, entries) == DecodeDevice(registry, next, entries[1..])
  {
    hide DecodeDeviceEntry, ValidRegistry;
  }

  lemma {:induction false} FieldsDecode(registry: SchemaRegistry, draft: Draft, fields: Fields)
    requires ValidRegistry(registry) && WellFormedFields(fields) && (forall e | e in fields :: !Reserved(e.key))
    requires forall e, d | e in fields && d in draft.fields :: e.key != d.key
    ensures DecodeDevice(registry, draft, EncodeFields(registry.text, fields))
         == Success(draft.(fields := draft.fields + TopReread(registry, fields)))
    decreases |fields|
  {
    hide WellFormed, SchemaAt, Reread, EncodeValue, ValidRegistry, EncodeFields, TopReread, DecodeDevice,
      DecodeDeviceEntry, Reserved;
    if fields == [] {
      NothingEncoded(registry, draft);
      NothingReread(registry);
      assert draft.fields + [] == draft.fields;
    } else {
      var first := fields[0];
      UniqueTail(fields);
      assert first in fields;
      EncodedHead(registry.text, fields);
      TopHead(registry, fields);
      FieldDecodes(registry, draft, first);
      var value := Reread(registry.text, SchemaAt(registry, first.key), first.value);
      var next := draft.(fields := draft.fields + [Entry(first.key, value)]);
      DeviceStep(registry, draft, EncodeFields(registry.text, fields), next);
      FieldsDecode(registry, next, fields[1..]);
      assert draft.fields + TopReread(registry, fields) == next.fields + TopReread(registry, fields[1..]);
    }
  }

  lemma NothingEncoded(registry: SchemaRegistry, draft: Draft)
    requires ValidRegistry(registry)
    ensures EncodeFields(registry.text, []) == [] && DecodeDevice(registry, draft, []) == Success(draft)
  {
  }

  lemma FieldDecodes(registry: SchemaRegistry, draft: Draft, e: Entry<Value>)
    requires ValidRegistry(registry) && WellFormed(e.value) && !Reserved(e.key)
    requires forall d | d in draft.fields :: e.key != d.key
    ensures DecodeDeviceEntry(registry, draft, YamlEntry(Text(e.key), EncodeValue(registry.text, e.value)))
         == (var value := Reread(registry.text, SchemaAt(registry, e.key), e.value);
             Success(draft.(fields := draft.fields + [Entry(e.key, value)])))
  {
    hide WellFormed, Get, Insert, SchemaAt, Reread, DecodeValue, EncodeValue, ValidRegistry, ParseMatchFrom;
    var schema := SchemaAt(registry, e.key);
    ValueReread(registry.text, schema, e.value);
    AppendNew(draft.fields, e.key, Reread(registry.text, schema, e.value));
  }

  // ---------------------------------------------------------------- states

  /** What a state becomes when its tree is parsed. */
  function StateReread(registry: SchemaRegistry, s: State, includeMatch: bool): State
    requires ValidRegistry(registry)
  {
    Finish(registry, Draft(
      if includeMatch then s.matchSpec else EMPTY_MATCH,
      if TypeSection(registry, s, includeMatch) == [] then "" else s.deviceType,
      TopReread(registry, s.fields)))
  }

  lemma HeaderDecodes(registry: SchemaRegistry, s: State, includeMatch: bool, rest: seq<YamlEntry>)
    requires ValidRegistry(registry)
    ensures var kind := TypeSection(registry, s, includeMatch);
            var draft := Draft(if includeMatch then s.matchSpec else EMPTY_MATCH,
                               if kind == [] then "" else s.deviceType, []);
            DecodeDevice(registry, EMPTY_DRAFT, MatchSection(s, includeMatch) + kind + rest)
            == DecodeDevice(registry, draft, rest)
  {
    hide MatchEntries, ParseMatch, ImpliedType, DecodeValue, SchemaAt, ValidRegistry, Insert;
    MatchRoundTrip(s.matchSpec);
    var kind := TypeSection(registry, s, includeMatch);
    var matched := EMPTY_DRAFT.(matchSpec := if includeMatch then s.matchSpec else EMPTY_MATCH);
    assert DecodeDevice(registry, EMPTY_DRAFT, MatchSection(s, includeMatch) + kind + rest)
      == DecodeDevice(registry, matched, kind + rest) by {
      var all := MatchSection(s, includeMatch) + kind + rest;
      if includeMatch {
        assert all[0] == YamlEntry(Text("match"), Mapping(MatchEntries(s.matchSpec))) && all[1..] == kind + rest;
      } else {
        assert all == kind + rest;
      }
    }
    if kind == [] {
      assert kind + rest == rest;
    } else {
      assert (kind + rest)[0] == YamlEntry(Text("type"), Text(s.deviceType)) && (kind + rest)[1..] == rest;
    }
  }

  lemma TreeDecodes(registry: SchemaRegistry, s: State, includeMatch: bool)
    requires ValidRegistry(registry) && WellFormedFields(s.fields) && FirstReserved(s.fields).None?
    ensures StateTree(registry, s, includeMatch).Success? && StateTree(registry, s, includeMatch).value.Mapping?
    ensures StateFromTree(registry, StateTree(registry, s, includeMatch).value.entries)
      == Success(StateReread(registry, s, includeMatch))
  {
    hide DecodeDevice, EncodeFields, TopReread, ImpliedType, ValidRegistry, WellFormedFields, MatchEntries;
    var header := Draft(if includeMatch then s.matchSpec else EMPTY_MATCH,
                        if TypeSection(registry, s, includeMatch) == [] then "" else s.deviceType, []);
    HeaderDecodes(registry, s, includeMatch, EncodeFields(registry.text, s.fields));
    FieldsDecode(registry, header, s.fields);
    assert [] + TopReread(registry, s.fields) == TopReread(registry, s.fields);
  }

  /** The type is given, or nothing in the fields would supply one. */
  ghost predicate TypeSettled(registry: SchemaRegistry, s: State) {
    var implied := ImpliedType(registry.fragments, s.fields);
    s.deviceType == "" ==> implied.None? || implied.value == ""
  }

  lemma TypeReread(registry: SchemaRegistry, s: State, includeMatch: bool)
    requires ValidRegistry(registry)
    ensures StateReread(registry, s, includeMatch).deviceType == s.deviceType <==> TypeSettled(registry, s)
    ensures StateReread(registry, s, includeMatch).fields == TopReread(registry, s.fields)
    ensures ImpliedType(registry.fragments, StateReread(registry, s, includeMatch).fields)
      == ImpliedType(registry.fragments, s.fields)
    ensures TypeSection(registry, StateReread(registry, s, true), true) == TypeSection(registry, s, true)
    ensures TypeSection(registry, StateReread(registry, s, false), false) == TypeSection(registry, s, false)
      <==> TypeSettled(registry, s)
    ensures |TypeSection(registry, StateReread(registry, s, false), false)| == |TypeSection(registry, s, false)|
      <==> TypeSettled(registry, s)
  {
    hide TopReread, ImpliedType, ValidRegistry;
    SameImplied(registry, registry.fragments, s.fields);
  }

  /** Parsing the policy form returns the state exactly when its values are representable and its type settled. */
  lemma PolicyRoundTrip(registry: SchemaRegistry, s: State)
    requires ValidRegistry(registry) && Faithful(registry.text) && WellFormedFields(s.fields)
    ensures StateTree(registry, s, true).Failure? <==> exists e | e in s.fields :: Reserved(e.key)
    ensures StateTree(registry, s, true).Success? ==>
      var parsed := StateFromTree(registry, StateTree(registry, s, true).value.entries);
      && parsed.Success? && parsed.value.matchSpec == s.matchSpec
      && (parsed.value.ContentEquals(s) <==> RepresentableTop(registry, s.fields) && TypeSettled(registry, s))
  {
    hide StateFromTree, EncodeFields, TopReread, ImpliedType, ValidRegistry, WellFormedFields, MatchEntries,
      RepresentableTop;
    if FirstReserved(s.fields).None? {
      TreeDecodes(registry, s, true);
      TypeReread(registry, s, true);
      TopRepresentable(registry, s.fields);
    }
  }

  /** The query form carries no match, and loses nothing else under the same condition. */
  lemma QueryRoundTrip(registry: SchemaRegistry, s: State)
    requires ValidRegistry(registry) && Faithful(registry.text) && WellFormedFields(s.fields)
    requires StateTree(registry, s, false).Success?
    ensures var parsed := StateFromTree(registry, StateTree(registry, s, false).value.entries);
            && parsed.Success?
            && (parsed.value.ContentEquals(s.(matchSpec := EMPTY_MATCH))
                <==> RepresentableTop(registry, s.fields) && TypeSettled(registry, s))
  {
    hide StateFromTree, EncodeFields, TopReread, ImpliedType, ValidRegistry, WellFormedFields, MatchEntries,
      RepresentableTop;
    TreeDecodes(registry, s, false);
    TypeReread(registry, s, false);
    TopRepresentable(registry, s.fields);
  }

  lemma {:induction false} SameKeysReserved(registry: SchemaRegistry, fields: Fields)
    requires ValidRegistry(registry)
    ensures FirstReserved(TopReread(registry, fields)) == FirstReserved(fields)
  {
    hide Reread, SchemaAt, ValidRegistry;
    if fields != [] {
      TopHead(registry, fields);
      SameKeysReserved(registry, fields[1..]);
    }
  }

  lemma ThreeParts<T>(a: seq<T>, b: seq<T>, c: seq<T>, b': seq<T>, c': seq<T>)
    requires |c| == |c'|
    ensures a + b + c == a + b' + c' <==> b == b' && c == c'
  {
    if a + b + c == a + b' + c' {
      assert |b| == |b'|;
      assert b == (a + b + c)[|a|..|a| + |b|] && b' == (a + b' + c')[|a|..|a| + |b|];
      assert c == (a + b + c)[|a| + |b|..] && c' == (a + b' + c')[|a| + |b|..];
    }
  }

  /** The printed tree is a fixed point: of the policy form whenever network text is canonical. */
  lemma FixedPoints(registry: SchemaRegistry, s: State)
    requires ValidRegistry(registry) && Faithful(registry.text) && FirstReserved(s.fields).None?
    ensures StateTree(registry, StateReread(registry, s, true), true) == StateTree(registry, s, true)
      <==> CanonicalTop(registry, s.fields)
    ensures StateTree(registry, StateReread(registry, s, false), false) == StateTree(registry, s, false)
       <==> CanonicalTop(registry, s.fields) && TypeSettled(registry, s)
  {
    hide EncodeFields, TopReread, ImpliedType, ValidRegistry, MatchEntries, CanonicalTop, TypeSection, TypeSettled,
      Finish;
    SameKeysReserved(registry, s.fields);
    TypeReread(registry, s, true);
    TypeReread(registry, s, false);
    TopCanonical(registry, s.fields);
    TopRepresentable(registry, s.fields);
    var reread := TopReread(registry, s.fields);
    EncodedLength(registry.text, reread);
    EncodedLength(registry.text, s.fields);
    RereadMatch(registry, s);
    var text := registry.text;
    ThreeParts(MatchSection(s, true), TypeSection(registry, StateReread(registry, s, true), true),
               EncodeFields(text, reread),
               TypeSection(registry, s, true), EncodeFields(text, s.fields));
    ThreeParts(MatchSection(s, false), TypeSection(registry, StateReread(registry, s, false), false),
               EncodeFields(text, reread),
               TypeSection(registry, s, false), EncodeFields(text, s.fields));
  }

  lemma RereadMatch(registry: SchemaRegistry, s: State)
    requires ValidRegistry(registry)
    ensures StateReread(registry, s, true).matchSpec == s.matchSpec
    ensures MatchSection(StateReread(registry, s, false), false) == MatchSection(s, false)
  {
    hide TopReread, ImpliedType, ValidRegistry;
  }

  /** Re-parsing a printed policy and printing it again changes nothing, given canonical network text. */
  lemma PolicyFixedPoint(registry: SchemaRegistry, s: State)
    requires ValidRegistry(registry) && Faithful(registry.text) && WellFormedFields(s.fields)
    requires StateTree(registry, s, true).Success?
    ensures var tree := StateTree(registry, s, true).value;
            var parsed := StateFromTree(registry, tree.entries);
            && parsed.Success?
            && (StateTree(registry, parsed.value, true) == Success(tree) <==> CanonicalTop(registry, s.fields))
  {
    hide StateFromTree, EncodeFields, TopReread, ImpliedType, ValidRegistry, WellFormedFields, MatchEntries,
      CanonicalTop;
    TreeDecodes(registry, s, true);
    FixedPoints(registry, s);
  }

  /** A printed query result is a fixed point only if no fragment would add a type to it. */
  lemma QueryFixedPoint(registry: SchemaRegistry, s: State)
    requires ValidRegistry(registry) && Faithful(registry.text) && WellFormedFields(s.fields)
    requires StateTree(registry, s, false).Success?
    ensures var tree := StateTree(registry, s, false).value;
            var parsed := StateFromTree(registry, tree.entries);
            && parsed.Success?
            && (StateTree(registry, parsed.value, false) == Success(tree)
                <==> CanonicalTop(registry, s.fields) && TypeSettled(registry, s))
  {
    hide StateFromTree, EncodeFields, TopReread, ImpliedType, ValidRegistry, WellFormedFields, MatchEntries,
      CanonicalTop;
    TreeDecodes(registry, s, false);
    FixedPoints(registry, s);
  }
}
