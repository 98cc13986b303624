/** Which device mappings parse, what state they yield, and which error the others bring (yaml.rs). */
module StateReading {
  import opened Wrappers
  import opened OrderedMaps
  import opened Latest
  import opened Values
  import opened Schemas
  import opened Preparation
  import opened Yaml
  import opened YamlReading

  // ---------------------------------------------------------------- matches

  /** The last of the entries whose key is spelled so. */
  ghost predicate LastAt(entries: seq<YamlEntry>, key: string, i: int) {
    && 0 <= i < |entries| && Spells(entries[i].key, key)
    && forall j | i < j < |entries| :: !Spells(entries[j].key, key)
  }

  ghost predicate Absent(entries: seq<YamlEntry>, key: string) {
    forall i | 0 <= i < |entries| :: !Spells(entries[i].key, key)
  }

  /** The text of the last entry of a key, seen through tags. */
  ghost predicate TextAt(entries: seq<YamlEntry>, key: string, text: string) {
    exists i | LastAt(entries, key, i) :: Untagged(entries[i].value) == Text(text)
  }

  ghost predicate SelectorReads(entries: seq<YamlEntry>, key: string, selector: Option<string>) {
    match selector
    case None => Absent(entries, key)
    case Some(text) => TextAt(entries, key, text)
  }

  ghost predicate MatchReads(entries: seq<YamlEntry>, m: Match) {
    && SelectorReads(entries, "name", m.name)
    && SelectorReads(entries, "type", m.deviceType)
    && SelectorReads(entries, "driver", m.driver)
    && SelectorReads(entries, "pci_path", m.pciPath)
    && SelectorReads(entries, "mac", m.mac)
  }

  predicate IsSelector(key: string) {
    key == "name" || key == "type" || key == "driver" || key == "pci_path" || key == "mac"
  }

  /** What is wrong with an entry of a match: its key has no text, its value is no text, or nobody knows its key. */
  ghost predicate TroublesSelector(e: YamlEntry, error: YamlError) {
    if !IsScalarKey(e.key) then error == InvalidFieldKey(e.key)
    else exists key | Spells(e.key, key) ::
      if !Untagged(e.value).Text? then error == MatchValueNotString(key)
      else !IsSelector(key) && error == UnknownMatchKey(key)
  }

  ghost predicate FineSelector(e: YamlEntry) {
    Untagged(e.value).Text? && exists key | Spells(e.key, key) :: IsSelector(key)
  }

  ghost predicate TroublesSelectors(entries: seq<YamlEntry>, error: YamlError) {
    exists i | 0 <= i < |entries| ::
      TroublesSelector(entries[i], error) && forall j | 0 <= j < i :: FineSelector(entries[j])
  }

  ghost predicate TroublesMatch(y: Yaml, error: YamlError) {
    if Untagged(y).Mapping? then TroublesSelectors(Untagged(y).entries, error) else error == MatchNotMapping
  }

  lemma SpelledOnce(key: Yaml, a: string, b: string)
    requires Spells(key, a) && Spells(key, b)
    ensures a == b
  {
  }

  lemma LastNext(entries: seq<YamlEntry>, e: YamlEntry, key: string, i: int)
    requires LastAt(entries, key, i) && !Spells(e.key, key)
    ensures LastAt(entries + [e], key, i) && (entries + [e])[i] == entries[i]
  {
  }

  lemma SelectorKept(entries: seq<YamlEntry>, e: YamlEntry, key: string, selector: Option<string>)
    requires SelectorReads(entries, key, selector) && !Spells(e.key, key)
    ensures SelectorReads(entries + [e], key, selector)
  {
    hide Spells;
    if selector.Some? {
      var i :| LastAt(entries, key, i) && Untagged(entries[i].value) == Text(selector.value);
      LastNext(entries, e, key, i);
    }
  }

  lemma SelectorSet(entries: seq<YamlEntry>, e: YamlEntry, key: string, text: string)
    requires Spells(e.key, key) && Untagged(e.value) == Text(text)
    ensures SelectorReads(entries + [e], key, Some(text))
  {
    hide Spells;
    var all := entries + [e];
    assert LastAt(all, key, |entries|) && all[|entries|] == e;
  }

  lemma MatchNext(entries: seq<YamlEntry>, m: Match, e: YamlEntry)
    requires MatchReads(entries, m)
    ensures match ParseMatchEntry(m, e)
            case Success(next) => FineSelector(e) && MatchReads(entries + [e], next)
            case Failure(error) => !FineSelector(e) && TroublesSelector(e, error)
  {
    hide Spells, KeyText, SelectorReads;
    KeyTextMeans(e.key);
    if IsScalarKey(e.key) {
      var key := KeyText(e.key).value;
      forall other | Spells(e.key, other) ensures other == key {
        SpelledOnce(e.key, key, other);
      }
      if Untagged(e.value).Text? && IsSelector(key) {
        SelectorSet(entries, e, key, Untagged(e.value).text);
      }
      if key != "name" { SelectorKept(entries, e, "name", m.name); }
      if key != "type" { SelectorKept(entries, e, "type", m.deviceType); }
      if key != "driver" { SelectorKept(entries, e, "driver", m.driver); }
      if key != "pci_path" { SelectorKept(entries, e, "pci_path", m.pciPath); }
      if key != "mac" { SelectorKept(entries, e, "mac", m.mac); }
    }
  }

  lemma {:induction false} MatchEntriesRead(before: seq<YamlEntry>, m: Match, entries: seq<YamlEntry>)
    requires MatchReads(before, m)
    ensures match ParseMatchFrom(m, entries)
            case Success(r) => (forall e | e in entries :: FineSelector(e)) && MatchReads(before + entries, r)
            case Failure(error) => TroublesSelectors(entries, error) && exists e | e in entries :: !FineSelector(e)
    decreases |entries|
  {
    hide ParseMatchEntry, FineSelector, TroublesSelector, MatchReads;
    if entries == [] {
      assert before + [] == before;
    } else {
      var first, tail := entries[0], entries[1..];
      assert entries == [first] + tail;
      MatchNext(before, m, first);
      var next := ParseMatchEntry(m, first);
      if next.Success? {
        MatchEntriesRead(before + [first], next.value, tail);
        assert before + [first] + tail == before + entries;
        if ParseMatchFrom(next.value, tail).Failure? {
          var error := ParseMatchFrom(next.value, tail).error;
          var i :| && 0 <= i < |tail| && TroublesSelector(tail[i], error)
                   && forall j | 0 <= j < i :: FineSelector(tail[j]);
          assert entries[i + 1] == tail[i];
          assert forall j | 0 < j < i + 1 :: entries[j] == tail[j - 1];
        }
      }
    }
  }

  /** A match parses exactly if it is a mapping of known selectors to text; each selector gets its last text. */
  lemma MatchParses(y: Yaml)
    ensures ParseMatch(y).Success? <==>
            Untagged(y).Mapping? && forall e | e in Untagged(y).entries :: FineSelector(e)
    ensures ParseMatch(y).Success? ==> MatchReads(Untagged(y).entries, ParseMatch(y).value)
    ensures ParseMatch(y).Failure? ==> TroublesMatch(y, ParseMatch(y).error)
  {
    hide ParseMatchFrom, FineSelector, TroublesSelectors;
    if Untagged(y).Mapping? {
      var entries := Untagged(y).entries;
      MatchEntriesRead([], EMPTY_MATCH, entries);
      assert [] + entries == entries;
    }
  }

  // ---------------------------------------------------------------- device mappings

  /** The schema of a top-level key: the base field of that name, else the fragment with that trigger. */
  lemma SchemaAtMeans(registry: SchemaRegistry, key: string, base: Fragment)
    requires ValidRegistry(registry) && DistinctTriggers(registry.fragments)
    requires base in registry.fragments && base.triggerKey == None
    ensures Get(base.root.properties, key).Some? ==> SchemaAt(registry, key) == Get(base.root.properties, key)
    ensures Get(base.root.properties, key).None? ==>
              && (forall f | f in registry.fragments && f.triggerKey == Some(key) ::
                    SchemaAt(registry, key) == Some(f.root))
              && ((forall f | f in registry.fragments :: f.triggerKey != Some(key)) ==> SchemaAt(registry, key) == None)
  {
    OnlyTrigger(registry.fragments, base);
    forall f | f in registry.fragments && f.triggerKey == Some(key)
      ensures FindTrigger(registry.fragments, Some(key)) == Some(f)
    {
      OnlyTrigger(registry.fragments, f);
    }
    FoundTrigger(registry.fragments, Some(key));
  }

  /** The entries that are fields: all but the match, the type and the kind. */
  ghost function FieldEntries(entries: seq<YamlEntry>): (r: seq<YamlEntry>)
    ensures forall e | e in r :: e in entries && IsFieldEntry(e)
    ensures forall e | e in entries && IsFieldEntry(e) :: e in r
  {
    if entries == [] then []
    else
      var last := entries[|entries| - 1];
      FieldEntries(entries[..|entries| - 1]) + (if IsFieldEntry(last) then [last] else [])
  }

  ghost predicate IsFieldEntry(e: YamlEntry) {
    !Spells(e.key, "match") && !Spells(e.key, "type") && !Spells(e.key, "kind")
  }

  ghost predicate ReadsField(registry: SchemaRegistry, e: YamlEntry, write: Entry<Value>)
    requires ValidRegistry(registry)
  {
    Spells(e.key, write.key) && Reads(registry.text, SchemaAt(registry, write.key), e.value, write.value)
  }

  ghost predicate ReadsFields(registry: SchemaRegistry, entries: seq<YamlEntry>, writes: seq<Entry<Value>>)
    requires ValidRegistry(registry)
  {
    && |writes| == |entries|
    && forall i | 0 <= i < |entries| :: ReadsField(registry, entries[i], writes[i])
  }

  ghost predicate FieldsRead(registry: SchemaRegistry, entries: seq<YamlEntry>, fields: Fields)
    requires ValidRegistry(registry)
  {
    exists writes :: ReadsFields(registry, FieldEntries(entries), writes) && KeepsLatest(writes, fields)
  }

  ghost predicate MatchSectionReads(entries: seq<YamlEntry>, m: Match) {
    if Absent(entries, "match") then m == EMPTY_MATCH
    else exists i | LastAt(entries, "match", i) ::
           Untagged(entries[i].value).Mapping? && MatchReads(Untagged(entries[i].value).entries, m)
  }

  ghost predicate TypeReads(entries: seq<YamlEntry>, deviceType: string) {
    if Absent(entries, "type") then deviceType == "" else TextAt(entries, "type", deviceType)
  }

  ghost predicate DraftReads(registry: SchemaRegistry, entries: seq<YamlEntry>, draft: Draft)
    requires ValidRegistry(registry)
  {
    && MatchSectionReads(entries, draft.matchSpec)
    && TypeReads(entries, draft.deviceType)
    && FieldsRead(registry, entries, draft.fields)
  }

  /** A kind has to be the text `state`; a type has to be text; fields have to be readable. */
  ghost predicate FineEntry(e: YamlEntry) {
    && IsScalarKey(e.key)
    && (if Spells(e.key, "match")
        then Untagged(e.value).Mapping? && forall s | s in Untagged(e.value).entries :: FineSelector(s)
        else if Spells(e.key, "kind") then e.value == Text("state")
        else if Spells(e.key, "type") then Untagged(e.value).Text?
        else Readable(e.value))
  }

  ghost predicate TroublesDevice(e: YamlEntry, error: YamlError) {
    if !IsScalarKey(e.key) then error == InvalidFieldKey(e.key)
    else if Spells(e.key, "match") then TroublesMatch(e.value, error)
    else if Spells(e.key, "kind")
    then error == if e.value == Text("policy") then PolicyWrapperNotSupported else UnknownKind
    else if Spells(e.key, "type") then error == UnsupportedScalar(e.value)
    else Troubles(e.value, error)
  }

  ghost predicate TroublesDevices(entries: seq<YamlEntry>, error: YamlError) {
    exists i | 0 <= i < |entries| ::
      !FineEntry(entries[i]) && TroublesDevice(entries[i], error) && forall j | 0 <= j < i :: FineEntry(entries[j])
  }

  lemma MatchKept(entries: seq<YamlEntry>, m: Match, e: YamlEntry)
    requires MatchSectionReads(entries, m) && !Spells(e.key, "match")
    ensures MatchSectionReads(entries + [e], m)
  {
    hide Spells, MatchReads, Absent;
    AbsentNext(entries, e, "match");
    if !Absent(entries, "match") {
      var i :| LastAt(entries, "match", i) && Untagged(entries[i].value).Mapping?
               && MatchReads(Untagged(entries[i].value).entries, m);
      LastNext(entries, e, "match", i);
    }
  }

  lemma TypeKept(entries: seq<YamlEntry>, deviceType: string, e: YamlEntry)
    requires TypeReads(entries, deviceType) && !Spells(e.key, "type")
    ensures TypeReads(entries + [e], deviceType)
  {
    hide Spells, Absent;
    AbsentNext(entries, e, "type");
    if !Absent(entries, "type") {
      var i :| LastAt(entries, "type", i) && Untagged(entries[i].value) == Text(deviceType);
      LastNext(entries, e, "type", i);
    }
  }

  lemma FieldsKept(registry: SchemaRegistry, entries: seq<YamlEntry>, fields: Fields, e: YamlEntry)
    requires ValidRegistry(registry) && FieldsRead(registry, entries, fields) && !IsFieldEntry(e)
    ensures FieldsRead(registry, entries + [e], fields)
  {
    hide IsFieldEntry, ReadsFields, KeepsLatest, ValidRegistry;
    FieldEntriesNext(entries, e);
    assert FieldEntries(entries) + [] == FieldEntries(entries);
  }

  lemma AbsentNext(entries: seq<YamlEntry>, e: YamlEntry, key: string)
    ensures Absent(entries + [e], key) <==> Absent(entries, key) && !Spells(e.key, key)
  {
    hide Spells;
    var all := entries + [e];
    assert all[|entries|] == e;
    assert forall i | 0 <= i < |entries| :: all[i] == entries[i];
  }

  lemma FieldEntriesNext(entries: seq<YamlEntry>, e: YamlEntry)
    ensures FieldEntries(entries + [e]) == FieldEntries(entries) + (if IsFieldEntry(e) then [e] else [])
  {
    assert (entries + [e])[..|entries|] == entries;
  }

  lemma FieldNext(registry: SchemaRegistry, entries: seq<YamlEntry>, fields: Fields, e: YamlEntry, w: Entry<Value>)
    requires ValidRegistry(registry) && FieldsRead(registry, entries, fields)
    requires IsFieldEntry(e) && ReadsField(registry, e, w)
    ensures FieldsRead(registry, entries + [e], Insert(fields, w.key, w.value))
  {
    hide IsFieldEntry, ReadsField, KeepsLatest, ValidRegistry, Insert;
    var writes :| ReadsFields(registry, FieldEntries(entries), writes) && KeepsLatest(writes, fields);
    FieldEntriesNext(entries, e);
    WriteKeepsLatest(writes, fields, w);
    assert ReadsFields(registry, FieldEntries(entries + [e]), writes + [w]);
  }

  lemma SectionSet(entries: seq<YamlEntry>, e: YamlEntry, key: string)
    requires Spells(e.key, key)
    ensures LastAt(entries + [e], key, |entries|) && (entries + [e])[|entries|] == e
    ensures !Absent(entries + [e], key)
  {
    hide Spells;
    AbsentNext(entries, e, key);
  }

  lemma DraftNext(registry: SchemaRegistry, entries: seq<YamlEntry>, draft: Draft, e: YamlEntry)
    requires ValidRegistry(registry) && DraftReads(registry, entries, draft)
    ensures match DecodeDeviceEntry(registry, draft, e)
            case Success(next) => FineEntry(e) && DraftReads(registry, entries + [e], next)
            case Failure(error) => !FineEntry(e) && TroublesDevice(e, error)
  {
    hide Spells, KeyText, ParseMatch, DecodeValue, SchemaAt, Readable, Troubles, Reads, FineSelector, TroublesMatch,
      ValidRegistry, MatchSectionReads, TypeReads, FieldsRead, MatchReads, Insert, LastAt, Absent;
    KeyTextMeans(e.key);
    if IsScalarKey(e.key) {
      var key := KeyText(e.key).value;
      forall other | Spells(e.key, other) ensures other == key {
        SpelledOnce(e.key, key, other);
      }
      if key != "match" {
        MatchKept(entries, draft.matchSpec, e);
      }
      if key != "type" {
        TypeKept(entries, draft.deviceType, e);
      }
      if !IsFieldEntry(e) {
        FieldsKept(registry, entries, draft.fields, e);
      }
      if key == "match" {
        MatchParses(e.value);
        SetMatch(entries, e);
      } else if key == "type" {
        SetType(entries, e);
      } else if key != "kind" {
        ValueReads(registry.text, SchemaAt(registry, key), e.value);
        var value := DecodeValue(registry.text, SchemaAt(registry, key), e.value);
        if value.Success? {
          FieldNext(registry, entries, draft.fields, e, Entry(key, value.value));
        }
      }
    }
  }

  lemma SetMatch(entries: seq<YamlEntry>, e: YamlEntry)
    requires Spells(e.key, "match")
    ensures Untagged(e.value).Mapping? ==>
              forall m | MatchReads(Untagged(e.value).entries, m) :: MatchSectionReads(entries + [e], m)
  {
    hide Spells, MatchReads;
    SectionSet(entries, e, "match");
  }

  lemma SetType(entries: seq<YamlEntry>, e: YamlEntry)
    requires Spells(e.key, "type")
    ensures Untagged(e.value).Text? ==> TypeReads(entries + [e], Untagged(e.value).text)
  {
    hide Spells;
    SectionSet(entries, e, "type");
  }

  lemma {:induction false} DeviceReads(registry: SchemaRegistry, before: seq<YamlEntry>, draft: Draft,
                                       entries: seq<YamlEntry>)
    requires ValidRegistry(registry) && DraftReads(registry, before, draft)
    ensures match DecodeDevice(registry, draft, entries)
            case Success(r) =>
              (forall e | e in entries :: FineEntry(e)) && DraftReads(registry, before + entries, r)
            case Failure(error) => TroublesDevices(entries, error)
    decreases |entries|
  {
    hide DecodeDeviceEntry, FineEntry, TroublesDevice, DraftReads, ValidRegistry;
    if entries == [] {
      assert before + [] == before;
    } else {
      var first, tail := entries[0], entries[1..];
      assert entries == [first] + tail;
      DraftNext(registry, before, draft, first);
      var next := DecodeDeviceEntry(registry, draft, first);
      if next.Success? {
        DeviceReads(registry, before + [first], next.value, tail);
        assert before + [first] + tail == before + entries;
        if DecodeDevice(registry, next.value, tail).Failure? {
          TailTroublesDevice(entries, DecodeDevice(registry, next.value, tail).error);
        }
      }
    }
  }

  lemma TailTroublesDevice(entries: seq<YamlEntry>, error: YamlError)
    requires entries != [] && FineEntry(entries[0]) && TroublesDevices(entries[1..], error)
    ensures TroublesDevices(entries, error)
  {
    hide FineEntry, TroublesDevice;
    var tail := entries[1..];
    var i :| 0 <= i < |tail| && !FineEntry(tail[i]) && TroublesDevice(tail[i], error)
             && forall j | 0 <= j < i :: FineEntry(tail[j]);
    assert entries[i + 1] == tail[i];
    assert forall j | 0 < j < i + 1 :: entries[j] == tail[j - 1];
  }

  // ---------------------------------------------------------------- states

  /** Some fragment whose trigger the fields hold implies the type, and no such fragment before it implies one. */
  ghost predicate Implies(fragments: seq<Fragment>, fields: Fields, deviceType: string) {
    exists i | 0 <= i < |fragments| ::
      && HoldsTrigger(fragments[i], fields) && fragments[i].root.impliedDeviceType == Some(deviceType)
      && forall j | 0 <= j < i && HoldsTrigger(fragments[j], fields) :: fragments[j].root.impliedDeviceType == None
  }

  predicate HoldsTrigger(f: Fragment, fields: Fields) {
    f.triggerKey.Some? && exists e | e in fields :: e.key == f.triggerKey.value
  }

  lemma {:induction false} ImpliedTypeMeans(fragments: seq<Fragment>, fields: Fields)
    ensures forall t :: ImpliedType(fragments, fields) == Some(t) <==> Implies(fragments, fields, t)
    ensures ImpliedType(fragments, fields) == None <==>
            forall f | f in fragments && HoldsTrigger(f, fields) :: f.root.impliedDeviceType == None
  {
    if fragments != [] {
      var tail := fragments[1..];
      ImpliedTypeMeans(tail, fields);
      assert fragments == [fragments[0]] + tail;
      ImpliesTail(fragments, fields);
    }
  }

  lemma ImpliesTail(fragments: seq<Fragment>, fields: Fields)
    requires fragments != []
    ensures forall t ::
              Implies(fragments, fields, t) <==>
              if HoldsTrigger(fragments[0], fields) && fragments[0].root.impliedDeviceType.Some?
              then fragments[0].root.impliedDeviceType == Some(t)
              else Implies(fragments[1..], fields, t)
  {
    hide HoldsTrigger;
    var tail := fragments[1..];
    forall t
      ensures Implies(fragments, fields, t) <==>
              if HoldsTrigger(fragments[0], fields) && fragments[0].root.impliedDeviceType.Some?
              then fragments[0].root.impliedDeviceType == Some(t)
              else Implies(tail, fields, t)
    {
      if i :| && 0 <= i < |fragments|
              && HoldsTrigger(fragments[i], fields) && fragments[i].root.impliedDeviceType == Some(t)
              && forall j | 0 <= j < i && HoldsTrigger(fragments[j], fields) ::
                   fragments[j].root.impliedDeviceType == None
      {
        if i > 0 {
          assert tail[i - 1] == fragments[i];
          assert forall j | 0 <= j < i - 1 :: tail[j] == fragments[j + 1];
        }
      }
      if i :| && 0 <= i < |tail|
              && HoldsTrigger(tail[i], fields) && tail[i].root.impliedDeviceType == Some(t)
              && forall j | 0 <= j < i && HoldsTrigger(tail[j], fields) :: tail[j].root.impliedDeviceType == None
      {
        assert fragments[i + 1] == tail[i];
        assert forall j | 0 < j < i + 1 :: fragments[j] == tail[j - 1];
      }
    }
  }

  /**
   A device mapping parses exactly if every entry is fine, and otherwise brings
   the error of the first that is not. Its state has the last match, the last
   type or else the one its fields imply, and the latest value of every field in
   the order of the mapping; it is a static contribution of default priority.
   */
  lemma StateParses(registry: SchemaRegistry, entries: seq<YamlEntry>)
    requires ValidRegistry(registry)
    ensures var parsed := StateFromTree(registry, entries);
            && (parsed.Success? <==> forall e | e in entries :: FineEntry(e))
            && (parsed.Failure? ==> TroublesDevices(entries, parsed.error))
            && (parsed.Success? ==>
                  && MatchSectionReads(entries, parsed.value.matchSpec)
                  && FieldsRead(registry, entries, parsed.value.fields)
                  && (if TypeReads(entries, "") && ImpliedType(registry.fragments, parsed.value.fields).Some?
                      then Implies(registry.fragments, parsed.value.fields, parsed.value.deviceType)
                      else TypeReads(entries, parsed.value.deviceType))
                  && parsed.value.source == Static("") && parsed.value.priority == 100)
  {
    hide DecodeDevice, FineEntry, TroublesDevice, MatchSectionReads, FieldsRead, ImpliedType, Implies, ValidRegistry,
      LastAt, Absent;
    NothingRead(registry);
    DeviceReads(registry, [], EMPTY_DRAFT, entries);
    assert [] + entries == entries;
    var draft := DecodeDevice(registry, EMPTY_DRAFT, entries);
    if draft.Success? {
      ImpliedTypeMeans(registry.fragments, draft.value.fields);
      if TypeReads(entries, "") {
        OneType(entries, "", draft.value.deviceType);
      }
    }
  }

  lemma OneType(entries: seq<YamlEntry>, a: string, b: string)
    requires TypeReads(entries, a) && TypeReads(entries, b)
    ensures a == b
  {
    hide Spells;
  }

  lemma NothingRead(registry: SchemaRegistry)
    requires ValidRegistry(registry)
    ensures DraftReads(registry, [], EMPTY_DRAFT)
  {
    NothingWritten<Value>();
    assert ReadsFields(registry, FieldEntries([]), []);
  }

  // ---------------------------------------------------------------- printing

  const SELECTORS := ["name", "type", "driver", "pci_path", "mac"]

  ghost predicate InOrder(entries: seq<YamlEntry>, at: seq<nat>, from: nat) {
    && |at| == |entries|
    && (forall i | 0 <= i < |at| :: from <= at[i] < 5 && entries[i].key == Text(SELECTORS[at[i]]))
    && (forall i, j | 0 <= i < j < |at| :: at[i] < at[j])
  }

  lemma OneMore(k: nat, selector: Option<string>, rest: seq<YamlEntry>, at: seq<nat>) returns (r: seq<nat>)
    requires k < 5 && InOrder(rest, at, k + 1)
    ensures InOrder(MatchEntry(SELECTORS[k], selector) + rest, r, k)
  {
    if selector.Some? {
      r := [k] + at;
    } else {
      r := at;
      assert MatchEntry(SELECTORS[k], selector) + rest == rest;
    }
  }

  /** The selectors that a match has are printed in their fixed order. */
  lemma MatchLayout(m: Match) returns (at: seq<nat>)
    ensures InOrder(MatchEntries(m), at, 0)
  {
    hide InOrder, MatchEntry;
    var mac := MatchEntry("mac", m.mac);
    var pci := MatchEntry("pci_path", m.pciPath) + mac;
    var driver := MatchEntry("driver", m.driver) + pci;
    var kind := MatchEntry("type", m.deviceType) + driver;
    NoneInOrder();
    at := OneMore(4, m.mac, [], []);
    assert mac + [] == mac;
    at := OneMore(3, m.pciPath, mac, at);
    at := OneMore(2, m.driver, pci, at);
    at := OneMore(1, m.deviceType, driver, at);
    at := OneMore(0, m.name, kind, at);
  }

  lemma NoneInOrder()
    ensures InOrder([], [], 5)
  {
  }

  lemma {:induction false} FieldKeys(text: IpText, fields: Fields)
    ensures |EncodeFields(text, fields)| == |fields|
    ensures forall i | 0 <= i < |fields| :: EncodeFields(text, fields)[i].key == Text(fields[i].key)
  {
    hide EncodeValue;
    if fields != [] {
      FieldKeys(text, fields[1..]);
    }
  }

  /** A field of that name could not be told from a section. */
  predicate IsSection(key: string) {
    key == "match" || key == "type" || key == "kind"
  }

  lemma ReservedIsSection(key: string)
    ensures Reserved(key) <==> IsSection(key)
  {
  }

  lemma {:induction false} ReservedMeans(fields: Fields)
    ensures FirstReserved(fields).Some? ==>
              exists i | 0 <= i < |fields| ::
                && fields[i].key == FirstReserved(fields).value && IsSection(fields[i].key)
                && forall j | 0 <= j < i :: !IsSection(fields[j].key)
    ensures FirstReserved(fields).None? <==> forall e | e in fields :: !IsSection(e.key)
  {
    hide Reserved, IsSection;
    if fields != [] {
      var tail := fields[1..];
      ReservedIsSection(fields[0].key);
      assert fields == [fields[0]] + tail && fields[0] in fields;
      if !Reserved(fields[0].key) {
        ReservedMeans(tail);
        if FirstReserved(tail).Some? {
          var i :| && 0 <= i < |tail| && tail[i].key == FirstReserved(tail).value && IsSection(tail[i].key)
                   && forall j | 0 <= j < i :: !IsSection(tail[j].key);
          assert fields[i + 1].key == tail[i].key;
          assert forall j | 0 < j < i + 1 :: fields[j] == tail[j - 1];
        }
      }
    }
  }

  ghost predicate SaysType(registry: SchemaRegistry, s: State, includeMatch: bool) {
    s.deviceType != "" && !(includeMatch && Implies(registry.fragments, s.fields, s.deviceType))
  }

  /**
   A printed state is its match, in the policy form only, then its type, then
   its fields in order. The type goes unsaid when there is none, and in the
   policy form also when the fields imply it. A field named like one of the
   sections is refused.
   */
  lemma TreeLayout(registry: SchemaRegistry, s: State, includeMatch: bool)
    ensures var tree := StateTree(registry, s, includeMatch);
            && (tree.Success? <==> forall e | e in s.fields :: !IsSection(e.key))
            && (tree.Failure? ==>
                  exists i | 0 <= i < |s.fields| ::
                    && tree.error == ReservedFieldKey(s.fields[i].key) && IsSection(s.fields[i].key)
                    && forall j | 0 <= j < i :: !IsSection(s.fields[j].key))
            && (tree.Success? ==>
                  tree.value.Mapping? && IsLayout(registry, s, includeMatch, tree.value.entries))
  {
    hide EncodeFields, MatchEntries, TypeSection, SaysType, FirstReserved, IsLayout, MatchSection, IsSection;
    ReservedMeans(s.fields);
    if StateTree(registry, s, includeMatch).Success? {
      LayoutOfParts(registry, s, includeMatch);
    }
  }

  lemma LayoutOfParts(registry: SchemaRegistry, s: State, includeMatch: bool)
    ensures IsLayout(registry, s, includeMatch,
                     MatchSection(s, includeMatch) + TypeSection(registry, s, includeMatch)
                     + EncodeFields(registry.text, s.fields))
  {
    hide EncodeFields, MatchEntries, TypeSection, SaysType, MatchSection;
    MatchIsSaid(s, includeMatch);
    TypeIsSaid(registry, s, includeMatch);
    FieldKeys(registry.text, s.fields);
    InARow(MatchSection(s, includeMatch), TypeSection(registry, s, includeMatch),
           EncodeFields(registry.text, s.fields));
  }

  lemma InARow(a: seq<YamlEntry>, b: seq<YamlEntry>, c: seq<YamlEntry>)
    ensures var all := a + b + c;
            && |all| == |a| + |b| + |c|
            && (a != [] ==> all[0] == a[0])
            && (b != [] ==> all[|a|] == b[0])
            && forall i | 0 <= i < |c| :: all[|a| + |b| + i] == c[i]
  {
  }

  lemma MatchIsSaid(s: State, includeMatch: bool)
    ensures MatchSection(s, includeMatch) ==
            if includeMatch then [YamlEntry(Text("match"), Mapping(MatchEntries(s.matchSpec)))] else []
  {
    hide MatchEntries;
  }

  lemma TypeIsSaid(registry: SchemaRegistry, s: State, includeMatch: bool)
    ensures TypeSection(registry, s, includeMatch) ==
            if SaysType(registry, s, includeMatch) then [YamlEntry(Text("type"), Text(s.deviceType))] else []
  {
    hide ImpliedType, Implies;
    ImpliedTypeMeans(registry.fragments, s.fields);
  }

  ghost predicate IsLayout(registry: SchemaRegistry, s: State, includeMatch: bool, entries: seq<YamlEntry>) {
    var ofMatch := if includeMatch then 1 else 0;
    var header := if SaysType(registry, s, includeMatch) then ofMatch + 1 else ofMatch;
    && |entries| == header + |s.fields|
    && (includeMatch ==> entries[0] == YamlEntry(Text("match"), Mapping(MatchEntries(s.matchSpec))))
    && (header > ofMatch ==> entries[ofMatch] == YamlEntry(Text("type"), Text(s.deviceType)))
    && forall i | 0 <= i < |s.fields| :: entries[header + i].key == Text(s.fields[i].key)
  }
}
