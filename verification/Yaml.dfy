/** The two YAML forms of a state, at the level of trees (yaml.rs). */
module Yaml {
  import opened Wrappers
  import opened OrderedMaps
  import opened Values
  import opened Schemas
  import opened Preparation

  /** A float keeps its text, which is all that is ever asked of it. */
  datatype YamlNumber =
    | Natural(natural: u64)
    | Negative(negative: NegativeInteger)
    | Float(text: string)

  type NegativeInteger = x: int | -0x8000_0000_0000_0000 <= x < 0 witness -1

  datatype YamlEntry = YamlEntry(key: Yaml, value: Yaml)

  datatype Yaml =
    | Null
    | Boolean(flag: bool)
    | Number(number: YamlNumber)
    | Text(text: string)
    | Sequence(items: seq<Yaml>)
    | Mapping(entries: seq<YamlEntry>)
    | Tagged(tag: string, inner: Yaml)

  datatype YamlError =
    | UnsupportedScalar(shape: Yaml)
    | InvalidFieldKey(shape: Yaml)
    | TagNotSupported
    | ReservedFieldKey(key: string)
    | MatchNotMapping
    | MatchValueNotString(key: string)
    | UnknownMatchKey(key: string)
    | PolicyWrapperNotSupported
    | UnknownKind

  // ---------------------------------------------------------------- schema paths

  type Cursor = schema: Option<SchemaNode> | schema.Some? ==> ValidSchemaNode(schema.value)
    witness None

  function PropertyCursor(schema: Cursor, key: string): Cursor {
    match schema
    case None => None
    case Some(node) =>
      if Property(node, key).Some? then PropertyIsValid(node, key); Property(node, key) else None
  }

  function ItemsCursor(schema: Cursor): Cursor {
    match schema
    case None => None
    case Some(node) => node.items
  }

  /** The schema of a top-level key: a base field first, a fragment otherwise. */
  function SchemaAt(registry: SchemaRegistry, key: string): Cursor
    requires ValidRegistry(registry)
  {
    var root := BaseRoot(registry);
    if Property(root, key).Some? then PropertyIsValid(root, key); Property(root, key)
    else
      match FindTrigger(registry.fragments, Some(key))
      case None => None
      case Some(f) =>
        FoundTrigger(registry.fragments, Some(key));
        Some(f.root)
  }

  predicate IsCidrPath(schema: Cursor) {
    schema.Some? && SemanticType(schema.value) == Some(IpNetworkType)
  }

  /** Text becomes a network only where the schema asks for one and the text parses. */
  function DecodeString(text: IpText, schema: Cursor, s: string): Value {
    if IsCidrPath(schema) then
      match ParseIpNetwork(text, s)
      case Some((addr, prefix)) => IpNetwork(addr, prefix)
      case None => String(s)
    else String(s)
  }

  // ---------------------------------------------------------------- values

  /** Accessors look through tags; matching on a node's shape does not. */
  function Untagged(y: Yaml): (r: Yaml)
    ensures !r.Tagged?
  {
    match y
    case Tagged(_, inner) => Untagged(inner)
    case _ => y
  }

  function KeyText(key: Yaml): Result<string, YamlError> {
    match key
    case Text(s) => Success(s)
    case Number(Natural(n)) => Success(Decimal(n))
    case Number(Negative(n)) => var magnitude: int := n; Success("-" + Decimal(-magnitude))
    case Number(Float(s)) => Success(s)
    case Boolean(b) => Success(if b then "true" else "false")
    case _ => Failure(InvalidFieldKey(key))
  }

  function DecodeValue(text: IpText, schema: Cursor, y: Yaml): Result<Value, YamlError>
    decreases y
  {
    match y
    case Null => Failure(UnsupportedScalar(y))
    case Boolean(b) => Success(Bool(b))
    case Number(Natural(n)) => Success(U64(n))
    case Number(Negative(n)) => Success(I64(n))
    case Number(Float(_)) => Failure(UnsupportedScalar(y))
    case Text(s) => Success(DecodeString(text, schema, s))
    case Sequence(items) =>
      (match DecodeItems(text, ItemsCursor(schema), items)
       case Failure(error) => Failure(error)
       case Success(values) => Success(List(values)))
    case Mapping(entries) =>
      (match DecodeEntries(text, schema, entries, [])
       case Failure(error) => Failure(error)
       case Success(fields) => Success(Map(fields)))
    case Tagged(_, _) => Failure(TagNotSupported)
  }

  function DecodeItems(text: IpText, schema: Cursor, items: seq<Yaml>): Result<seq<Value>, YamlError>
    decreases items
  {
    if items == [] then Success([])
    else
      match DecodeValue(text, schema, items[0])
      case Failure(error) => Failure(error)
      case Success(value) =>
        match DecodeItems(text, schema, items[1..])
        case Failure(error) => Failure(error)
        case Success(values) => Success([value] + values)
  }

  function DecodeEntryValue(text: IpText, schema: Cursor, entry: YamlEntry): Result<Value, YamlError>
    decreases entry
  {
    DecodeValue(text, schema, entry.value)
  }

  /** Keys that are spelled alike share one entry: the later value wins, in the earlier place. */
  function DecodeEntries(text: IpText, schema: Cursor, entries: seq<YamlEntry>,
                         decoded: Fields): Result<Fields, YamlError>
    decreases entries
  {
    if entries == [] then Success(decoded)
    else
      match KeyText(entries[0].key)
      case Failure(error) => Failure(error)
      case Success(key) =>
        match DecodeEntryValue(text, PropertyCursor(schema, key), entries[0])
        case Failure(error) => Failure(error)
        case Success(value) => DecodeEntries(text, schema, entries[1..], Insert(decoded, key, value))
  }

  function NetworkText(text: IpText, addr: IpAddr, prefix: u8): string {
    text.show(addr) + "/" + Decimal(prefix)
  }

  function NumberOf(n: int): YamlNumber
    requires -0x8000_0000_0000_0000 <= n < 0x1_0000_0000_0000_0000
  {
    if n < 0 then Negative(n) else Natural(n)
  }

  function EncodeValue(text: IpText, value: Value): Yaml
    decreases value
  {
    match value
    case String(s) => Text(s)
    case U64(n) => Number(NumberOf(n))
    case I64(n) => Number(NumberOf(n))
    case Bool(b) => Boolean(b)
    case Ip(addr) => Text(text.show(addr))
    case IpNetwork(addr, prefix) => Text(NetworkText(text, addr, prefix))
    case List(items) => Sequence(EncodeItems(text, items))
    case Map(entries) => Mapping(EncodeFields(text, entries))
  }

  function EncodeItems(text: IpText, items: seq<Value>): seq<Yaml>
    decreases items
  {
    if items == [] then [] else [EncodeValue(text, items[0])] + EncodeItems(text, items[1..])
  }

  function EncodeFields(text: IpText, fields: Fields): seq<YamlEntry>
    decreases fields
  {
    if fields == [] then []
    else [YamlEntry(Text(fields[0].key), EncodeValue(text, fields[0].value))] + EncodeFields(text, fields[1..])
  }

  // ---------------------------------------------------------------- matches

  function MatchEntry(key: string, value: Option<string>): seq<YamlEntry> {
    match value case None => [] case Some(s) => [YamlEntry(Text(key), Text(s))]
  }

  /** The sub-keys in their fixed order; absent ones are left out. */
  function MatchEntries(m: Match): seq<YamlEntry> {
    MatchEntry("name", m.name) + (MatchEntry("type", m.deviceType) + (MatchEntry("driver", m.driver) +
    (MatchEntry("pci_path", m.pciPath) + MatchEntry("mac", m.mac))))
  }

  function WithMatchKey(m: Match, key: string, s: string): Result<Match, YamlError> {
    if key == "name" then Success(m.(name := Some(s)))
    else if key == "type" then Success(m.(deviceType := Some(s)))
    else if key == "driver" then Success(m.(driver := Some(s)))
    else if key == "pci_path" then Success(m.(pciPath := Some(s)))
    else if key == "mac" then Success(m.(mac := Some(s)))
    else Failure(UnknownMatchKey(key))
  }

  function ParseMatchEntry(m: Match, entry: YamlEntry): Result<Match, YamlError> {
    match KeyText(entry.key)
    case Failure(error) => Failure(error)
    case Success(key) =>
      match Untagged(entry.value)
      case Text(s) => WithMatchKey(m, key, s)
      case _ => Failure(MatchValueNotString(key))
  }

  function ParseMatchFrom(m: Match, entries: seq<YamlEntry>): Result<Match, YamlError>
    decreases |entries|
  {
    if entries == [] then Success(m)
    else match ParseMatchEntry(m, entries[0])
         case Failure(error) => Failure(error)
         case Success(next) => ParseMatchFrom(next, entries[1..])
  }

  function ParseMatch(y: Yaml): Result<Match, YamlError> {
    match Untagged(y)
    case Mapping(entries) => ParseMatchFrom(EMPTY_MATCH, entries)
    case _ => Failure(MatchNotMapping)
  }

  method DecodeMatch(y: Yaml) returns (result: Result<Match, YamlError>)
    ensures result == ParseMatch(y)
  {
    hide ParseMatchEntry;
    var section := Untagged(y);
    if !section.Mapping? {
      return Failure(MatchNotMapping);
    }
    var m, entries := EMPTY_MATCH, section.entries;
    for i := 0 to |entries|
      invariant ParseMatchFrom(m, entries[i..]) == ParseMatchFrom(EMPTY_MATCH, entries)
    {
      assert entries[i..][0] == entries[i] && entries[i..][1..] == entries[i + 1..];
      var next := ParseMatchEntry(m, entries[i]);
      if next.Failure? {
        return next;
      }
      m := next.value;
    }
    result := Success(m);
  }

  // ---------------------------------------------------------------- states

  /** The first device type implied by a fragment whose trigger the fields hold. */
  function ImpliedType(fragments: seq<Fragment>, fields: Fields): Option<string> {
    if fragments == [] then None
    else if
      && fragments[0].triggerKey.Some? && Has(fields, fragments[0].triggerKey.value)
      && fragments[0].root.impliedDeviceType.Some?
    then fragments[0].root.impliedDeviceType
    else ImpliedType(fragments[1..], fields)
  }

  predicate Reserved(key: string) {
    key == "match" || key == "type" || key == "kind"
  }

  function FirstReserved(fields: Fields): (r: Option<string>)
    ensures r.None? <==> forall e | e in fields :: !Reserved(e.key)
  {
    if fields == [] then None
    else if Reserved(fields[0].key) then Some(fields[0].key)
    else FirstReserved(fields[1..])
  }

  function MatchSection(s: State, includeMatch: bool): seq<YamlEntry> {
    if includeMatch then [YamlEntry(Text("match"), Mapping(MatchEntries(s.matchSpec)))] else []
  }

  /** A policy leaves out a type its fields imply; a query result always states it. */
  function TypeSection(registry: SchemaRegistry, s: State, includeMatch: bool): seq<YamlEntry> {
    if s.deviceType == "" || (includeMatch && ImpliedType(registry.fragments, s.fields) == Some(s.deviceType)) then []
    else [YamlEntry(Text("type"), Text(s.deviceType))]
  }

  /** The tree of a state: its match in the policy form, its type unless it goes without saying, its fields. */
  function StateTree(registry: SchemaRegistry, s: State, includeMatch: bool): Result<Yaml, YamlError> {
    var reserved := FirstReserved(s.fields);
    if reserved.Some? then Failure(ReservedFieldKey(reserved.value))
    else Success(Mapping(MatchSection(s, includeMatch) + TypeSection(registry, s, includeMatch)
                         + EncodeFields(registry.text, s.fields)))
  }

  method EncodeState(registry: SchemaRegistry, s: State, includeMatch: bool) returns (result: Result<Yaml, YamlError>)
    ensures result == StateTree(registry, s, includeMatch)
  {
    hide MatchEntries, ImpliedType, EncodeValue;
    for i := 0 to |s.fields|
      invariant FirstReserved(s.fields) == FirstReserved(s.fields[i..])
    {
      assert s.fields[i..][0] == s.fields[i] && s.fields[i..][1..] == s.fields[i + 1..];
      if Reserved(s.fields[i].key) {
        return Failure(ReservedFieldKey(s.fields[i].key));
      }
    }
    assert s.fields[|s.fields|..] == [];
    var entries := [];
    if includeMatch {
      entries := entries + [YamlEntry(Text("match"), Mapping(MatchEntries(s.matchSpec)))];
    }
    var typeIsImplied := ImpliedType(registry.fragments, s.fields) == Some(s.deviceType);
    if !(s.deviceType == "" || (includeMatch && typeIsImplied)) {
      entries := entries + [YamlEntry(Text("type"), Text(s.deviceType))];
    }
    ghost var header := entries;
    assert header == MatchSection(s, includeMatch) + TypeSection(registry, s, includeMatch);
    for i := 0 to |s.fields|
      invariant entries + EncodeFields(registry.text, s.fields[i..]) == header + EncodeFields(registry.text, s.fields)
    {
      assert s.fields[i..][0] == s.fields[i] && s.fields[i..][1..] == s.fields[i + 1..];
      entries := entries + [YamlEntry(Text(s.fields[i].key), EncodeValue(registry.text, s.fields[i].value))];
    }
    assert EncodeFields(registry.text, []) == [];
    assert entries + [] == entries;
    assert entries == header + EncodeFields(registry.text, s.fields);
    result := Success(Mapping(entries));
  }

  /** What a device mapping has yielded so far. */
  datatype Draft = Draft(matchSpec: Match, deviceType: string, fields: Fields)

  const EMPTY_DRAFT := Draft(EMPTY_MATCH, "", [])

  function ParseKind(y: Yaml): Option<YamlError> {
    if y == Text("state") then None
    else if y == Text("policy") then Some(PolicyWrapperNotSupported)
    else Some(UnknownKind)
  }

  function DecodeDeviceEntry(registry: SchemaRegistry, draft: Draft, entry: YamlEntry): Result<Draft, YamlError>
    requires ValidRegistry(registry)
  {
    match KeyText(entry.key)
    case Failure(error) => Failure(error)
    case Success(key) =>
      if key == "match" then
        match ParseMatch(entry.value)
        case Failure(error) => Failure(error)
        case Success(m) => Success(draft.(matchSpec := m))
      else if key == "kind" then
        match ParseKind(entry.value)
        case Some(error) => Failure(error)
        case None => Success(draft)
      else if key == "type" then
        match Untagged(entry.value)
        case Text(s) => Success(draft.(deviceType := s))
        case _ => Failure(UnsupportedScalar(entry.value))
      else
        match DecodeValue(registry.text, SchemaAt(registry, key), entry.value)
        case Failure(error) => Failure(error)
        case Success(value) => Success(draft.(fields := Insert(draft.fields, key, value)))
  }

  function DecodeDevice(registry: SchemaRegistry, draft: Draft, entries: seq<YamlEntry>): Result<Draft, YamlError>
    requires ValidRegistry(registry)
    decreases |entries|
  {
    if entries == [] then Success(draft)
    else match DecodeDeviceEntry(registry, draft, entries[0])
         case Failure(error) => Failure(error)
         case Success(next) => DecodeDevice(registry, next, entries[1..])
  }

  /** A sub-object implies the type only when none is given. */
  function Finish(registry: SchemaRegistry, draft: Draft): State {
    var implied := ImpliedType(registry.fragments, draft.fields);
    NewState(Static("")).(
      matchSpec := draft.matchSpec,
      deviceType := if draft.deviceType == "" && implied.Some? then implied.value else draft.deviceType,
      fields := draft.fields)
  }

  function StateFromTree(registry: SchemaRegistry, entries: seq<YamlEntry>): Result<State, YamlError>
    requires ValidRegistry(registry)
  {
    match DecodeDevice(registry, EMPTY_DRAFT, entries)
    case Failure(error) => Failure(error)
    case Success(draft) => Success(Finish(registry, draft))
  }

  method DecodeState(registry: SchemaRegistry, entries: seq<YamlEntry>) returns (result: Result<State, YamlError>)
    requires ValidRegistry(registry)
    ensures result == StateFromTree(registry, entries)
  {
    hide ValidRegistry, DecodeValue, ParseMatchFrom, ImpliedType, SchemaAt, DecodeDeviceEntry;
    var draft := EMPTY_DRAFT;
    for i := 0 to |entries|
      invariant DecodeDevice(registry, draft, entries[i..]) == DecodeDevice(registry, EMPTY_DRAFT, entries)
    {
      assert entries[i..][0] == entries[i] && entries[i..][1..] == entries[i + 1..];
      var next := DecodeEntry(registry, draft, entries[i]);
      if next.Failure? {
        return Failure(next.error);
      }
      draft := next.value;
    }
    var state := NewState(Static("")).(matchSpec := draft.matchSpec, deviceType := draft.deviceType,
                                       fields := draft.fields);
    if state.deviceType == "" {
      var implied := ImpliedType(registry.fragments, state.fields);
      if implied.Some? {
        state := state.(deviceType := implied.value);
      }
    }
    result := Success(state);
  }

  /** Route one top-level key: the reserved ones, or a field decoded by its schema. */
  method DecodeEntry(registry: SchemaRegistry, draft: Draft, entry: YamlEntry)
    returns (result: Result<Draft, YamlError>)
    requires ValidRegistry(registry)
    ensures result == DecodeDeviceEntry(registry, draft, entry)
  {
    hide ValidRegistry, DecodeValue, ParseMatchFrom, SchemaAt, Insert;
    var key := KeyText(entry.key);
    if key.Failure? {
      return Failure(key.error);
    }
    match key.value {
      case "match" =>
        var m := DecodeMatch(entry.value);
        result := if m.Failure? then Failure(m.error) else Success(draft.(matchSpec := m.value));
      case "kind" =>
        var error := ParseKind(entry.value);
        result := if error.Some? then Failure(error.value) else Success(draft);
      case "type" =>
        var kind := Untagged(entry.value);
        result := if kind.Text? then Success(draft.(deviceType := kind.text))
                  else Failure(UnsupportedScalar(entry.value));
      case field =>
        var value := DecodeValue(registry.text, SchemaAt(registry, field), entry.value);
        result := if value.Failure? then Failure(value.error)
                  else Success(draft.(fields := Insert(draft.fields, field, value.value)));
    }
  }
}
