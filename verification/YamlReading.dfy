/** What the reader of YAML trees accepts, and what it makes of them (yaml.rs). */
module YamlReading {
  import opened Wrappers
  import opened OrderedMaps
  import opened Latest
  import opened Values
  import opened Schemas
  import opened NetworkTexts
  import opened Yaml
  import opened YamlLaws

  // ---------------------------------------------------------------- what can be read

  /** The text of a scalar key; anything else has none. */
  ghost predicate Spells(key: Yaml, text: string) {
    match key
    case Text(s) => text == s
    case Number(Natural(n)) => text == Decimal(n)
    case Number(Negative(n)) => var n: int := n; text == "-" + Decimal(-n)
    case Number(Float(s)) => text == s
    case Boolean(b) => text == if b then "true" else "false"
    case _ => false
  }

  predicate IsScalarKey(key: Yaml) {
    key.Text? || key.Number? || key.Boolean?
  }

  /** No null, no float, no tag as a value, and scalar keys only. */
  ghost predicate Readable(y: Yaml) {
    match y
    case Null => false
    case Boolean(_) => true
    case Number(number) => !number.Float?
    case Text(_) => true
    case Sequence(items) => forall item | item in items :: Readable(item)
    case Mapping(entries) => forall e | e in entries :: IsScalarKey(e.key) && ReadableEntry(e)
    case Tagged(_, _) => false
  }

  ghost predicate ReadableEntry(e: YamlEntry) {
    Readable(e.value)
  }

  /** The error of the first thing that cannot be read, in document order. */
  ghost predicate Troubles(y: Yaml, error: YamlError) {
    match y
    case Null => error == UnsupportedScalar(y)
    case Boolean(_) => false
    case Number(number) => number.Float? && error == UnsupportedScalar(y)
    case Text(_) => false
    case Sequence(items) =>
      exists i | 0 <= i < |items| :: Troubles(items[i], error) && forall j | 0 <= j < i :: Readable(items[j])
    case Mapping(entries) =>
      TroublesEntries(entries, error)
    case Tagged(_, _) => error == TagNotSupported
  }

  ghost predicate TroublesEntries(entries: seq<YamlEntry>, error: YamlError) {
    exists i | 0 <= i < |entries| ::
      && TroublesEntry(entries[i], error)
      && forall j | 0 <= j < i :: IsScalarKey(entries[j].key) && ReadableEntry(entries[j])
  }

  ghost predicate TroublesEntry(e: YamlEntry, error: YamlError) {
    if IsScalarKey(e.key) then Troubles(e.value, error) else error == InvalidFieldKey(e.key)
  }

  // ---------------------------------------------------------------- what is read

  ghost predicate ReadsText(text: IpText, schema: Cursor, s: string, value: Value) {
    if schema.Some? && schema.value.fieldType == Some(StringType) && schema.value.format == Some(Ipv4Cidr)
       && exists addr: IpAddr, prefix: nat :: IsNetworkText(text, s, addr, prefix)
    then value.IpNetwork? && IsNetworkText(text, s, value.net, value.prefix)
    else value == String(s)
  }

  /** The schema of a key below a node, and of the items of one. */
  function Below(schema: Cursor, key: string): (r: Option<SchemaNode>)
    ensures r.Some? ==> ValidSchemaNode(r.value)
  {
    if schema.None? then None else Get(schema.value.properties, key)
  }

  function EachItem(schema: Cursor): (r: Option<SchemaNode>)
    ensures r.Some? ==> ValidSchemaNode(r.value)
  {
    if schema.None? then None else schema.value.items
  }

  /**
   A tree reads as a value: scalars as themselves, text as its schema says,
   sequences item by item, and mappings key by key, where keys spelled alike are
   one, which has the latest value in the place of the first.
   */
  ghost predicate Reads(text: IpText, schema: Cursor, y: Yaml, value: Value)
    decreases y, 0
  {
    match y
    case Boolean(b) => value == Bool(b)
    case Number(Natural(n)) => value == U64(n)
    case Number(Negative(n)) => value == I64(n)
    case Text(s) => ReadsText(text, schema, s, value)
    case Sequence(items) =>
      && value.List? && |value.items| == |items|
      && forall i | 0 <= i < |items| :: Reads(text, EachItem(schema), items[i], value.items[i])
    case Mapping(entries) =>
      && value.Map?
      && exists writes :: ReadsEntries(text, schema, entries, writes) && KeepsLatest(writes, value.entries)
    case _ => false
  }

  ghost predicate ReadsEntries(text: IpText, schema: Cursor, entries: seq<YamlEntry>, writes: seq<Entry<Value>>)
    decreases entries, 1
  {
    && |writes| == |entries|
    && forall i | 0 <= i < |entries| :: ReadsEntry(text, schema, entries[i], writes[i])
  }

  ghost predicate ReadsEntry(text: IpText, schema: Cursor, entry: YamlEntry, write: Entry<Value>)
    decreases entry, 0
  {
    Spells(entry.key, write.key) && Reads(text, Below(schema, write.key), entry.value, write.value)
  }

  // ---------------------------------------------------------------- values

  lemma KeyTextMeans(key: Yaml)
    ensures KeyText(key) == if IsScalarKey(key) then KeyText(key) else Failure(InvalidFieldKey(key))
    ensures KeyText(key).Success? <==> IsScalarKey(key)
    ensures forall s :: KeyText(key) == Success(s) <==> Spells(key, s)
  {
  }

  lemma CidrPathMeans(node: SchemaNode)
    requires ValidSchemaNode(node)
    ensures SemanticType(node) == Some(IpNetworkType) <==>
            node.fieldType == Some(StringType) && node.format == Some(Ipv4Cidr)
  {
    assert node.format.Some? ==> node.format.value.Ipv4Cidr?;
  }

  lemma StringMeans(text: IpText, schema: Cursor, s: string)
    ensures ReadsText(text, schema, s, DecodeString(text, schema, s))
  {
    hide ParseIpNetwork, IsNetworkText, ValidSchemaNode, SemanticType;
    if schema.Some? {
      CidrPathMeans(schema.value);
    }
    var network := ParseIpNetwork(text, s);
    if network.Some? {
      NetworkTextMeans(text, s, network.value.0, network.value.1);
      var addr, prefix: nat := network.value.0, network.value.1;
      assert IsNetworkText(text, s, addr, prefix);
    }
    forall addr: IpAddr, prefix: nat | IsNetworkText(text, s, addr, prefix) ensures network == Some((addr, prefix)) {
      PrefixFits(text, s, addr, prefix);
      NetworkTextMeans(text, s, addr, prefix);
    }
  }

  lemma CursorsMean(schema: Cursor, key: string)
    ensures PropertyCursor(schema, key) == Below(schema, key)
    ensures ItemsCursor(schema) == EachItem(schema)
  {
  }

  /** A value is read exactly from the readable trees, as they read; the first trouble is the error. */
  lemma {:induction false} ValueReads(text: IpText, schema: Cursor, y: Yaml)
    ensures DecodeValue(text, schema, y).Success? <==> Readable(y)
    ensures DecodeValue(text, schema, y).Success? ==> Reads(text, schema, y, DecodeValue(text, schema, y).value)
    ensures DecodeValue(text, schema, y).Failure? ==> Troubles(y, DecodeValue(text, schema, y).error)
    decreases y, 0
  {
    hide PropertyCursor, ItemsCursor, DecodeString, ReadsText, DecodeItems, DecodeEntries, KeepsLatest;
    CursorsMean(schema, "");
    match y {
      case Text(s) => StringMeans(text, schema, s);
      case Sequence(items) => ItemsRead(text, ItemsCursor(schema), items);
      case Mapping(entries) =>
        NothingWritten<Value>();
        var writes := EntriesRead(text, schema, entries, [], []);
        assert [] + writes == writes;
      case _ =>
    }
  }

  lemma {:induction false} ItemsRead(text: IpText, schema: Cursor, items: seq<Yaml>)
    ensures DecodeItems(text, schema, items).Success? <==> forall item | item in items :: Readable(item)
    ensures DecodeItems(text, schema, items).Success? ==>
              var values := DecodeItems(text, schema, items).value;
              |values| == |items| && forall i | 0 <= i < |items| :: Reads(text, schema, items[i], values[i])
    ensures DecodeItems(text, schema, items).Failure? ==>
              exists i | 0 <= i < |items| ::
                && Troubles(items[i], DecodeItems(text, schema, items).error)
                && forall j | 0 <= j < i :: Readable(items[j])
    decreases items, 0
  {
    hide DecodeValue, Readable, Troubles, Reads;
    if items != [] {
      ValueReads(text, schema, items[0]);
      var tail := items[1..];
      ItemsRead(text, schema, tail);
      assert items == [items[0]] + tail;
      if DecodeValue(text, schema, items[0]).Success? && DecodeItems(text, schema, tail).Failure? {
        var error := DecodeItems(text, schema, tail).error;
        var i :| 0 <= i < |tail| && Troubles(tail[i], error) && forall j | 0 <= j < i :: Readable(tail[j]);
        assert Troubles(items[i + 1], error);
        assert forall j | 0 < j < i + 1 :: items[j] == tail[j - 1];
      }
    }
  }

  lemma {:induction false} EntryReads(text: IpText, schema: Cursor, entry: YamlEntry)
    ensures var value := DecodeEntryValue(text, schema, entry);
            && (value.Success? <==> ReadableEntry(entry))
            && (value.Success? ==> Reads(text, schema, entry.value, value.value))
            && (value.Failure? ==> Troubles(entry.value, value.error))
    decreases entry, 0
  {
    hide DecodeValue, Readable, Troubles, Reads;
    ValueReads(text, schema, entry.value);
  }

  lemma {:induction false} EntriesRead(text: IpText, schema: Cursor, entries: seq<YamlEntry>, before: seq<Entry<Value>>,
                                       decoded: Fields) returns (writes: seq<Entry<Value>>)
    requires KeepsLatest(before, decoded)
    ensures DecodeEntries(text, schema, entries, decoded).Success? <==>
            forall e | e in entries :: IsScalarKey(e.key) && ReadableEntry(e)
    ensures DecodeEntries(text, schema, entries, decoded).Success? ==>
              && ReadsEntries(text, schema, entries, writes)
              && KeepsLatest(before + writes, DecodeEntries(text, schema, entries, decoded).value)
    ensures DecodeEntries(text, schema, entries, decoded).Failure? ==>
              TroublesEntries(entries, DecodeEntries(text, schema, entries, decoded).error)
    decreases entries, 0
  {
    hide DecodeEntryValue, ReadableEntry, Troubles, Reads, KeepsLatest, Spells, Insert, PropertyCursor, KeyText,
      TroublesEntries;
    if entries == [] {
      assert before + [] == before;
      return [];
    }
    var first, tail := entries[0], entries[1..];
    assert entries == [first] + tail;
    KeyTextMeans(first.key);
    if !IsScalarKey(first.key) {
      HeadTroubles(entries, InvalidFieldKey(first.key));
      return [];
    }
    var key := KeyText(first.key).value;
    CursorsMean(schema, key);
    EntryReads(text, PropertyCursor(schema, key), entries[0]);
    var value := DecodeEntryValue(text, PropertyCursor(schema, key), first);
    if value.Failure? {
      HeadTroubles(entries, value.error);
      return [];
    }
    var w := Entry(key, value.value);
    WriteKeepsLatest(before, decoded, w);
    var rest := EntriesRead(text, schema, tail, before + [w], Insert(decoded, key, value.value));
    writes := [w] + rest;
    assert before + [w] + rest == before + writes;
    if DecodeEntries(text, schema, entries, decoded).Failure? {
      TailTroubles(entries, DecodeEntries(text, schema, entries, decoded).error);
    }
  }

  lemma HeadTroubles(entries: seq<YamlEntry>, error: YamlError)
    requires entries != [] && TroublesEntry(entries[0], error)
    ensures TroublesEntries(entries, error)
  {
  }

  lemma TailTroubles(entries: seq<YamlEntry>, error: YamlError)
    requires entries != [] && IsScalarKey(entries[0].key) && ReadableEntry(entries[0])
    requires TroublesEntries(entries[1..], error)
    ensures TroublesEntries(entries, error)
  {
    hide ReadableEntry, TroublesEntry;
    var tail := entries[1..];
    var i :| 0 <= i < |tail| && TroublesEntry(tail[i], error)
             && forall j | 0 <= j < i :: IsScalarKey(tail[j].key) && ReadableEntry(tail[j]);
    assert entries[i + 1] == tail[i];
    assert forall j | 0 < j < i + 1 :: entries[j] == tail[j - 1];
  }

  // ---------------------------------------------------------------- networks

  /** What is printed for a network passes as an IPv4 one, in either form, exactly if it is one. */
  lemma PrintedNetworksValidate(w: Walk, node: SchemaNode, addr: IpAddr, prefix: u8, path: string)
    requires Faithful(w.text) && ValidSchemaNode(node)
    requires node.fieldType == Some(StringType) && node.format == Some(Ipv4Cidr)
    ensures WalkNode(w, node, IpNetwork(addr, prefix), path) == [] <==> addr.V4? && prefix <= 32
    ensures WalkNode(w, node, String(NetworkText(w.text, addr, prefix)), path) == [] <==> addr.V4? && prefix <= 32
    ensures IsIpv4NetworkText(w.text, NetworkText(w.text, addr, prefix)) <==> addr.V4? && prefix <= 32
  {
    hide ParseIpNetwork, NetworkText, IsIpv4NetworkText;
    NetworkTextReads(w.text, addr, prefix);
    Ipv4NetworkTextMeans(w.text, NetworkText(w.text, addr, prefix));
  }
}
