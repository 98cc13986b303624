/** Printing and parsing undo each other exactly on representable states (yaml.rs). */
module YamlLaws {
  import opened Wrappers
  import opened OrderedMaps
  import opened Values
  import opened Schemas
  import opened Preparation
  import opened Yaml

  // ---------------------------------------------------------------- text

  /** Address text parses back and never contains the prefix separator. */
  ghost predicate Faithful(text: IpText) {
    forall addr :: text.parse(text.show(addr)) == Some(addr) && '/' !in text.show(addr)
  }

  function MaxPrefix(addr: IpAddr): u8 {
    if addr.V4? then 32 else 128
  }

  lemma {:induction false} DigitsAppend(s: string, d: nat, value: u8)
    requires d < 10
    ensures ParseDigits(s + [Digit(d)], value) ==
      match ParseDigits(s, value)
      case None => None
      case Some(v) => if v * 10 + d > 255 then None else Some(v * 10 + d)
    decreases |s|
  {
    DigitReads(d);
    if s == "" {
      assert (s + [Digit(d)])[1..] == "";
    } else {
      assert (s + [Digit(d)])[1..] == s[1..] + [Digit(d)];
      var first := DigitValue(s[0]);
      if first.Some? && value * 10 + first.value <= 255 {
        DigitsAppend(s[1..], d, value * 10 + first.value);
      }
    }
  }

  lemma DigitReads(d: nat)
    requires d < 10
    ensures DigitValue(Digit(d)) == Some(d) && Digit(d) != '+'
  {
  }

  lemma {:induction false} DecimalReads(n: nat)
    requires n <= 255
    ensures ParseDigits(Decimal(n), 0) == Some(n)
    ensures Decimal(n)[0] != '+'
  {
    DigitReads(n % 10);
    if n < 10 {
      assert Decimal(n) == "" + [Digit(n)];
      DigitsAppend("", n, 0);
    } else {
      DecimalReads(n / 10);
      DigitsAppend(Decimal(n / 10), n % 10, 0);
    }
  }

  /** A printed network reads back exactly when its prefix length is valid. */
  lemma NetworkTextReads(text: IpText, addr: IpAddr, prefix: u8)
    requires Faithful(text)
    ensures ParseIpNetwork(text, NetworkText(text, addr, prefix))
         == if prefix <= MaxPrefix(addr) then Some((addr, prefix)) else None
  {
    SplitOnceAt(text.show(addr), Decimal(prefix), '/');
    DecimalReads(prefix);
  }

  // ---------------------------------------------------------------- values

  /** What a value becomes when it is printed and parsed again. */
  function Reread(text: IpText, schema: Cursor, value: Value): Value
    decreases value
  {
    match value
    case String(s) => DecodeString(text, schema, s)
    case U64(_) => value
    case I64(n) => if n < 0 then value else U64(n)
    case Bool(_) => value
    case Ip(addr) => DecodeString(text, schema, text.show(addr))
    case IpNetwork(addr, prefix) => DecodeString(text, schema, NetworkText(text, addr, prefix))
    case List(items) => List(RereadItems(text, ItemsCursor(schema), items))
    case Map(entries) => Map(RereadFields(text, schema, entries))
  }

  function RereadItems(text: IpText, schema: Cursor, items: seq<Value>): seq<Value>
    decreases items
  {
    if items == [] then [] else [Reread(text, schema, items[0])] + RereadItems(text, schema, items[1..])
  }

  function RereadFields(text: IpText, schema: Cursor, fields: Fields): Fields
    decreases fields
  {
    if fields == [] then []
    else
      var value := Reread(text, PropertyCursor(schema, fields[0].key), fields[0].value);
      [Entry(fields[0].key, value)] + RereadFields(text, schema, fields[1..])
  }

  lemma {:induction false} ValueReread(text: IpText, schema: Cursor, value: Value)
    requires WellFormed(value)
    ensures DecodeValue(text, schema, EncodeValue(text, value)) == Success(Reread(text, schema, value))
    decreases value, 0
  {
    hide Get, Insert, PropertyCursor, ItemsCursor, DecodeItems, DecodeEntries, EncodeItems, EncodeFields;
    match value {
      case List(items) => ItemsReread(text, ItemsCursor(schema), items);
      case Map(entries) =>
        EntriesReread(text, schema, entries, []);
        assert [] + RereadFields(text, schema, entries) == RereadFields(text, schema, entries);
      case _ =>
    }
  }

  lemma {:induction false} ItemsReread(text: IpText, schema: Cursor, items: seq<Value>)
    requires forall v | v in items :: WellFormed(v)
    ensures DecodeItems(text, schema, EncodeItems(text, items)) == Success(RereadItems(text, schema, items))
    decreases items, 0
  {
    if items != [] {
      ValueReread(text, schema, items[0]);
      ItemsReread(text, schema, items[1..]);
      assert EncodeItems(text, items)[1..] == EncodeItems(text, items[1..]);
    }
  }

  lemma {:induction false} EntriesReread(text: IpText, schema: Cursor, fields: Fields, decoded: Fields)
    requires WellFormedFields(fields)
    requires forall e, d | e in fields && d in decoded :: e.key != d.key
    ensures DecodeEntries(text, schema, EncodeFields(text, fields), decoded)
      == Success(decoded + RereadFields(text, schema, fields))
    decreases fields, 0
  {
    hide WellFormed, Get, Insert, PropertyCursor, Reread, DecodeValue, EncodeValue;
    if fields == [] {
      assert decoded + [] == decoded;
    } else {
      var first := fields[0];
      UniqueTail(fields);
      assert first in fields;
      var schema' := PropertyCursor(schema, first.key);
      ValueReread(text, schema', first.value);
      var value := Reread(text, schema', first.value);
      assert EncodeFields(text, fields)[1..] == EncodeFields(text, fields[1..]);
      assert EncodeFields(text, fields)[0] == YamlEntry(Text(first.key), EncodeValue(text, first.value));
      AppendNew(decoded, first.key, value);
      var next := decoded + [Entry(first.key, value)];
      EntriesReread(text, schema, fields[1..], next);
      assert decoded + RereadFields(text, schema, fields) == next + RereadFields(text, schema, fields[1..]);
    }
  }

  /** What the format can say: no bare addresses, networks exactly where the schema reads them back. */
  ghost predicate Representable(text: IpText, schema: Cursor, value: Value)
    decreases value
  {
    match value
    case String(s) => IsCidrPath(schema) ==> ParseIpNetwork(text, s).None?
    case U64(_) => true
    case I64(n) => n < 0
    case Bool(_) => true
    case Ip(_) => false
    case IpNetwork(addr, prefix) => IsCidrPath(schema) && prefix <= MaxPrefix(addr)
    case List(items) => forall v | v in items :: Representable(text, ItemsCursor(schema), v)
    case Map(entries) => RepresentableFields(text, schema, entries)
  }

  ghost predicate RepresentableFields(text: IpText, schema: Cursor, fields: Fields)
    decreases fields, 0
  {
    forall e | e in fields :: RepresentableEntry(text, schema, e)
  }

  ghost predicate RepresentableEntry(text: IpText, schema: Cursor, e: Entry<Value>)
    decreases e
  {
    Representable(text, PropertyCursor(schema, e.key), e.value)
  }

  lemma {:induction false} RepresentableExact(text: IpText, schema: Cursor, value: Value)
    requires Faithful(text)
    ensures Reread(text, schema, value) == value <==> Representable(text, schema, value)
    decreases value, 0
  {
    hide ParseIpNetwork, NetworkText;
    match value {
      case IpNetwork(addr, prefix) => NetworkTextReads(text, addr, prefix);
      case List(items) => ItemsRepresentable(text, ItemsCursor(schema), items);
      case Map(entries) => FieldsRepresentable(text, schema, entries);
      case _ =>
    }
  }

  lemma {:induction false} ItemsRepresentable(text: IpText, schema: Cursor, items: seq<Value>)
    requires Faithful(text)
    ensures RereadItems(text, schema, items) == items <==> forall v | v in items :: Representable(text, schema, v)
    decreases items, 0
  {
    hide Reread, Representable;
    if items != [] {
      RepresentableExact(text, schema, items[0]);
      ItemsRepresentable(text, schema, items[1..]);
      assert items == [items[0]] + items[1..];
      var reread := RereadItems(text, schema, items);
      assert reread[0] == Reread(text, schema, items[0]) && reread[1..] == RereadItems(text, schema, items[1..]);
    }
  }

  lemma {:induction false} FieldsRepresentable(text: IpText, schema: Cursor, fields: Fields)
    requires Faithful(text)
    ensures RereadFields(text, schema, fields) == fields <==> RepresentableFields(text, schema, fields)
    decreases fields, 0
  {
    hide Reread, Representable, PropertyCursor;
    if fields != [] {
      var first := fields[0];
      RepresentableExact(text, PropertyCursor(schema, first.key), first.value);
      FieldsRepresentable(text, schema, fields[1..]);
      assert fields == [first] + fields[1..];
      var reread := RereadFields(text, schema, fields);
      assert reread[0] == Entry(first.key, Reread(text, PropertyCursor(schema, first.key), first.value));
      assert reread[1..] == RereadFields(text, schema, fields[1..]);
      assert reread == fields <==> reread[0] == first && reread[1..] == fields[1..];
      assert RepresentableEntry(text, schema, first) <==> reread[0] == first;
      assert first in fields;
    }
  }

  /** Parsing undoes printing for exactly the representable values. */
  lemma ValueRoundTrip(text: IpText, schema: Cursor, value: Value)
    requires Faithful(text) && WellFormed(value)
    ensures DecodeValue(text, schema, EncodeValue(text, value)) == Success(value)
      <==> Representable(text, schema, value)
  {
    ValueReread(text, schema, value);
    RepresentableExact(text, schema, value);
  }

  // ---------------------------------------------------------------- printing again

  /** Text that the schema reads as a network is already in canonical form. */
  ghost predicate CanonicalText(text: IpText, schema: Cursor, value: Value)
    decreases value
  {
    match value
    case String(s) =>
      IsCidrPath(schema) && ParseIpNetwork(text, s).Some? ==>
        s == NetworkText(text, ParseIpNetwork(text, s).value.0, ParseIpNetwork(text, s).value.1)
    case List(items) => forall v | v in items :: CanonicalText(text, ItemsCursor(schema), v)
    case Map(entries) => CanonicalFields(text, schema, entries)
    case _ => true
  }

  ghost predicate CanonicalFields(text: IpText, schema: Cursor, fields: Fields)
    decreases fields, 0
  {
    forall e | e in fields :: CanonicalEntry(text, schema, e)
  }

  ghost predicate CanonicalEntry(text: IpText, schema: Cursor, e: Entry<Value>)
    decreases e
  {
    CanonicalText(text, PropertyCursor(schema, e.key), e.value)
  }

  lemma PlainAddress(text: IpText, addr: IpAddr)
    requires Faithful(text)
    ensures ParseIpNetwork(text, text.show(addr)).None?
  {
    SplitOnceSplitsNone(text.show(addr), '/');
  }

  lemma {:induction false} SplitOnceSplitsNone(s: string, separator: char)
    requires separator !in s
    ensures SplitOnce(s, separator).None?
  {
    if s != "" {
      SplitOnceSplitsNone(s[1..], separator);
    }
  }

  /** Printing what was parsed gives the printed tree again exactly when all network text was canonical. */
  lemma {:induction false} ReprintExact(text: IpText, schema: Cursor, value: Value)
    requires Faithful(text)
    ensures EncodeValue(text, Reread(text, schema, value)) == EncodeValue(text, value)
      <==> CanonicalText(text, schema, value)
    decreases value, 0
  {
    hide ParseIpNetwork, NetworkText;
    match value {
      case Ip(addr) => PlainAddress(text, addr);
      case IpNetwork(addr, prefix) => NetworkTextReads(text, addr, prefix);
      case List(items) => ItemsReprint(text, ItemsCursor(schema), items);
      case Map(entries) => FieldsReprint(text, schema, entries);
      case _ =>
    }
  }

  lemma {:induction false} ItemsReprint(text: IpText, schema: Cursor, items: seq<Value>)
    requires Faithful(text)
    ensures EncodeItems(text, RereadItems(text, schema, items)) == EncodeItems(text, items)
       <==> forall v | v in items :: CanonicalText(text, schema, v)
    decreases items, 0
  {
    hide Reread, EncodeValue, CanonicalText;
    if items != [] {
      ReprintExact(text, schema, items[0]);
      ItemsReprint(text, schema, items[1..]);
      assert items == [items[0]] + items[1..];
      var reread := RereadItems(text, schema, items);
      assert reread[0] == Reread(text, schema, items[0]) && reread[1..] == RereadItems(text, schema, items[1..]);
      var a, b := EncodeItems(text, reread), EncodeItems(text, items);
      assert a[0] == EncodeValue(text, reread[0]) && a[1..] == EncodeItems(text, reread[1..]);
      assert b[0] == EncodeValue(text, items[0]) && b[1..] == EncodeItems(text, items[1..]);
      assert a == b <==> a[0] == b[0] && a[1..] == b[1..];
    }
  }

  lemma {:induction false} FieldsReprint(text: IpText, schema: Cursor, fields: Fields)
    requires Faithful(text)
    ensures EncodeFields(text, RereadFields(text, schema, fields)) == EncodeFields(text, fields)
      <==> CanonicalFields(text, schema, fields)
    decreases fields, 0
  {
    hide Reread, EncodeValue, CanonicalText, PropertyCursor;
    if fields != [] {
      var first := fields[0];
      ReprintExact(text, PropertyCursor(schema, first.key), first.value);
      FieldsReprint(text, schema, fields[1..]);
      assert fields == [first] + fields[1..];
      var reread := RereadFields(text, schema, fields);
      assert reread[0] == Entry(first.key, Reread(text, PropertyCursor(schema, first.key), first.value));
      assert reread[1..] == RereadFields(text, schema, fields[1..]);
      EncodedHead(text, reread);
      EncodedHead(text, fields);
      var a, b := EncodeFields(text, reread), EncodeFields(text, fields);
      assert a == b <==> a[0] == b[0] && a[1..] == b[1..];
      assert CanonicalEntry(text, schema, first) <==> a[0] == b[0];
      assert first in fields;
    }
  }

  lemma EncodedHead(text: IpText, fields: Fields)
    requires fields != []
    ensures var encoded := EncodeFields(text, fields);
            && encoded != [] && encoded[0] == YamlEntry(Text(fields[0].key), EncodeValue(text, fields[0].value))
            && encoded[1..] == EncodeFields(text, fields[1..])
  {
  }
}
