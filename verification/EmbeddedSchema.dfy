/** What the embedded schema accepts, field by field (the schema fragments under schemas/). */
module EmbeddedSchema {
  import opened Wrappers
  import opened OrderedMaps
  import opened Values
  import opened Schemas
  import opened NetworkTexts
  import opened Conformance
  import opened PreparationLaws
  import opened Yaml

  predicate IsInteger(value: Value) {
    value.U64? || value.I64?
  }

  predicate IsIntegerWithin(value: Value, low: int, high: int) {
    match value
    case U64(n) => low <= n <= high
    case I64(n) => low <= n <= high
    case _ => false
  }

  ghost predicate IsIpv4Network(text: IpText, value: Value) {
    match value
    case IpNetwork(addr, prefix) => addr.V4? && prefix <= 32
    case String(s) => IsIpv4NetworkText(text, s)
    case _ => false
  }

  /** Two base fields can be set; the others are only reported. */
  predicate FitsBase(e: Entry<Value>, writableOnly: bool) {
    if e.key == "enabled" then e.value.Bool?
    else if e.key == "mtu" then IsIntegerWithin(e.value, 68, 65535)
    else if e.key == "carrier" then e.value.Bool? && !writableOnly
    else
      && (e.key == "type" || e.key == "name" || e.key == "mac" || e.key == "driver")
      && e.value.String? && !writableOnly
  }

  /** An address has its network, and possibly its two lifetimes. */
  ghost predicate FitsAddress(text: IpText, item: Value) {
    && item.Map? && Has(item.entries, "ip")
    && forall e | e in item.entries ::
         if e.key == "ip" then IsIpv4Network(text, e.value)
         else (e.key == "valid_lft" || e.key == "preferred_lft") && IsInteger(e.value)
  }

  ghost predicate FitsIpv4(text: IpText, value: Value) {
    && value.Map?
    && forall e | e in value.entries ::
         e.key == "addresses" && e.value.List? && forall item | item in e.value.items :: FitsAddress(text, item)
  }

  /** Link properties are only reported. */
  ghost predicate FitsEthernet(value: Value, writableOnly: bool) {
    && value.Map?
    && (writableOnly ==> value.entries == [])
    && forall e | e in value.entries ::
         if e.key == "speed" then IsInteger(e.value)
         else if e.key == "autoneg" then e.value.Bool?
         else e.key == "duplex" && e.value.String? && e.value.text in ["full", "half", "unknown"]
  }

  ghost predicate FitsEmbedded(text: IpText, s: State, writableOnly: bool) {
    && (forall e | e in s.fields && e.key != "ipv4" && e.key != "ethernet" :: FitsBase(e, writableOnly))
    && (Has(s.fields, "ipv4") ==> FitsIpv4(text, Get(s.fields, "ipv4").value))
    && (Has(s.fields, "ethernet") ==> FitsEthernet(Get(s.fields, "ethernet").value, writableOnly))
  }

  // ---------------------------------------------------------------- leaves

  lemma ScalarConforms(w: Walk, t: FieldType, writable: bool, value: Value)
    requires t == StringType || t == BooleanType || t == IntegerType
    ensures ValidSchemaNode(Scalar(t, writable))
    ensures Conforms(w, Scalar(t, writable), value)
            <==> match t
                 case StringType => value.String?
                 case BooleanType => value.Bool?
                 case _ => IsInteger(value)
  {
    LeafIsValid(Scalar(t, writable));
  }

  lemma BaseProperty(key: string)
    ensures Property(BASE_ROOT, key) ==
            if key == "type" || key == "name" || key == "mac" then Some(Scalar(StringType, false))
            else if key == "carrier" then Some(Scalar(BooleanType, false))
            else if key == "driver" then Some(Scalar(StringType, false))
            else if key == "enabled" then Some(Scalar(BooleanType, true))
            else if key == "mtu" then Some(Scalar(IntegerType, true).(minimum := Some(68), maximum := Some(65535)))
            else None
  {
    hide Get, ValidSchemaNode, Scalar;
    assert |BASE_ROOT.properties| == 7;
    LookupOfSeven(BASE_ROOT.properties, key);
  }

  lemma LookupOfSeven(m: OrderedMap<SchemaNode>, key: string)
    requires |m| == 7
    ensures Get(m, key) ==
            if m[0].key == key then Some(m[0].value)
            else if m[1].key == key then Some(m[1].value)
            else if m[2].key == key then Some(m[2].value)
            else if m[3].key == key then Some(m[3].value)
            else if m[4].key == key then Some(m[4].value)
            else if m[5].key == key then Some(m[5].value)
            else if m[6].key == key then Some(m[6].value)
            else None
  {
    hide Get;
    HeadLookup(m, key);
    HeadLookup(m[1..], key);
    HeadLookup(m[2..], key);
    HeadLookup(m[3..], key);
    HeadLookup(m[4..], key);
    HeadLookup(m[5..], key);
    HeadLookup(m[6..], key);
    assert m[7..] == [];
  }

  lemma HeadLookup(m: OrderedMap<SchemaNode>, key: string)
    requires m != []
    ensures Get(m, key) == if m[0].key == key then Some(m[0].value) else Get(m[1..], key)
  {
  }

  lemma BaseEntryConforms(w: Walk, e: Entry<Value>, ignored: seq<string>)
    requires ValidSchemaNode(BASE_ROOT)
    ensures ConformsEntry(w, BASE_ROOT, e, ignored) <==> e.key in ignored || FitsBase(e, w.writableOnly)
  {
    hide ValidSchemaNode, Conforms, Property;
    BaseProperty(e.key);
    ScalarConforms(w, StringType, false, e.value);
    ScalarConforms(w, BooleanType, false, e.value);
    ScalarConforms(w, BooleanType, true, e.value);
    MtuConforms(w, e.value);
  }

  lemma MtuConforms(w: Walk, value: Value)
    ensures var node := Scalar(IntegerType, true).(minimum := Some(68), maximum := Some(65535));
            ValidSchemaNode(node) && (Conforms(w, node, value) <==> IsIntegerWithin(value, 68, 65535))
  {
    LeafIsValid(Scalar(IntegerType, true).(minimum := Some(68), maximum := Some(65535)));
  }

  // ---------------------------------------------------------------- addresses

  lemma ItemProperty(key: string)
    ensures Property(IPV4_ITEM, key) ==
            if key == "ip" then Some(Scalar(StringType, true).(format := Some(Ipv4Cidr)))
            else if key == "valid_lft" || key == "preferred_lft" then Some(Scalar(IntegerType, true))
            else None
  {
  }

  lemma NetworkConforms(w: Walk, value: Value)
    ensures var node := Scalar(StringType, true).(format := Some(Ipv4Cidr));
            ValidSchemaNode(node) && (Conforms(w, node, value) <==> IsIpv4Network(w.text, value))
  {
    hide IsIpv4NetworkText;
    LeafIsValid(Scalar(StringType, true).(format := Some(Ipv4Cidr)));
  }

  lemma AddressConforms(w: Walk, item: Value)
    requires ValidSchemaNode(IPV4_ITEM)
    ensures Conforms(w, IPV4_ITEM, item) <==> FitsAddress(w.text, item)
  {
    hide Property, IsIpv4Network;
    if item.Map? {
      forall e | e in item.entries
        ensures ConformsEntry(w, IPV4_ITEM, e, []) <==>
                if e.key == "ip" then IsIpv4Network(w.text, e.value)
                else (e.key == "valid_lft" || e.key == "preferred_lft") && IsInteger(e.value)
      {
        ItemProperty(e.key);
        NetworkConforms(w, e.value);
        ScalarConforms(w, IntegerType, true, e.value);
      }
      assert IPV4_ITEM.required == ["ip"] && "ip" in IPV4_ITEM.required;
    }
  }

  lemma AddressesConform(w: Walk, fields: Fields)
    requires ValidSchemaNode(IPV4_ROOT)
    ensures ConformsFields(w, IPV4_ROOT, fields, []) <==> FitsIpv4(w.text, Map(fields))
  {
    hide FitsAddress;
    var list := Scalar(ArrayType, true).(items := Some(IPV4_ITEM));
    forall e | e in fields
      ensures ConformsEntry(w, IPV4_ROOT, e, []) <==>
              && e.key == "addresses" && e.value.List?
              && forall item | item in e.value.items :: FitsAddress(w.text, item)
    {
      assert Property(IPV4_ROOT, e.key) == if e.key == "addresses" then Some(list) else None;
      ListConforms(w, e.value);
    }
  }

  lemma ListConforms(w: Walk, value: Value)
    requires ValidSchemaNode(IPV4_ROOT)
    ensures var list := Scalar(ArrayType, true).(items := Some(IPV4_ITEM));
            && ValidSchemaNode(list)
            && (Conforms(w, list, value) <==>
                  value.List? && forall item | item in value.items :: FitsAddress(w.text, item))
  {
    hide FitsAddress;
    assert Entry("addresses", Scalar(ArrayType, true).(items := Some(IPV4_ITEM))) in IPV4_ROOT.properties;
    if value.List? {
      forall item | item in value.items ensures Conforms(w, IPV4_ITEM, item) <==> FitsAddress(w.text, item) {
        AddressConforms(w, item);
      }
    }
  }

  // ---------------------------------------------------------------- links

  lemma LinkProperty(key: string)
    ensures Property(ETHERNET_ROOT, key) ==
            if key == "speed" then Some(Scalar(IntegerType, false))
            else if key == "duplex"
            then Some(Scalar(StringType, false).(allowed := Some(["full", "half", "unknown"])))
            else if key == "autoneg" then Some(Scalar(BooleanType, false))
            else None
  {
  }

  lemma DuplexConforms(w: Walk, value: Value)
    ensures var node := Scalar(StringType, false).(allowed := Some(["full", "half", "unknown"]));
            && ValidSchemaNode(node)
            && (Conforms(w, node, value) <==> value.String? && value.text in ["full", "half", "unknown"])
  {
    LeafIsValid(Scalar(StringType, false).(allowed := Some(["full", "half", "unknown"])));
  }

  lemma LinkConforms(w: Walk, fields: Fields)
    requires ValidSchemaNode(ETHERNET_ROOT)
    ensures ConformsFields(w, ETHERNET_ROOT, fields, []) <==> FitsEthernet(Map(fields), w.writableOnly)
  {
    hide Property, Conforms;
    forall e | e in fields
      ensures ConformsEntry(w, ETHERNET_ROOT, e, []) <==>
              && !w.writableOnly
              && if e.key == "speed" then IsInteger(e.value)
                 else if e.key == "autoneg" then e.value.Bool?
                 else e.key == "duplex" && e.value.String? && e.value.text in ["full", "half", "unknown"]
    {
      LinkProperty(e.key);
      DuplexConforms(w, e.value);
      ScalarConforms(w, IntegerType, false, e.value);
      ScalarConforms(w, BooleanType, false, e.value);
    }
    assert fields != [] ==> fields[0] in fields;
  }

  // ---------------------------------------------------------------- states

  lemma EmbeddedFragments(text: IpText)
    ensures var registry := Embedded(text);
            && ValidRegistry(registry) && registry.text == text && |registry.fragments| == 3
            && registry.fragments[0].triggerKey == None && registry.fragments[0].root == BASE_ROOT
            && registry.fragments[1].triggerKey == Some("ipv4") && registry.fragments[1].root == IPV4_ROOT
            && registry.fragments[2].triggerKey == Some("ethernet") && registry.fragments[2].root == ETHERNET_ROOT
            && (forall i | 0 <= i < 3 :: ValidFragment(registry.fragments[i]))
            && TriggerKeys(registry.fragments) == ["ipv4", "ethernet"]
            && FindTrigger(registry.fragments, None) == Some(registry.fragments[0])
            && FindTrigger(registry.fragments, Some("ipv4")) == Some(registry.fragments[1])
            && FindTrigger(registry.fragments, Some("ethernet")) == Some(registry.fragments[2])
  {
    hide ValidRegistry, DeriveFields, ValidFragment, TriggerKeys, FindTrigger;
    var fragments := Embedded(text).fragments;
    TriggersOfThree(fragments);
    FindsOfThree(fragments);
  }

  lemma FindsOfThree(fragments: seq<Fragment>)
    requires |fragments| == 3
    requires fragments[0].triggerKey == None
    requires fragments[1].triggerKey == Some("ipv4") && fragments[2].triggerKey == Some("ethernet")
    ensures FindTrigger(fragments, Some("ipv4")) == Some(fragments[1])
    ensures FindTrigger(fragments, Some("ethernet")) == Some(fragments[2])
  {
    var ethernet := Some("ethernet");
    assert Some("ipv4") != ethernet;
    assert fragments[1..][0] == fragments[1] && fragments[1..][1..][0] == fragments[2];
    assert FindTrigger(fragments[1..][1..], ethernet) == Some(fragments[2]);
  }

  lemma EmbeddedConforms(text: IpText, s: State, writableOnly: bool)
    ensures ConformsState(Embedded(text), s, writableOnly) <==> FitsEmbedded(text, s, writableOnly)
  {
    hide ValidRegistry, ValidFragment, Embedded, ConformsFields, FitsIpv4, FitsEthernet, FitsBase, Property,
      TriggerKeys;
    EmbeddedFragments(text);
    var registry := Embedded(text);
    var base, ipv4, ethernet := registry.fragments[0], registry.fragments[1], registry.fragments[2];
    assert registry.fragments == [base, ipv4, ethernet];
    BaseFragmentConforms(registry, base, s, writableOnly);
    GroupConforms(registry, ipv4, s, writableOnly);
    GroupConforms(registry, ethernet, s, writableOnly);
    forall f | f in registry.fragments ensures f == base || f == ipv4 || f == ethernet {
    }
  }

  lemma BaseFragmentConforms(registry: SchemaRegistry, base: Fragment, s: State, writableOnly: bool)
    requires ValidFragment(base) && base.triggerKey == None && base.root == BASE_ROOT
    requires TriggerKeys(registry.fragments) == ["ipv4", "ethernet"]
    ensures ConformsFragment(registry, base, s, writableOnly) <==>
            forall e | e in s.fields && e.key != "ipv4" && e.key != "ethernet" :: FitsBase(e, writableOnly)
  {
    hide ValidSchemaNode, Property, Conforms, FitsBase, TriggerKeys, ConformsEntry, DeriveFields;
    var w := Walk(registry.text, base.name, writableOnly);
    forall e | e in s.fields
      ensures ConformsEntry(w, BASE_ROOT, e, ["ipv4", "ethernet"])
              <==> e.key == "ipv4" || e.key == "ethernet" || FitsBase(e, writableOnly)
    {
      BaseEntryConforms(w, e, ["ipv4", "ethernet"]);
    }
    BaseProperty("type");
    ScalarConforms(w, StringType, false, String(s.deviceType));
    assert BASE_ROOT.required == [];
  }

  lemma GroupConforms(registry: SchemaRegistry, f: Fragment, s: State, writableOnly: bool)
    requires ValidFragment(f) && f.triggerKey.Some?
    requires f.root == IPV4_ROOT || f.root == ETHERNET_ROOT
    ensures ConformsFragment(registry, f, s, writableOnly) <==>
            match Get(s.fields, f.triggerKey.value)
            case Some(value) =>
              if f.root == IPV4_ROOT then FitsIpv4(registry.text, value) else FitsEthernet(value, writableOnly)
            case None => true
  {
    hide ValidSchemaNode, ConformsFields, Get, DeriveFields;
    var value := Get(s.fields, f.triggerKey.value);
    if value.Some? && value.value.Map? {
      var w := Walk(registry.text, f.name, writableOnly);
      if f.root == IPV4_ROOT {
        AddressesConform(w, value.value.entries);
      } else {
        LinkConforms(w, value.value.entries);
      }
    }
  }

  /** The embedded schema accepts exactly these states, for reading and for writing. */
  lemma EmbeddedAccepts(text: IpText, s: State)
    ensures Validate(Embedded(text), s) == [] <==> FitsEmbedded(text, s, false)
    ensures ValidateWritable(Embedded(text), s) == [] <==> FitsEmbedded(text, s, true)
  {
    hide ValidRegistry, Embedded, FitsEmbedded, ConformsState;
    ValidatorIsCorrect(Embedded(text), s);
    EmbeddedConforms(text, s, false);
    EmbeddedConforms(text, s, true);
  }

  lemma Ipv4Schema(text: IpText)
    ensures SchemaAt(Embedded(text), "ipv4") == Some(IPV4_ROOT)
  {
    hide ValidRegistry, Embedded, ValidSchemaNode, Property, TriggerKeys, FindTrigger, ValidFragment;
    EmbeddedFragments(text);
    BaseProperty("ipv4");
  }

  /** The addresses of `ipv4` are read as networks. */
  lemma EmbeddedNetworkPath(text: IpText)
    ensures SchemaAt(Embedded(text), "ipv4").Some?
    ensures ValidSchemaNode(IPV4_ROOT) && ValidSchemaNode(IPV4_ITEM)
    ensures PropertyCursor(SchemaAt(Embedded(text), "ipv4"), "addresses").Some?
    ensures ItemsCursor(PropertyCursor(SchemaAt(Embedded(text), "ipv4"), "addresses")) == Some(IPV4_ITEM)
    ensures IsCidrPath(PropertyCursor(Some(IPV4_ITEM), "ip"))
  {
    hide Embedded, ValidSchemaNode, SchemaAt;
    Ipv4Schema(text);
    ItemProperty("ip");
    ListConforms(Walk(text, "", true), List([]));
    ItemsAreValid(Scalar(ArrayType, true).(items := Some(IPV4_ITEM)));
  }

  lemma ItemsAreValid(node: SchemaNode)
    requires ValidSchemaNode(node) && node.items.Some?
    ensures ValidSchemaNode(node.items.value)
  {
  }
}
