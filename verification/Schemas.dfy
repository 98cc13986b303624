/** The schema dialect, the registry of fragments, and the validator (schema.rs). */
module Schemas {
  import opened Wrappers
  import opened OrderedMaps
  import opened Values

  /** Address text of the standard library, which this model takes as given. */
  datatype IpText = IpText(show: IpAddr -> string, parse: string -> Option<IpAddr>)

  datatype FieldType =
    | StringType
    | BooleanType
    | IntegerType
    | ObjectType
    | ArrayType
    | IpAddressType
    | IpNetworkType

  datatype SchemaFormat = Ipv4Cidr

  /** Absent `properties` and `required` behave as empty ones. */
  datatype SchemaNode = SchemaNode(
    fieldType: Option<FieldType>,
    format: Option<SchemaFormat>,
    writable: bool,
    minimum: Option<i64>,
    maximum: Option<i64>,
    allowed: Option<seq<string>>,
    properties: OrderedMap<SchemaNode>,
    required: seq<string>,
    items: Option<SchemaNode>,
    additionalProperties: bool,
    impliedDeviceType: Option<string>)

  datatype FieldInfo = FieldInfo(writable: bool, fieldType: FieldType)

  datatype Fragment = Fragment(
    name: string,
    triggerKey: Option<string>,
    root: SchemaNode,
    fields: OrderedMap<FieldInfo>)

  datatype ValidationError =
    | UnknownField(fragment: string, path: string)
    | ReadOnlyField(fragment: string, path: string)
    | OutOfRange(fragment: string, path: string, min: Option<i64>, max: Option<i64>)
    | WrongType(fragment: string, path: string, expected: FieldType, found: FieldType)
    | MissingField(fragment: string, path: string)
    | EnumViolation(fragment: string, path: string, allowed: seq<string>)
    | InvalidFormat(fragment: string, path: string)

  // ---------------------------------------------------------------- text

  function Decimal(n: nat): (r: string)
    ensures r != ""
  {
    (if n < 10 then "" else Decimal(n / 10)) + [Digit(n % 10)]
  }

  function Digit(d: nat): char
    requires d < 10
  {
    "0123456789"[d]
  }

  function JoinPath(prefix: string, key: string): string {
    if prefix == "" then key else prefix + "." + key
  }

  function ItemPath(path: string, index: nat): string {
    path + "[" + Decimal(index) + "]"
  }

  /** The parts around the first occurrence of a separator. */
  function SplitOnce(s: string, separator: char): Option<(string, string)> {
    if s == "" then None
    else if s[0] == separator then Some(("", s[1..]))
    else match SplitOnce(s[1..], separator)
         case None => None
         case Some(parts) => Some(([s[0]] + parts.0, parts.1))
  }

  lemma {:induction false} SplitOnceAt(a: string, b: string, separator: char)
    requires separator !in a
    ensures SplitOnce(a + [separator] + b, separator) == Some((a, b))
  {
    var s := a + [separator] + b;
    if a == "" {
      assert s[1..] == b;
    } else {
      assert s[1..] == a[1..] + [separator] + b;
      SplitOnceAt(a[1..], b, separator);
      assert a == [a[0]] + a[1..];
    }
  }

  function DigitValue(c: char): Option<nat> {
    if '0' <= c <= '9' then Some(c as int - '0' as int) else None
  }

  /** Decimal digits after an optional plus sign, within the width of a prefix. */
  function ParseU8(s: string): Option<u8> {
    var digits := if s != "" && s[0] == '+' then s[1..] else s;
    if digits == "" then None else ParseDigits(digits, 0)
  }

  function ParseDigits(s: string, value: u8): Option<u8> {
    if s == "" then Some(value)
    else match DigitValue(s[0])
         case None => None
         case Some(d) =>
           if value * 10 + d > 255 then None else ParseDigits(s[1..], value * 10 + d)
  }

  function ParseIpNetwork(text: IpText, s: string): Option<(IpAddr, u8)> {
    match SplitOnce(s, '/')
    case None => None
    case Some((address, prefix)) =>
      match text.parse(address)
      case None => None
      case Some(addr) =>
        match ParseU8(prefix)
        case None => None
        case Some(n) =>
          if n <= (if addr.V4? then 32 else 128) then Some((addr, n)) else None
  }

  // ---------------------------------------------------------------- nodes

  /** The type the state model exposes; a format needs the type it refines. */
  function SemanticType(node: SchemaNode): Option<FieldType> {
    match (node.fieldType, node.format)
    case (Some(StringType), Some(Ipv4Cidr)) => Some(IpNetworkType)
    case (Some(_), Some(Ipv4Cidr)) => None
    case (Some(t), None) => Some(t)
    case (None, _) => None
  }

  /** The dialect can name neither address type, and a format needs the type string. */
  predicate ValidSchemaNode(node: SchemaNode) {
    && SemanticType(node).Some?
    && node.fieldType != Some(IpAddressType)
    && node.fieldType != Some(IpNetworkType)
    && (forall e | e in node.properties :: ValidSchemaNode(e.value))
    && (node.items.Some? ==> ValidSchemaNode(node.items.value))
  }

  function Property(node: SchemaNode, key: string): Option<SchemaNode> {
    Get(node.properties, key)
  }

  lemma PropertyIsValid(node: SchemaNode, key: string)
    requires ValidSchemaNode(node) && Property(node, key).Some?
    ensures ValidSchemaNode(Property(node, key).value)
  {
  }

  function ValueType(value: Value): FieldType {
    match value
    case String(_) => StringType
    case U64(_) => IntegerType
    case I64(_) => IntegerType
    case Bool(_) => BooleanType
    case Ip(_) => IpAddressType
    case IpNetwork(_, _) => IpNetworkType
    case List(_) => ArrayType
    case Map(_) => ObjectType
  }

  predicate TypeAccepts(node: SchemaNode, expected: FieldType, found: FieldType) {
    || expected == found
    || (node.format == Some(Ipv4Cidr) && expected == IpNetworkType && found == StringType)
  }

  function IntegerValue(value: Value): int
    requires ValueType(value) == IntegerType
  {
    match value
    case U64(n) => n
    case I64(n) => n
  }

  /** A CIDR value is an IPv4 network, or text that parses as one. */
  predicate IsIpv4Cidr(text: IpText, value: Value) {
    match value
    case IpNetwork(addr, prefix) => addr.V4? && prefix <= 32
    case String(s) =>
      (match ParseIpNetwork(text, s)
       case Some((addr, prefix)) => addr.V4? && prefix <= 32
       case None => false)
    case _ => false
  }

  // ---------------------------------------------------------------- validator

  /** What stays fixed while one fragment is walked. */
  datatype Walk = Walk(text: IpText, fragment: string, writableOnly: bool)

  function RangeErrors(w: Walk, node: SchemaNode, value: Value, path: string): seq<ValidationError>
    requires ValueType(value) == IntegerType
  {
    var actual := IntegerValue(value);
    (if node.minimum.Some? && actual < node.minimum.value
     then [OutOfRange(w.fragment, path, node.minimum, node.maximum)] else []) +
    (if node.maximum.Some? && actual > node.maximum.value
     then [OutOfRange(w.fragment, path, node.minimum, node.maximum)] else [])
  }

  function WalkNode(w: Walk, node: SchemaNode, value: Value, path: string): seq<ValidationError>
    requires ValidSchemaNode(node)
    decreases value, 0
  {
    var expected, found := SemanticType(node).value, ValueType(value);
    if !TypeAccepts(node, expected, found) then [WrongType(w.fragment, path, expected, found)]
    else match expected
      case IntegerType => RangeErrors(w, node, value, path)
      case StringType =>
        if value.String? && node.allowed.Some? && value.text !in node.allowed.value
        then [EnumViolation(w.fragment, path, node.allowed.value)] else []
      case IpNetworkType =>
        if IsIpv4Cidr(w.text, value) then [] else [InvalidFormat(w.fragment, path)]
      case ObjectType =>
        if value.Map? then WalkMap(w, node, value.entries, path, []) else []
      case ArrayType =>
        if value.List? && node.items.Some? then WalkItems(w, node.items.value, value.items, path, 0) else []
      case _ => []
  }

  function WalkProperty(w: Walk, node: SchemaNode, value: Value, path: string): seq<ValidationError>
    requires ValidSchemaNode(node)
    decreases value, 1
  {
    (if w.writableOnly && !node.writable then [ReadOnlyField(w.fragment, path)] else []) +
    WalkNode(w, node, value, path)
  }

  function WalkItems(w: Walk, node: SchemaNode, items: seq<Value>, path: string, index: nat): seq<ValidationError>
    requires ValidSchemaNode(node)
    decreases items
  {
    if items == [] then []
    else WalkNode(w, node, items[0], ItemPath(path, index)) + WalkItems(w, node, items[1..], path, index + 1)
  }

  function WalkEntry(w: Walk, node: SchemaNode, entry: Entry<Value>, prefix: string,
                     ignored: seq<string>): seq<ValidationError>
    requires ValidSchemaNode(node)
    decreases entry
  {
    if entry.key in ignored then []
    else match Property(node, entry.key)
      case Some(property) => WalkProperty(w, property, entry.value, JoinPath(prefix, entry.key))
      case None =>
        if node.additionalProperties then [] else [UnknownField(w.fragment, JoinPath(prefix, entry.key))]
  }

  function WalkEntries(w: Walk, node: SchemaNode, fields: Fields, prefix: string,
                       ignored: seq<string>): seq<ValidationError>
    requires ValidSchemaNode(node)
    decreases fields, 0
  {
    if fields == [] then []
    else WalkEntry(w, node, fields[0], prefix, ignored) + WalkEntries(w, node, fields[1..], prefix, ignored)
  }

  function MissingFields(w: Walk, required: seq<string>, fields: Fields, prefix: string,
                         ignored: seq<string>): seq<ValidationError> {
    if required == [] then []
    else
      (if !Has(fields, required[0]) && required[0] !in ignored
       then [MissingField(w.fragment, JoinPath(prefix, required[0]))] else []) +
      MissingFields(w, required[1..], fields, prefix, ignored)
  }

  function WalkMap(w: Walk, node: SchemaNode, fields: Fields, prefix: string,
                   ignored: seq<string>): seq<ValidationError>
    requires ValidSchemaNode(node)
    decreases fields, 1
  {
    WalkEntries(w, node, fields, prefix, ignored) + MissingFields(w, node.required, fields, prefix, ignored)
  }

  // ---------------------------------------------------------------- registry

  /** Every field at every nesting level, keyed by dot path; items continue their array's path. */
  function DeriveFields(node: SchemaNode, prefix: string, out: OrderedMap<FieldInfo>): OrderedMap<FieldInfo>
    requires ValidSchemaNode(node)
    decreases node
  {
    var nested := DeriveProperties(node.properties, prefix, out);
    if node.items.Some? then DeriveFields(node.items.value, prefix, nested) else nested
  }

  function DeriveProperties(properties: OrderedMap<SchemaNode>, prefix: string,
                            out: OrderedMap<FieldInfo>): OrderedMap<FieldInfo>
    requires forall e | e in properties :: ValidSchemaNode(e.value)
    decreases properties
  {
    if properties == [] then out
    else
      var node, path := properties[0].value, JoinPath(prefix, properties[0].key);
      assert ValidSchemaNode(node);
      assert SemanticType(node).Some?;
      var own := Insert(out, path, FieldInfo(node.writable, SemanticType(node).value));
      DeriveProperties(properties[1..], prefix, DeriveFields(node, path, own))
  }

  datatype SchemaRegistry = SchemaRegistry(text: IpText, fragments: seq<Fragment>)

  function FindFragment(fragments: seq<Fragment>, name: string): Option<Fragment> {
    if fragments == [] then None
    else if fragments[0].name == name then Some(fragments[0])
    else FindFragment(fragments[1..], name)
  }

  function FindTrigger(fragments: seq<Fragment>, key: Option<string>): Option<Fragment> {
    if fragments == [] then None
    else if fragments[0].triggerKey == key then Some(fragments[0])
    else FindTrigger(fragments[1..], key)
  }

  function LookupField(registry: SchemaRegistry, fragment: string, field: string): Option<FieldInfo> {
    match FindFragment(registry.fragments, fragment)
    case None => None
    case Some(f) => Get(f.fields, field)
  }

  /** The keys that apply a fragment, in registration order. */
  function TriggerKeys(fragments: seq<Fragment>): seq<string> {
    if fragments == [] then []
    else (match fragments[0].triggerKey case Some(key) => [key] case None => []) + TriggerKeys(fragments[1..])
  }

  predicate ValidFragment(f: Fragment) {
    && ValidSchemaNode(f.root)
    && f.fields == DeriveFields(f.root, "", [])
    && (f.triggerKey.None? ==> Property(f.root, "type").Some?)
  }

  predicate ValidRegistry(registry: SchemaRegistry) {
    && (forall f | f in registry.fragments :: ValidFragment(f))
    && FindTrigger(registry.fragments, None).Some?
  }

  function FragmentErrors(registry: SchemaRegistry, f: Fragment, state: State, writableOnly: bool): seq<ValidationError>
    requires ValidFragment(f)
  {
    var w := Walk(registry.text, f.name, writableOnly);
    match f.triggerKey
    case None =>
      WalkMap(w, f.root, state.fields, "", TriggerKeys(registry.fragments)) +
      // The device type is metadata of the state, never rejected as read-only.
      (if state.deviceType == "" then []
       else WalkProperty(w.(writableOnly := false), Property(f.root, "type").value, String(state.deviceType), "type"))
    case Some(key) =>
      match Get(state.fields, key)
      case Some(value) =>
        if value.Map? then WalkMap(w, f.root, value.entries, key, [])
        else [WrongType(f.name, key, ObjectType, ValueType(value))]
      case None => []
  }

  function ValidateFrom(registry: SchemaRegistry, fragments: seq<Fragment>, state: State,
                        writableOnly: bool): seq<ValidationError>
    requires forall f | f in fragments :: ValidFragment(f)
  {
    if fragments == [] then []
    else
      FragmentErrors(registry, fragments[0], state, writableOnly) +
      ValidateFrom(registry, fragments[1..], state, writableOnly)
  }

  /** Accept read-only fields, as query results carry them. */
  function Validate(registry: SchemaRegistry, state: State): seq<ValidationError>
    requires ValidRegistry(registry)
  {
    ValidateFrom(registry, registry.fragments, state, false)
  }

  /** Validate a policy: read-only fields are rejected too. */
  function ValidateWritable(registry: SchemaRegistry, state: State): seq<ValidationError>
    requires ValidRegistry(registry)
  {
    ValidateFrom(registry, registry.fragments, state, true)
  }

  // ---------------------------------------------------------------- embedded fragments

  function Scalar(fieldType: FieldType, writable: bool): SchemaNode {
    SchemaNode(Some(fieldType), None, writable, None, None, None, [], [], None, false, None)
  }

  function Object(properties: OrderedMap<SchemaNode>): SchemaNode {
    Scalar(ObjectType, false).(properties := properties)
  }

  const BASE_ROOT: SchemaNode := Object([
    Entry("type", Scalar(StringType, false)),
    Entry("name", Scalar(StringType, false)),
    Entry("mac", Scalar(StringType, false)),
    Entry("carrier", Scalar(BooleanType, false)),
    Entry("driver", Scalar(StringType, false)),
    Entry("enabled", Scalar(BooleanType, true)),
    Entry("mtu", Scalar(IntegerType, true).(minimum := Some(68), maximum := Some(65535)))])

  const IPV4_ITEM: SchemaNode := Object([
    Entry("ip", Scalar(StringType, true).(format := Some(Ipv4Cidr))),
    Entry("valid_lft", Scalar(IntegerType, true)),
    Entry("preferred_lft", Scalar(IntegerType, true))]).(required := ["ip"])

  const IPV4_ROOT: SchemaNode := Object([
    Entry("addresses", Scalar(ArrayType, true).(items := Some(IPV4_ITEM)))])

  const ETHERNET_ROOT: SchemaNode := Object([
    Entry("speed", Scalar(IntegerType, false)),
    Entry("duplex", Scalar(StringType, false).(allowed := Some(["full", "half", "unknown"]))),
    Entry("autoneg", Scalar(BooleanType, false))]).(impliedDeviceType := Some("ethernet"))

  /** A node with no children is valid when its type fits its format. */
  lemma LeafIsValid(node: SchemaNode)
    requires node.properties == [] && node.items == None && SemanticType(node).Some?
    requires node.fieldType != Some(IpAddressType) && node.fieldType != Some(IpNetworkType)
    ensures ValidSchemaNode(node)
  {
  }

  lemma ObjectIsValid(properties: OrderedMap<SchemaNode>)
    requires forall i | 0 <= i < |properties| :: ValidSchemaNode(properties[i].value)
    ensures ValidSchemaNode(Object(properties))
  {
  }

  lemma BaseRootIsValid()
    ensures ValidSchemaNode(BASE_ROOT)
    ensures Property(BASE_ROOT, "type").Some?
  {
    forall i | 0 <= i < |BASE_ROOT.properties| ensures ValidSchemaNode(BASE_ROOT.properties[i].value) {
      LeafIsValid(BASE_ROOT.properties[i].value);
    }
    ObjectIsValid(BASE_ROOT.properties);
    assert BASE_ROOT.properties[0].key == "type";
  }

  lemma Ipv4RootIsValid()
    ensures ValidSchemaNode(IPV4_ROOT)
  {
    var item := IPV4_ITEM;
    forall i | 0 <= i < |item.properties| ensures ValidSchemaNode(item.properties[i].value) {
      LeafIsValid(item.properties[i].value);
    }
    ObjectIsValid(item.properties);
    var addresses := IPV4_ROOT.properties[0].value;
    assert addresses.items == Some(item);
    assert ValidSchemaNode(item);
    assert ValidSchemaNode(addresses);
    ObjectIsValid(IPV4_ROOT.properties);
  }

  lemma EthernetRootIsValid()
    ensures ValidSchemaNode(ETHERNET_ROOT)
  {
    var plain := ETHERNET_ROOT.(impliedDeviceType := None);
    forall i | 0 <= i < |plain.properties| ensures ValidSchemaNode(plain.properties[i].value) {
      LeafIsValid(plain.properties[i].value);
    }
    ObjectIsValid(plain.properties);
  }

  function ParseFragment(name: string, root: SchemaNode, triggerKey: Option<string>): (r: Fragment)
    requires ValidSchemaNode(root)
    requires triggerKey.None? ==> Property(root, "type").Some?
    ensures ValidFragment(r) && r.name == name && r.root == root && r.triggerKey == triggerKey
  {
    Fragment(name, triggerKey, root, DeriveFields(root, "", []))
  }

  function Embedded(text: IpText): (r: SchemaRegistry)
    ensures ValidRegistry(r)
  {
    BaseRootIsValid();
    Ipv4RootIsValid();
    EthernetRootIsValid();
    SchemaRegistry(text, [
      ParseFragment("base", BASE_ROOT, None),
      ParseFragment("ipv4", IPV4_ROOT, Some("ipv4")),
      ParseFragment("ethernet", ETHERNET_ROOT, Some("ethernet"))])
  }

  /** Registries are validated when they are built. */
  type ValidatedRegistry = r: SchemaRegistry | ValidRegistry(r)
    witness Embedded(IpText(_ => "", _ => None))
}
