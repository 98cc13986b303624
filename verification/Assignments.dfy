/** What decoding makes of an operation, and that writes carry it out (executor.rs, plan.rs). */
module Assignments {
  import opened Wrappers
  import opened OrderedMaps
  import opened Values
  import opened Schemas
  import opened Plan
  import opened Report
  import opened NetworkTexts
  import opened Conformance
  import opened Executor
  import opened Freshness
  import opened PreparationLaws
  import opened FlatLookups

  // ---------------------------------------------------------------- which operations decode

  /** A link state that sets nothing but the MTU, as a policy would. */
  function OnlyMtu(mtu: u32): State {
    State("", Match(None, None, None, None, None), [Entry("mtu", U64(mtu))], Kernel, 0)
  }

  /** A value assigned to a field of a fragment that no write supports. */
  function Unassignable(info: Option<FieldInfo>): Result<Option<OperationKind>, BackendErrorKind> {
    if info.Some? && !info.value.writable then Success(None) else Failure(UnsupportedOperation)
  }

  /** A dotted name is looked up below its first part and is never assigned. */
  lemma DottedAssignment(fragment: string, name: string, value: Value, schema: ValidatedRegistry)
    requires '.' !in fragment
    ensures Decode(SetField(fragment + "." + name, value), schema)
         == Unassignable(LookupField(schema, fragment, name))
  {
    hide LookupField, CheckDecoded;
    SplitOnceAt(fragment, name, '.');
    var field := fragment + "." + name;
    assert fragment + ['.'] + name == field;
    assert field[|fragment|] == '.';
    assert field != "mtu" && field != "enabled" by {
      assert forall i | 0 <= i < 3 :: "mtu"[i] != '.';
      assert forall i | 0 <= i < 7 :: "enabled"[i] != '.';
    }
  }

  /** A plain name is a field of the base fragment; two of them can be assigned. */
  lemma PlainAssignment(name: string, value: Value, schema: ValidatedRegistry)
    requires '.' !in name
    ensures var info := LookupField(schema, "base", name);
            Decode(SetField(name, value), schema) ==
              if info.None? || !info.value.writable then Unassignable(info)
              else if name == "mtu" && value.U64? && value.unsigned < 0x1_0000_0000
                then Decode(SetMtu(value.unsigned), schema)
              else if name == "enabled" && value.Bool? then Success(Some(SetEnabled(value.flag)))
              else Failure(UnsupportedOperation)
  {
    hide LookupField, ValidateWritable;
    SplitParts(name, '.');
    assert "mtu" != "enabled";
  }

  /** An MTU decodes exactly if the schema accepts it in a policy. */
  lemma MtuDecodes(mtu: u32, schema: ValidatedRegistry)
    ensures Decode(SetMtu(mtu), schema) == if ConformsState(schema, OnlyMtu(mtu), true)
                                           then Success(Some(SetMtu(mtu))) else Failure(UnsupportedOperation)
  {
    assert NewState(Kernel).(fields := [Entry("mtu", U64(mtu))]) == OnlyMtu(mtu);
    ValidatorIsCorrect(schema, OnlyMtu(mtu));
  }

  /** A prefix of an address, a lifetime that has not run out, and no preference beyond it. */
  ghost predicate Addable(address: Ipv4Address) {
    var valid := match address.validLft case Some(v) => v case None => 0xFFFF_FFFF;
    && address.prefixLen <= 32
    && valid > 0
    && (address.preferredLft.Some? ==> address.preferredLft.value <= valid)
  }

  /** Every other operation is left as it is or refused. */
  lemma OperationDecodes(kind: OperationKind, schema: ValidatedRegistry)
    requires !kind.SetField? && !kind.SetMtu?
    ensures var decodes := match kind
              case SetEnabled(_) => true
              case AddIpv4(address) => Addable(address)
              case ReplaceIpv4(address) => Addable(address)
              case RemoveIpv4(address) => address.prefixLen <= 32
              case _ => false;
            Decode(kind, schema) == if decodes then Success(Some(kind)) else Failure(UnsupportedOperation)
  {
  }

  // ---------------------------------------------------------------- the embedded schema

  const READ_ONLY_BASE: seq<string> := ["type", "name", "mac", "carrier", "driver"]
  const READ_ONLY_ETHERNET: seq<string> := ["speed", "duplex", "autoneg"]

  /** What a kernel reports and no policy sets, by its plain name or with the name of its fragment. */
  ghost predicate ReportedOnly(field: string) {
    || field in READ_ONLY_BASE
    || (exists name | name in READ_ONLY_BASE :: field == "base." + name)
    || (exists name | name in READ_ONLY_ETHERNET :: field == "ethernet." + name)
  }

  ghost predicate Leaves(properties: OrderedMap<SchemaNode>) {
    forall i | 0 <= i < |properties| ::
      properties[i].value.properties == [] && properties[i].value.items.None? && ValidSchemaNode(properties[i].value)
  }

  ghost predicate Keyed(properties: OrderedMap<SchemaNode>, prefix: string, path: string, i: nat)
    requires i < |properties|
  {
    path == JoinPath(prefix, properties[i].key)
  }

  /** Without nested fields, a path is answered by the property with its name. */
  lemma {:induction false} LeafLookup(properties: OrderedMap<SchemaNode>, prefix: string, path: string)
    requires UniqueKeys(properties) && Leaves(properties)
    ensures forall e | e in properties :: ValidSchemaNode(e.value)
    ensures forall i | 0 <= i < |properties| && Keyed(properties, prefix, path, i) ::
              FlatProperties(properties, prefix, path) == Some(InfoOf(properties[i].value))
    ensures (forall i | 0 <= i < |properties| :: !Keyed(properties, prefix, path, i))
              ==> FlatProperties(properties, prefix, path).None?
    decreases properties
  {
    hide ValidSchemaNode, SemanticType;
    if properties != [] {
      var rest := properties[1..];
      forall i, j | 0 <= i < j < |rest| ensures rest[i].key != rest[j].key {
        assert properties[i + 1].key != properties[j + 1].key;
      }
      forall i | 0 <= i < |rest| ensures Keyed(rest, prefix, path, i) <==> Keyed(properties, prefix, path, i + 1) {
        assert rest[i] == properties[i + 1];
      }
      LeafLookup(rest, prefix, path);
      LeafAnswers(properties[0].value, JoinPath(prefix, properties[0].key), path);
      if Keyed(properties, prefix, path, 0) {
        forall i | 0 <= i < |rest| ensures !Keyed(rest, prefix, path, i) {
          assert properties[i + 1].key != properties[0].key;
          if Keyed(rest, prefix, path, i) {
            JoinedNames(prefix, rest[i].key, properties[0].key);
          }
        }
      }
    }
  }

  lemma LeafAnswers(node: SchemaNode, own: string, path: string)
    requires node.properties == [] && node.items.None? && ValidSchemaNode(node)
    ensures FlatProperty(node, own, path) == if path == own then Some(InfoOf(node)) else None
  {
    assert FlatProperties([], own, path).None?;
  }

  lemma JoinedNames(prefix: string, a: string, b: string)
    requires JoinPath(prefix, a) == JoinPath(prefix, b)
    ensures a == b
  {
    if prefix != "" {
      assert JoinPath(prefix, a)[|prefix| + 1..] == a;
      assert JoinPath(prefix, b)[|prefix| + 1..] == b;
    }
  }

  lemma BaseLeaves()
    ensures Leaves(BASE_ROOT.properties) && UniqueKeys(BASE_ROOT.properties) && BASE_ROOT.items.None?
  {
    BaseNames();
    BaseNamesArePlain();
    forall i | 0 <= i < |BASE_ROOT.properties| ensures ValidSchemaNode(BASE_ROOT.properties[i].value) {
      LeafIsValid(BASE_ROOT.properties[i].value);
    }
  }

  /** What the embedded schema says about a dotted name: read-only, settable, or nothing. */
  lemma BaseField(path: string)
    ensures ValidSchemaNode(BASE_ROOT)
    ensures var info := Get(DeriveFields(BASE_ROOT, "", []), path);
            if path in READ_ONLY_BASE then info.Some? && !info.value.writable
            else if path in ["enabled", "mtu"] then info.Some? && info.value.writable
            else info.None?
  {
    hide Get, DeriveFields, ValidSchemaNode, FlatProperties, InfoOf;
    BaseRootIsValid();
    BaseNames();
    BaseLeaves();
    FlatMapIsTheTree(BASE_ROOT, "", [], path);
    var properties := BASE_ROOT.properties;
    LeafLookup(properties, "", path);
    assert FlatLookup(BASE_ROOT, "", path) == FlatProperties(properties, "", path);
    forall i | 0 <= i < |properties| ensures Keyed(properties, "", path, i) <==> path == BASE_NAMES[i] {
    }
    BaseNamesArePlain();
    assert BASE_NAMES[..5] == READ_ONLY_BASE && BASE_NAMES[5..] == ["enabled", "mtu"];
    if i :| 0 <= i < |BASE_NAMES| && path == BASE_NAMES[i] {
      assert Keyed(properties, "", path, i);
      BaseWritable(i);
    }
  }

  lemma BaseWritable(i: nat)
    requires i < |BASE_NAMES|
    ensures i < |BASE_ROOT.properties| && (InfoOf(BASE_ROOT.properties[i].value).writable <==> i >= 5)
  {
    assert |BASE_ROOT.properties| == 7;
  }

  lemma EthernetField(path: string)
    ensures ValidSchemaNode(ETHERNET_ROOT)
    ensures var info := Get(DeriveFields(ETHERNET_ROOT, "", []), path);
            if path in READ_ONLY_ETHERNET then info.Some? && !info.value.writable else info.None?
  {
    hide Get, DeriveFields, ValidSchemaNode, FlatProperties;
    EthernetRootIsValid();
    var properties, names := ETHERNET_ROOT.properties, READ_ONLY_ETHERNET;
    forall i | 0 <= i < |properties| ensures ValidSchemaNode(properties[i].value) {
      LeafIsValid(properties[i].value);
    }
    assert forall i | 0 <= i < 3 :: properties[i].key == names[i];
    assert names[0][0] != names[1][0] && names[1][0] != names[2][0] && names[0][0] != names[2][0];
    FlatMapIsTheTree(ETHERNET_ROOT, "", [], path);
    LeafLookup(properties, "", path);
    assert FlatLookup(ETHERNET_ROOT, "", path) == FlatProperties(properties, "", path);
    forall i | 0 <= i < |properties| ensures Keyed(properties, "", path, i) <==> path == names[i] {
    }
    if i :| 0 <= i < |names| && path == names[i] {
      assert Keyed(properties, "", path, i);
      assert !InfoOf(properties[i].value).writable;
    }
  }

  lemma ItemIsValid()
    ensures ValidSchemaNode(IPV4_ITEM) && ValidSchemaNode(IPV4_ROOT.properties[0].value)
  {
    Ipv4RootIsValid();
    var addresses := IPV4_ROOT.properties[0].value;
    assert IPV4_ROOT.properties[0] in IPV4_ROOT.properties;
    assert addresses.items == Some(IPV4_ITEM);
  }

  /** Every field of the addresses is settable, so none is read-only. */
  lemma Ipv4Field(path: string)
    ensures ValidSchemaNode(IPV4_ROOT)
    ensures var info := Get(DeriveFields(IPV4_ROOT, "", []), path); info.Some? ==> info.value.writable
  {
    hide Get, DeriveFields, ValidSchemaNode;
    Ipv4RootIsValid();
    ItemIsValid();
    FlatMapIsTheTree(IPV4_ROOT, "", [], path);
    var addresses, item := IPV4_ROOT.properties[0].value, IPV4_ITEM;
    forall i | 0 <= i < |item.properties| ensures ValidSchemaNode(item.properties[i].value) {
      LeafIsValid(item.properties[i].value);
    }
    assert IPV4_ROOT.properties[1..] == [] && addresses.properties == [] && addresses.items == Some(item);
    assert item.properties[0].key == "ip" && item.properties[1].key == "valid_lft"
      && item.properties[2].key == "preferred_lft";
    assert "ip"[0] != "valid_lft"[0] && "ip"[0] != "preferred_lft"[0] && "valid_lft"[0] != "preferred_lft"[0];
    LeafLookup(item.properties, "addresses", path);
    if i :| 0 <= i < |item.properties| && Keyed(item.properties, "addresses", path, i) {
      assert InfoOf(item.properties[i].value).writable;
    }
    assert FlatLookup(item, "addresses", path) == FlatProperties(item.properties, "addresses", path);
    assert FlatProperties(addresses.properties, "addresses", path).None?;
    assert FlatLookup(addresses, "addresses", path) == FlatLookup(item, "addresses", path);
    assert FlatProperties(IPV4_ROOT.properties[1..], "", path).None?;
    assert JoinPath("", IPV4_ROOT.properties[0].key) == "addresses";
    assert FlatLookup(IPV4_ROOT, "", path) == FlatProperty(addresses, "addresses", path);
    assert InfoOf(addresses).writable;
  }

  lemma FindsOneOfThree(fragments: seq<Fragment>, name: string)
    requires |fragments| == 3
    requires fragments[0].name == "base" && fragments[1].name == "ipv4" && fragments[2].name == "ethernet"
    ensures FindFragment(fragments, name)
         == if name == "base" then Some(fragments[0])
            else if name == "ipv4" then Some(fragments[1])
            else if name == "ethernet" then Some(fragments[2])
            else None
  {
    var rest, last := fragments[1..], fragments[1..][1..];
    assert rest[0] == fragments[1] && last[0] == fragments[2] && last[1..] == [];
    assert FindFragment(last, name) == if name == "ethernet" then Some(last[0]) else None;
    assert FindFragment(rest, name) == if name == "ipv4" then Some(rest[0]) else FindFragment(last, name);
  }

  lemma EmbeddedLookup(text: IpText, fragment: string, name: string)
    ensures var info := LookupField(Embedded(text), fragment, name);
            && (info.Some? && !info.value.writable <==>
                  || (fragment == "base" && name in READ_ONLY_BASE)
                  || (fragment == "ethernet" && name in READ_ONLY_ETHERNET))
            && (fragment == "base" && info.Some? && info.value.writable <==>
                  fragment == "base" && name in ["enabled", "mtu"])
  {
    hide Get, DeriveFields, ValidSchemaNode, FindFragment, ValidRegistry;
    BaseField(name);
    EthernetField(name);
    Ipv4Field(name);
    FindsOneOfThree(Embedded(text).fragments, fragment);
    assert "ipv4"[0] != "ethernet"[0] && "base"[0] != "ipv4"[0] && "base"[0] != "ethernet"[0];
    assert "enabled"[0] == 'e' && "mtu"[1] == 't' && "mac"[1] == 'a' && "type"[0] == 't' && "name"[0] == 'n'
      && "carrier"[0] == 'c' && "driver"[0] == 'd';
  }

  lemma ReadOnlyNamesArePlain()
    ensures forall name | name in READ_ONLY_BASE :: '.' !in name
    ensures '.' !in "base" && '.' !in "ethernet"
  {
  }

  lemma DottedReadOnly(fragment: string, name: string)
    requires '.' !in fragment
    ensures ReportedOnly(fragment + "." + name)
      <==> (fragment == "base" && name in READ_ONLY_BASE) || (fragment == "ethernet" && name in READ_ONLY_ETHERNET)
  {
    ReadOnlyNamesArePlain();
    var field := fragment + "." + name;
    SplitOnceAt(fragment, name, '.');
    assert fragment + ['.'] + name == field;
    assert field[|fragment|] == '.';
    forall other | other in READ_ONLY_BASE && field == "base." + other ensures fragment == "base" && name == other {
      SplitOnceAt("base", other, '.');
      assert "base" + ['.'] + other == field;
    }
    forall other | other in READ_ONLY_ETHERNET && field == "ethernet." + other
      ensures fragment == "ethernet" && name == other
    {
      SplitOnceAt("ethernet", other, '.');
      assert "ethernet" + ['.'] + other == field;
    }
  }

  /** A plain name is not a dotted one. */
  lemma PlainReadOnly(name: string)
    requires '.' !in name
    ensures ReportedOnly(name) <==> name in READ_ONLY_BASE
  {
    forall other ensures name != "base." + other && name != "ethernet." + other {
      assert ("base." + other)[4] == '.';
      assert ("ethernet." + other)[8] == '.';
    }
  }

  lemma MtuInBase()
    ensures Property(BASE_ROOT, "mtu") ==
            Some(Scalar(IntegerType, true).(minimum := Some(68), maximum := Some(65535)))
    ensures BASE_ROOT.required == [] && !BASE_ROOT.additionalProperties
  {
    BaseNames();
    BaseNamesArePlain();
    var properties := BASE_ROOT.properties;
    forall x | x in properties[..6] ensures x.key != "mtu" {
      var i :| 0 <= i < 6 && properties[i] == x;
    }
    GetMiddle(properties[..6], properties[6], []);
    assert properties == properties[..6] + [properties[6]] + [];
  }

  lemma BaseMtu(registry: SchemaRegistry, base: Fragment, mtu: u32)
    requires ValidFragment(base) && base.triggerKey.None? && base.root == BASE_ROOT
    requires "mtu" !in TriggerKeys(registry.fragments)
    ensures ConformsFragment(registry, base, OnlyMtu(mtu), true) <==> 68 <= mtu <= 65535
  {
    hide Get, ValidSchemaNode, TriggerKeys;
    MtuInBase();
    var w, entry := Walk(registry.text, base.name, true), Entry("mtu", U64(mtu));
    var node := Property(BASE_ROOT, "mtu").value;
    LeafIsValid(node);
    assert Conforms(w, node, entry.value) <==> 68 <= mtu <= 65535;
    assert ConformsEntry(w, BASE_ROOT, entry, TriggerKeys(registry.fragments)) <==> 68 <= mtu <= 65535;
    assert entry in OnlyMtu(mtu).fields;
  }

  lemma ThreeMtu(registry: SchemaRegistry, base: Fragment, ipv4: Fragment, ethernet: Fragment, mtu: u32)
    requires ValidRegistry(registry) && registry.fragments == [base, ipv4, ethernet]
    requires base.triggerKey == None && base.root == BASE_ROOT
    requires ipv4.triggerKey == Some("ipv4") && ethernet.triggerKey == Some("ethernet")
    ensures ConformsState(registry, OnlyMtu(mtu), true) <==> 68 <= mtu <= 65535
  {
    hide ValidFragment, FindTrigger, TriggerKeys, ConformsFields;
    var fields := OnlyMtu(mtu).fields;
    TriggersOfThree(registry.fragments);
    assert "mtu"[0] != "ipv4"[0] && "mtu"[0] != "ethernet"[0];
    assert fields[0].key == "mtu" && fields[1..] == [];
    assert Get(fields, "ipv4").None? && Get(fields, "ethernet").None?;
    forall f | f in registry.fragments ensures ValidFragment(f) {
    }
    assert base in registry.fragments && ipv4 in registry.fragments && ethernet in registry.fragments;
    BaseMtu(registry, base, mtu);
  }

  /** The embedded schema settles MTUs from 68 to 65535, both included. */
  lemma EmbeddedMtu(text: IpText, mtu: u32)
    ensures ConformsState(Embedded(text), OnlyMtu(mtu), true) <==> 68 <= mtu <= 65535
  {
    hide ConformsState, ValidRegistry;
    var registry := Embedded(text);
    var fragments := registry.fragments;
    ThreeMtu(registry, fragments[0], fragments[1], fragments[2], mtu);
  }

  /** The two names that can be assigned. */
  lemma SettableNames()
    ensures "mtu" !in READ_ONLY_BASE && "enabled" !in READ_ONLY_BASE
    ensures '.' !in "mtu" && '.' !in "enabled" && "mtu" != "enabled"
  {
  }

  lemma EmbeddedDotted(text: IpText, fragment: string, name: string, value: Value)
    requires '.' !in fragment
    ensures Decode(SetField(fragment + "." + name, value), Embedded(text)) ==
            if ReportedOnly(fragment + "." + name) then Success(None) else Failure(UnsupportedOperation)
  {
    hide Decode, LookupField, ReportedOnly, Embedded;
    DottedAssignment(fragment, name, value, Embedded(text));
    DottedReadOnly(fragment, name);
    EmbeddedLookup(text, fragment, name);
  }

  lemma EmbeddedPlain(text: IpText, name: string, value: Value)
    requires '.' !in name
    ensures Decode(SetField(name, value), Embedded(text)) ==
            if ReportedOnly(name) then Success(None)
            else if name == "mtu" && value.U64? && 68 <= value.unsigned <= 65535
              then Success(Some(SetMtu(value.unsigned)))
            else if name == "enabled" && value.Bool? then Success(Some(SetEnabled(value.flag)))
            else Failure(UnsupportedOperation)
  {
    hide Decode, LookupField, ReportedOnly, Embedded, ConformsState;
    PlainAssignment(name, value, Embedded(text));
    PlainReadOnly(name);
    EmbeddedLookup(text, "base", name);
    SettableNames();
    assert "base"[0] != "ethernet"[0];
    if name == "mtu" && value.U64? && value.unsigned < 0x1_0000_0000 {
      MtuDecodes(value.unsigned, Embedded(text));
      EmbeddedMtu(text, value.unsigned);
    }
  }

  /** With the embedded schema: which assignments decode to what, which are read-only, and which are refused. */
  lemma EmbeddedAssignments(text: IpText, field: string, value: Value)
    ensures Decode(SetField(field, value), Embedded(text)) ==
            if ReportedOnly(field) then Success(None)
            else if field == "mtu" && value.U64? && 68 <= value.unsigned <= 65535
              then Success(Some(SetMtu(value.unsigned)))
            else if field == "enabled" && value.Bool? then Success(Some(SetEnabled(value.flag)))
            else Failure(UnsupportedOperation)
  {
    hide Decode, ReportedOnly, Embedded;
    SplitParts(field, '.');
    SettableNames();
    match SplitOnce(field, '.') {
      case Some((a, b)) =>
        EmbeddedDotted(text, a, b, value);
        assert a + ['.'] + b == a + "." + b;
        assert field[|a|] == '.';
      case None => EmbeddedPlain(text, field, value);
    }
  }

  // ---------------------------------------------------------------- what a write does to the fields

  /** Nothing changes but one field. */
  ghost predicate OnlyField(before: DeviceObservation, after: DeviceObservation, field: string) {
    && after == before.(fields := after.fields)
    && forall other | other != field :: Get(after.fields, other) == Get(before.fields, other)
  }

  /** A write does what its operation asks for; an assignment gives its field the value and changes no other. */
  ghost predicate CarriesOut(op: OperationKind, write: OperationKind) {
    match op
    case SetField(field, value) =>
      forall device: DeviceObservation ::
        Get(Project(device, write).fields, field) == Some(value) && OnlyField(device, Project(device, write), field)
    case _ => write == op
  }

  /** Decoding keeps the meaning of an operation. */
  lemma DecodedCarriesOut(kind: OperationKind, schema: ValidatedRegistry)
    requires Decode(kind, schema).Success? && Decode(kind, schema).value.Some?
    ensures CarriesOut(kind, Decode(kind, schema).value.value)
  {
    hide ValidateWritable, LookupField, SplitOnce, Get;
  }

  /** An assignment counts as satisfied exactly when the field has the value. */
  lemma AssignmentIsSatisfied(field: string, value: Value, schema: ValidatedRegistry, device: DeviceObservation,
                              op: Operation)
    requires var decoded := Decode(SetField(field, value), schema); decoded.Success? && decoded.value.Some?
    ensures Satisfied(Decode(SetField(field, value), schema).value.value, device, op)
         == Success(Get(device.fields, field) == Some(value))
  {
    hide ValidateWritable, LookupField, SplitOnce, Get;
  }

  /** Setting the MTU or the flag directly is the assignment of that field. */
  lemma SettersAreAssignments(schema: ValidatedRegistry, mtu: u32, flag: bool)
    ensures LookupField(schema, "base", "mtu").Some? && LookupField(schema, "base", "mtu").value.writable
            ==> Decode(SetMtu(mtu), schema) == Decode(SetField("mtu", U64(mtu)), schema)
    ensures LookupField(schema, "base", "enabled").Some? && LookupField(schema, "base", "enabled").value.writable
            ==> Decode(SetEnabled(flag), schema) == Decode(SetField("enabled", Bool(flag)), schema)
  {
    hide Decode, LookupField, ConformsState;
    PlainAssignment("mtu", U64(mtu), schema);
    PlainAssignment("enabled", Bool(flag), schema);
    OperationDecodes(SetEnabled(flag), schema);
  }

  /** Every write of every run carries out its own operation. */
  lemma WritesCarryOutTheirOperation(job: Job, k: nat)
    requires k < |Run(job).progress.log| && Run(job).progress.log[k].Wrote?
    ensures var write := Run(job).progress.log[k];
            write.index < |job.diff.operations| && CarriesOut(job.diff.operations[write.index].kind, write.kind)
  {
    hide RunTo, Decide, Decode, CarriesOut;
    WritesAreJustified(job, |job.diff.operations|, k);
    DecodedCarriesOut(job.diff.operations[Run(job).progress.log[k].index].kind, job.schema);
  }
}
