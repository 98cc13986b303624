/** What policies may say: the embedded schema with the providers' triggers (policy lib.rs). */
module ComposedSchema {
  import opened Wrappers
  import opened OrderedMaps
  import opened Values
  import opened Schemas
  import opened Conformance
  import opened PreparationLaws
  import opened SchemaExtension
  import opened SchemaRegistries
  import opened Providers
  import opened EmbeddedSchema

  const IPV6_NODE: SchemaNode := WRITABLE_OBJECT.(properties := [Entry("dhcp6", OPEN_NODE), Entry("ra", OPEN_NODE)])

  lemma TwoBelow(node: SchemaNode)
    requires Property(node, "ipv6").None?
    ensures var once := AddBelow(node, ["ipv6", "dhcp6"], OPEN_NODE);
            && once.error.None?
            && Property(once.node, "ipv6") == Some(WRITABLE_OBJECT.(properties := [Entry("dhcp6", OPEN_NODE)]))
            && (forall key | key != "ipv6" :: Property(once.node, key) == Property(node, key))
            && var twice := AddBelow(once.node, ["ipv6", "ra"], OPEN_NODE);
               && twice.error.None?
               && Property(twice.node, "ipv6") == Some(IPV6_NODE)
               && (forall key | key != "ipv6" :: Property(twice.node, key) == Property(node, key))
  {
    hide Get, Insert;
    FreshParent(node, "ipv6");
    OnlyFirstPart(node, ["ipv6", "dhcp6"], OPEN_NODE);
    var child := WRITABLE_OBJECT.(properties := [Entry("dhcp6", OPEN_NODE)]);
    assert ["ipv6", "dhcp6"][1..] == ["dhcp6"] && ["ipv6", "ra"][1..] == ["ra"];
    ChildrenBelow();
    var once := AddBelow(node, ["ipv6", "dhcp6"], OPEN_NODE).node;
    assert Property(once, "ipv6") == Some(child);
    OnlyFirstPart(once, ["ipv6", "ra"], OPEN_NODE);
  }

  lemma ChildrenBelow()
    ensures AddBelow(WRITABLE_OBJECT, ["dhcp6"], OPEN_NODE)
         == Descent(WRITABLE_OBJECT.(properties := [Entry("dhcp6", OPEN_NODE)]), None)
    ensures AddBelow(WRITABLE_OBJECT.(properties := [Entry("dhcp6", OPEN_NODE)]), ["ra"], OPEN_NODE)
         == Descent(IPV6_NODE, None)
  {
    var one: OrderedMap<SchemaNode> := [Entry("dhcp6", OPEN_NODE)];
    assert one[1..] == [];
    assert "dhcp6" != "ra";
  }

  /** The three calls, and the trees that they leave. */
  lemma CallsGrow(registry: SchemaRegistry, base: Fragment, ipv4: Fragment, ethernet: Fragment)
    returns (base': Fragment, ipv4': Fragment)
    requires ValidRegistry(registry) && registry.fragments == [base, ipv4, ethernet]
    requires base.name == "base" && ipv4.name == "ipv4"
    requires base.triggerKey == None && ipv4.triggerKey == Some("ipv4") && ethernet.triggerKey == Some("ethernet")
    requires Property(base.root, "ipv6").None? && Property(ipv4.root, "dhcp4").None?
    ensures After(registry, PROVIDER_CALLS) == registry.(fragments := [base', ipv4', ethernet])
    ensures base'.name == base.name && base'.triggerKey == None
    ensures base'.root == base.root.(properties := base'.root.properties)
    ensures Property(base'.root, "ipv6") == Some(IPV6_NODE)
    ensures forall key | key != "ipv6" :: Property(base'.root, key) == Property(base.root, key)
    ensures ipv4'.name == ipv4.name && ipv4'.triggerKey == Some("ipv4")
    ensures ipv4'.root == WithProperty(ipv4.root, "dhcp4", DHCP4_NODE)
  {
    hide ValidSchemaNode, ValidRegistry, AddBelow, DeriveFields, SplitPath, FindTrigger, AddNode, WithProperty,
      FragmentIndex, Property, After;
    ProviderNodesAreValid();
    NamesAreDotFree();
    SplitPlain("dhcp4");
    SplitTwo("ipv6", "dhcp6");
    SplitTwo("ipv6", "ra");

    IndexOfThree(base, ipv4, ethernet);
    OneBelow(ipv4.root, "dhcp4", DHCP4_NODE);
    CallResult(registry, 1, Call("ipv4", "dhcp4", DHCP4_NODE), ["dhcp4"]);
    AddNodeKeepsValid(registry, "ipv4", "dhcp4", DHCP4_NODE);
    var r1 := AddNode(registry, "ipv4", "dhcp4", DHCP4_NODE).0;
    ipv4' := r1.fragments[1];
    assert r1.fragments == [base, ipv4', ethernet];

    IndexOfThree(base, ipv4', ethernet);
    TwoBelow(base.root);
    OnlyFirstPart(base.root, ["ipv6", "dhcp6"], OPEN_NODE);
    CallResult(r1, 0, Call("base", "ipv6.dhcp6", OPEN_NODE), ["ipv6", "dhcp6"]);
    AddNodeKeepsValid(r1, "base", "ipv6.dhcp6", OPEN_NODE);
    var r2 := AddNode(r1, "base", "ipv6.dhcp6", OPEN_NODE).0;
    base' := r2.fragments[0];
    assert r2.fragments == [base', ipv4', ethernet];

    IndexOfThree(base', ipv4', ethernet);
    OnlyFirstPart(base'.root, ["ipv6", "ra"], OPEN_NODE);
    CallResult(r2, 0, Call("base", "ipv6.ra", OPEN_NODE), ["ipv6", "ra"]);
    var r3 := AddNode(r2, "base", "ipv6.ra", OPEN_NODE).0;
    base' := r3.fragments[0];
    assert r3.fragments == [base', ipv4', ethernet];
    ThreeCalls(registry, PROVIDER_CALLS[0], PROVIDER_CALLS[1], PROVIDER_CALLS[2]);
  }

  // ---------------------------------------------------------------- what conforms

  /** Parameters of the DHCPv4 client: whether to send the host name, and a metric that is not negative. */
  predicate FitsDhcp4(value: Value) {
    && value.Map?
    && forall e | e in value.entries ::
         if e.key == "send-hostname" then e.value.Bool?
         else e.key == "route-metric" && IsInteger(e.value) && !(e.value.I64? && e.value.signed < 0)
  }

  /** The two triggers of `ipv6`, with any parameters. */
  predicate FitsIpv6(value: Value) {
    value.Map? && forall e | e in value.entries :: (e.key == "dhcp6" || e.key == "ra") && e.value.Map?
  }

  ghost predicate FitsIpv4Policy(text: IpText, value: Value) {
    && value.Map?
    && forall e | e in value.entries ::
         if e.key == "dhcp4" then FitsDhcp4(e.value)
         else
           e.key == "addresses" && e.value.List? && forall item | item in e.value.items :: FitsAddress(text, item)
  }

  ghost predicate FitsPolicy(text: IpText, s: State, writableOnly: bool) {
    && (forall e | e in s.fields && e.key != "ipv4" && e.key != "ethernet" ::
          if e.key == "ipv6" then FitsIpv6(e.value) else FitsBase(e, writableOnly))
    && (Has(s.fields, "ipv4") ==> FitsIpv4Policy(text, Get(s.fields, "ipv4").value))
    && (Has(s.fields, "ethernet") ==> FitsEthernet(Get(s.fields, "ethernet").value, writableOnly))
  }

  lemma Dhcp4Property(key: string)
    ensures Property(DHCP4_NODE, key) ==
            if key == "send-hostname" then Some(Scalar(BooleanType, true))
            else if key == "route-metric" then Some(Scalar(IntegerType, true).(minimum := Some(0)))
            else None
  {
  }

  lemma MetricConforms(w: Walk, value: Value)
    ensures var node := Scalar(IntegerType, true).(minimum := Some(0));
            && ValidSchemaNode(node)
            && (Conforms(w, node, value) <==> IsInteger(value) && !(value.I64? && value.signed < 0))
  {
    LeafIsValid(Scalar(IntegerType, true).(minimum := Some(0)));
  }

  lemma Dhcp4Conforms(w: Walk, value: Value)
    requires ValidSchemaNode(DHCP4_NODE)
    ensures Conforms(w, DHCP4_NODE, value) <==> FitsDhcp4(value)
  {
    hide Property;
    if value.Map? {
      forall e | e in value.entries
        ensures ConformsEntry(w, DHCP4_NODE, e, []) <==>
                if e.key == "send-hostname" then e.value.Bool?
                else e.key == "route-metric" && IsInteger(e.value) && !(e.value.I64? && e.value.signed < 0)
      {
        Dhcp4Property(e.key);
        ScalarConforms(w, BooleanType, true, e.value);
        MetricConforms(w, e.value);
      }
    }
  }

  lemma OpenConforms(w: Walk, value: Value)
    requires ValidSchemaNode(OPEN_NODE)
    ensures Conforms(w, OPEN_NODE, value) <==> value.Map?
  {
    if value.Map? {
      forall e | e in value.entries ensures ConformsEntry(w, OPEN_NODE, e, []) {
        assert Property(OPEN_NODE, e.key).None?;
      }
    }
  }

  lemma Ipv6Property(key: string)
    ensures Property(IPV6_NODE, key) == if key == "dhcp6" || key == "ra" then Some(OPEN_NODE) else None
  {
    var rest: OrderedMap<SchemaNode> := [Entry("ra", OPEN_NODE)];
    assert IPV6_NODE.properties[1..] == rest && rest[1..] == [];
  }

  lemma Ipv6Conforms(w: Walk, value: Value)
    requires ValidSchemaNode(IPV6_NODE) && ValidSchemaNode(OPEN_NODE)
    ensures Conforms(w, IPV6_NODE, value) <==> FitsIpv6(value)
  {
    hide Property;
    if value.Map? {
      forall e | e in value.entries
        ensures ConformsEntry(w, IPV6_NODE, e, []) <==> (e.key == "dhcp6" || e.key == "ra") && e.value.Map?
      {
        Ipv6Property(e.key);
        OpenConforms(w, e.value);
      }
    }
  }

  lemma Ipv4PolicyConforms(w: Walk, fields: Fields)
    requires ValidSchemaNode(IPV4_ROOT) && ValidSchemaNode(DHCP4_NODE)
    requires ValidSchemaNode(WithProperty(IPV4_ROOT, "dhcp4", DHCP4_NODE))
    ensures ConformsFields(w, WithProperty(IPV4_ROOT, "dhcp4", DHCP4_NODE), fields, [])
            <==> FitsIpv4Policy(w.text, Map(fields))
  {
    hide FitsAddress, FitsDhcp4;
    var root := WithProperty(IPV4_ROOT, "dhcp4", DHCP4_NODE);
    var list := Scalar(ArrayType, true).(items := Some(IPV4_ITEM));
    forall e | e in fields
      ensures ConformsEntry(w, root, e, []) <==>
              if e.key == "dhcp4" then FitsDhcp4(e.value)
              else
                && e.key == "addresses" && e.value.List?
                && forall item | item in e.value.items :: FitsAddress(w.text, item)
    {
      assert Property(IPV4_ROOT, e.key) == if e.key == "addresses" then Some(list) else None;
      ListConforms(w, e.value);
      Dhcp4Conforms(w, e.value);
    }
  }

  // ---------------------------------------------------------------- states

  ghost predicate IsComposed(registry: SchemaRegistry, base: Fragment, ipv4: Fragment, ethernet: Fragment) {
    && registry.fragments == [base, ipv4, ethernet]
    && base.triggerKey == None && ipv4.triggerKey == Some("ipv4") && ethernet.triggerKey == Some("ethernet")
    && !base.root.additionalProperties && base.root.required == []
    && Property(base.root, "ipv6") == Some(IPV6_NODE)
    && (forall key | key != "ipv6" :: Property(base.root, key) == Property(BASE_ROOT, key))
    && ipv4.root == WithProperty(IPV4_ROOT, "dhcp4", DHCP4_NODE)
    && ethernet.root == ETHERNET_ROOT
  }

  lemma ComposedFragments(text: IpText) returns (base: Fragment, ipv4: Fragment, ethernet: Fragment)
    ensures IsComposed(Composed(text), base, ipv4, ethernet) && Composed(text).text == text
  {
    hide ValidRegistry, DeriveFields, Property, WithProperty, After, IPV6_NODE;
    Ipv4HasNoDhcp4();
    BaseHasNoIpv6();
    var registry := Embedded(text);
    ethernet := registry.fragments[2];
    base, ipv4 := CallsGrow(registry, registry.fragments[0], registry.fragments[1], ethernet);
    EmbeddedFragments(text);
    assert BASE_ROOT.required == [] && !BASE_ROOT.additionalProperties;
  }

  lemma BasePolicyConforms(w: Walk, root: SchemaNode, e: Entry<Value>)
    requires ValidSchemaNode(root) && ValidSchemaNode(BASE_ROOT)
    requires ValidSchemaNode(IPV6_NODE) && ValidSchemaNode(OPEN_NODE)
    requires !root.additionalProperties && Property(root, "ipv6") == Some(IPV6_NODE)
    requires forall key | key != "ipv6" :: Property(root, key) == Property(BASE_ROOT, key)
    ensures ConformsEntry(w, root, e, ["ipv4", "ethernet"])
            <==> || e.key == "ipv4" || e.key == "ethernet"
                 || (if e.key == "ipv6" then FitsIpv6(e.value) else FitsBase(e, w.writableOnly))
  {
    hide ValidSchemaNode, Conforms, Property, FitsIpv6, FitsBase, BASE_ROOT;
    Ipv6Conforms(w, e.value);
    BaseIsClosed();
    BaseEntryConforms(w, e, ["ipv4", "ethernet"]);
    assert IPV6_NODE.writable;
  }

  lemma BaseIsClosed()
    ensures !BASE_ROOT.additionalProperties
  {
  }

  lemma NodesAreValid()
    ensures ValidSchemaNode(BASE_ROOT) && ValidSchemaNode(IPV4_ROOT) && ValidSchemaNode(ETHERNET_ROOT)
    ensures ValidSchemaNode(DHCP4_NODE) && ValidSchemaNode(OPEN_NODE) && ValidSchemaNode(IPV6_NODE)
  {
    hide ValidSchemaNode;
    BaseRootIsValid();
    Ipv4RootIsValid();
    EthernetRootIsValid();
    ProviderNodesAreValid();
    LeafIsValid(WRITABLE_OBJECT);
    WithPropertyIsValid(WRITABLE_OBJECT, "dhcp6", OPEN_NODE);
    ChildrenBelow();
    WithPropertyIsValid(WithProperty(WRITABLE_OBJECT, "dhcp6", OPEN_NODE), "ra", OPEN_NODE);
  }

  lemma BasePolicyFragment(registry: SchemaRegistry, base: Fragment, s: State, writableOnly: bool)
    requires ValidFragment(base) && base.triggerKey == None && TriggerKeys(registry.fragments) == ["ipv4", "ethernet"]
    requires !base.root.additionalProperties && base.root.required == []
    requires Property(base.root, "ipv6") == Some(IPV6_NODE)
    requires forall key | key != "ipv6" :: Property(base.root, key) == Property(BASE_ROOT, key)
    ensures ConformsFragment(registry, base, s, writableOnly) <==>
            forall e | e in s.fields && e.key != "ipv4" && e.key != "ethernet" ::
              if e.key == "ipv6" then FitsIpv6(e.value) else FitsBase(e, writableOnly)
  {
    hide ValidSchemaNode, Property, Conforms, FitsBase, FitsIpv6, TriggerKeys, ConformsEntry, DeriveFields, BASE_ROOT,
      IPV6_NODE;
    NodesAreValid();
    var w := Walk(registry.text, base.name, writableOnly);
    forall e | e in s.fields
      ensures ConformsEntry(w, base.root, e, ["ipv4", "ethernet"])
              <==> || e.key == "ipv4" || e.key == "ethernet"
                   || (if e.key == "ipv6" then FitsIpv6(e.value) else FitsBase(e, writableOnly))
    {
      BasePolicyConforms(w, base.root, e);
    }
    BaseProperty("type");
    ScalarConforms(w, StringType, false, String(s.deviceType));
  }

  lemma GroupPolicyFragment(registry: SchemaRegistry, f: Fragment, s: State, writableOnly: bool)
    requires ValidFragment(f) && f.triggerKey == Some("ipv4")
    requires f.root == WithProperty(IPV4_ROOT, "dhcp4", DHCP4_NODE)
    ensures ConformsFragment(registry, f, s, writableOnly) <==>
            (Has(s.fields, "ipv4") ==> FitsIpv4Policy(registry.text, Get(s.fields, "ipv4").value))
  {
    hide ValidSchemaNode, ConformsFields, Get, DeriveFields, WithProperty;
    NodesAreValid();
    var value := Get(s.fields, "ipv4");
    if value.Some? && value.value.Map? {
      Ipv4PolicyConforms(Walk(registry.text, f.name, writableOnly), value.value.entries);
    }
  }

  /** Validation of policies accepts exactly these states. */
  lemma PoliciesAccept(text: IpText, s: State)
    ensures ValidateWritable(Composed(text), s) == [] <==> FitsPolicy(text, s, true)
  {
    hide ValidRegistry, Composed, FitsPolicy, ConformsState;
    ValidatorIsCorrect(Composed(text), s);
    PoliciesConform(text, s, true);
  }

  lemma PoliciesConform(text: IpText, s: State, writableOnly: bool)
    ensures ConformsState(Composed(text), s, writableOnly) <==> FitsPolicy(text, s, writableOnly)
  {
    hide ConformsFragment, Property, FitsIpv4Policy, FitsEthernet, FitsBase, FitsIpv6, TriggerKeys,
      Composed, IPV6_NODE, BASE_ROOT, WithProperty, ValidFragment;
    var registry := Composed(text);
    var base, ipv4, ethernet := ComposedFragments(text);
    assert base in registry.fragments && ipv4 in registry.fragments && ethernet in registry.fragments;
    TriggersOfThree(registry.fragments);
    BasePolicyFragment(registry, base, s, writableOnly);
    GroupPolicyFragment(registry, ipv4, s, writableOnly);
    GroupConforms(registry, ethernet, s, writableOnly);
    RootsDiffer();
    forall f | f in registry.fragments ensures f == base || f == ipv4 || f == ethernet {
    }
  }

  lemma RootsDiffer()
    ensures ETHERNET_ROOT != IPV4_ROOT
  {
    assert ETHERNET_ROOT.impliedDeviceType != IPV4_ROOT.impliedDeviceType;
  }
}
