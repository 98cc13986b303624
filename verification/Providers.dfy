/** The fixed provider inventory and the schema registry it composes (policy lib.rs). */
module Providers {
  import opened Wrappers
  import opened OrderedMaps
  import opened Values
  import opened Schemas
  import opened Preparation
  import opened PreparationLaws
  import opened SchemaExtension
  import opened FlatLookups
  import opened SchemaRegistries

  datatype ProviderSource = DhcpProvider | RaProvider
  {
    function DefaultPriority(): int {
      match this
      case DhcpProvider => Dhcp("").DefaultPriority()
      case RaProvider => Ra("").DefaultPriority()
    }
  }

  datatype Registration = Registration(kind: string, domain: string, key: string, source: ProviderSource)
  {
    function Location(): string {
      domain + "." + key
    }
  }

  const DHCP4 := Registration("dhcp4", "ipv4", "dhcp4", DhcpProvider)
  const DHCP6 := Registration("dhcp6", "ipv6", "dhcp6", DhcpProvider)
  const RA := Registration("ra", "ipv6", "ra", RaProvider)

  function Registered(domain: string, key: string): (r: Option<Registration>)
    ensures r.Some? ==> r.value.domain == domain && r.value.key == key && r.value in [DHCP4, DHCP6, RA]
    ensures r.None? ==> forall p | p in [DHCP4, DHCP6, RA] :: !(p.domain == domain && p.key == key)
  {
    if domain == "ipv4" then (if key == "dhcp4" then Some(DHCP4) else None)
    else if domain == "ipv6" then (if key == "dhcp6" then Some(DHCP6) else if key == "ra" then Some(RA) else None)
    else None
  }

  const DHCP4_NODE: SchemaNode := Scalar(ObjectType, true).(properties := [
    Entry("send-hostname", Scalar(BooleanType, true)),
    Entry("route-metric", Scalar(IntegerType, true).(minimum := Some(0)))])

  const OPEN_NODE: SchemaNode := Scalar(ObjectType, true).(additionalProperties := true)

  lemma ProviderNodesAreValid()
    ensures ValidSchemaNode(DHCP4_NODE) && ValidSchemaNode(OPEN_NODE)
    ensures DHCP4_NODE.fieldType == OPEN_NODE.fieldType == Some(ObjectType)
  {
    var node := DHCP4_NODE;
    forall e | e in node.properties ensures ValidSchemaNode(e.value) {
      var i :| 0 <= i < |node.properties| && node.properties[i] == e;
      LeafIsValid(node.properties[i].value);
    }
    LeafIsValid(OPEN_NODE);
  }

  /** The composed registry: `ipv4` keys go to that fragment, other domains below the base. */
  const PROVIDER_CALLS: seq<Call> := [
    Call("ipv4", "dhcp4", DHCP4_NODE),
    Call("base", "ipv6.dhcp6", OPEN_NODE),
    Call("base", "ipv6.ra", OPEN_NODE)]

  function Composed(text: IpText): (r: SchemaRegistry)
    ensures ValidRegistry(r)
  {
    After(Embedded(text), PROVIDER_CALLS)
  }

  // ---------------------------------------------------------------- paths

  lemma SplitPlain(name: string)
    requires DotFree(name)
    ensures SplitPath(name) == [name]
  {
  }

  lemma SplitTwo(a: string, b: string)
    requires DotFree(a) && DotFree(b)
    ensures SplitPath(a + "." + b) == [a, b]
  {
    SplitOnceAt(a, b, '.');
    SplitPlain(b);
    assert (a + "." + b)[|a|] == '.';
  }

  // ---------------------------------------------------------------- where triggers live

  /**
   The registry describes a provider: its key is an optional object below its
   domain, which is a fragment of its own or an optional object of the base.
   */
  ghost predicate Hosts(registry: SchemaRegistry, p: Registration)
    requires ValidRegistry(registry)
  {
    match FindTrigger(registry.fragments, Some(p.domain))
    case Some(f) => HostsKey(f.root, p.key)
    case None =>
      var root := BaseRoot(registry);
      && Property(root, p.domain).Some? && p.domain !in root.required
      && Property(root, p.domain).value.fieldType == Some(ObjectType)
      && HostsKey(Property(root, p.domain).value, p.key)
  }

  ghost predicate HostsKey(node: SchemaNode, key: string) {
    Property(node, key).Some? && Property(node, key).value.fieldType == Some(ObjectType) && key !in node.required
  }

  /** A settable object that requires nothing. */
  ghost predicate OpenObject(root: SchemaNode, domain: string) {
    && Property(root, domain).Some? && Property(root, domain).value.fieldType == Some(ObjectType)
    && Property(root, domain).value.writable && Property(root, domain).value.required == []
  }

  /** One successful call, given where it lands. */
  lemma CallResult(registry: SchemaRegistry, i: nat, call: Call, parts: seq<string>)
    requires ValidRegistry(registry) && ValidSchemaNode(call.added)
    requires SplitPath(call.path) == parts && (forall part | part in parts :: DotFree(part))
    requires FragmentIndex(registry.fragments, call.fragment) == i < |registry.fragments|
    requires registry.fragments[i].triggerKey.None? ==> FindTrigger(registry.fragments, Some(parts[0])).None?
    requires AddBelow(registry.fragments[i].root, parts, call.added).error.None?
    ensures ValidSchemaNode(AddBelow(registry.fragments[i].root, parts, call.added).node)
    ensures AddNode(registry, call.fragment, call.path, call.added) ==
            (var grown := AddBelow(registry.fragments[i].root, parts, call.added).node;
             (registry.(fragments := registry.fragments[i := Regrown(registry.fragments[i], grown)]), None))
  {
    hide ValidSchemaNode, ValidRegistry, AddBelow, DeriveFields, SplitPath, FindTrigger;
    FragmentIsValid(registry, i);
    AddedIsValid(registry.fragments[i].root, parts, call.added);
    forall part | part in parts ensures part != "" {
      NamesAreNotEmpty(part);
    }
  }

  lemma IndexOfThree(base: Fragment, ipv4: Fragment, ethernet: Fragment)
    requires base.name == "base" && ipv4.name == "ipv4"
    requires base.triggerKey == None && ipv4.triggerKey == Some("ipv4") && ethernet.triggerKey == Some("ethernet")
    ensures FragmentIndex([base, ipv4, ethernet], "base") == 0 && FragmentIndex([base, ipv4, ethernet], "ipv4") == 1
    ensures FindTrigger([base, ipv4, ethernet], Some("ipv6")).None?
    ensures FindTrigger([base, ipv4, ethernet], Some("ipv4")) == Some(ipv4)
    ensures FindTrigger([base, ipv4, ethernet], None) == Some(base)
  {
    var all := [base, ipv4, ethernet];
    assert all[1..][0] == ipv4 && all[1..][1..][0] == ethernet && all[1..][1..][1..] == [];
    assert "ipv4"[3] != "ipv6"[3];
    assert base.triggerKey != Some("ipv6") && ipv4.triggerKey != Some("ipv6") && ethernet.triggerKey != Some("ipv6");
    assert FindTrigger(all[1..][1..], Some("ipv6")).None?;
    assert FindTrigger(all[1..], Some("ipv6")).None?;
  }

  /** The three calls succeed on any base without an `ipv6` field and any `ipv4` fragment without a `dhcp4` key. */
  lemma CallsSucceed(registry: SchemaRegistry, base: Fragment, ipv4: Fragment, ethernet: Fragment)
    requires ValidRegistry(registry) && registry.fragments == [base, ipv4, ethernet]
    requires base.name == "base" && ipv4.name == "ipv4"
    requires base.triggerKey == None && ipv4.triggerKey == Some("ipv4") && ethernet.triggerKey == Some("ethernet")
    requires Property(base.root, "ipv6").None? && Property(ipv4.root, "dhcp4").None?
    requires ipv4.root.required == [] && base.root.required == []
    ensures var r1 := AddNode(registry, "ipv4", "dhcp4", DHCP4_NODE);
            r1.1.None? && ValidRegistry(r1.0) &&
            var r2 := AddNode(r1.0, "base", "ipv6.dhcp6", OPEN_NODE);
            r2.1.None? && ValidRegistry(r2.0) &&
            var r3 := AddNode(r2.0, "base", "ipv6.ra", OPEN_NODE);
            && r3.1.None? && ValidRegistry(r3.0)
            && Hosts(r3.0, DHCP4) && Hosts(r3.0, DHCP6) && Hosts(r3.0, RA)
            && FindTrigger(r3.0.fragments, Some("ipv6")).None? && OpenObject(BaseRoot(r3.0), "ipv6")
  {
    hide ValidSchemaNode, ValidRegistry, AddBelow, DeriveFields, SplitPath, FindTrigger, AddNode, WithProperty,
      FragmentIndex, Property, BaseRoot;
    ProviderNodesAreValid();
    NamesAreDotFree();
    SplitPlain("dhcp4");
    SplitTwo("ipv6", "dhcp6");
    SplitTwo("ipv6", "ra");

    IndexOfThree(base, ipv4, ethernet);
    FirstBelow(ipv4.root, "dhcp4", DHCP4_NODE);
    CallResult(registry, 1, Call("ipv4", "dhcp4", DHCP4_NODE), ["dhcp4"]);
    AddNodeKeepsValid(registry, "ipv4", "dhcp4", DHCP4_NODE);
    var r1 := AddNode(registry, "ipv4", "dhcp4", DHCP4_NODE).0;
    var ipv4' := r1.fragments[1];
    assert r1.fragments == [base, ipv4', ethernet];

    IndexOfThree(base, ipv4', ethernet);
    SecondBelow(base.root, "ipv6", "dhcp6", OPEN_NODE);
    CallResult(r1, 0, Call("base", "ipv6.dhcp6", OPEN_NODE), ["ipv6", "dhcp6"]);
    AddNodeKeepsValid(r1, "base", "ipv6.dhcp6", OPEN_NODE);
    var r2 := AddNode(r1, "base", "ipv6.dhcp6", OPEN_NODE).0;
    var base' := r2.fragments[0];
    assert r2.fragments == [base', ipv4', ethernet];

    IndexOfThree(base', ipv4', ethernet);
    ThirdBelow(base'.root, "ipv6", "dhcp6", "ra", OPEN_NODE);
    CallResult(r2, 0, Call("base", "ipv6.ra", OPEN_NODE), ["ipv6", "ra"]);
    AddNodeKeepsValid(r2, "base", "ipv6.ra", OPEN_NODE);
    var r3 := AddNode(r2, "base", "ipv6.ra", OPEN_NODE).0;
    var base'' := r3.fragments[0];
    assert r3.fragments == [base'', ipv4', ethernet];
    IndexOfThree(base'', ipv4', ethernet);
    BaseRootIs(r3, base'');
  }

  lemma BaseRootIs(registry: SchemaRegistry, base: Fragment)
    requires ValidRegistry(registry) && FindTrigger(registry.fragments, None) == Some(base)
    ensures BaseRoot(registry) == base.root
  {
  }

  lemma NamesAreDotFree()
    ensures DotFree("dhcp4") && DotFree("ipv6") && DotFree("dhcp6") && DotFree("ra")
    ensures "dhcp6" != "ra"
    ensures "ipv6" + "." + "dhcp6" == "ipv6.dhcp6" && "ipv6" + "." + "ra" == "ipv6.ra"
  {
  }

  lemma FirstBelow(node: SchemaNode, key: string, added: SchemaNode)
    requires Property(node, key).None? && node.required == [] && added.fieldType == Some(ObjectType)
    ensures AddBelow(node, [key], added).error.None?
    ensures HostsKey(AddBelow(node, [key], added).node, key)
    ensures AddBelow(node, [key], added).node.required == []
  {
  }

  lemma SecondBelow(node: SchemaNode, domain: string, key: string, added: SchemaNode)
    requires Property(node, domain).None? && node.required == [] && added.fieldType == Some(ObjectType)
    ensures AddBelow(node, [domain, key], added).error.None?
    ensures HostsDomain(AddBelow(node, [domain, key], added).node, domain, key)
  {
    FreshParent(node, domain);
    FirstBelow(WRITABLE_OBJECT, key, added);
    assert [domain, key][1..] == [key];
  }

  ghost predicate HostsDomain(root: SchemaNode, domain: string, key: string) {
    && root.required == []
    && Property(root, domain).Some? && Property(root, domain).value.fieldType == Some(ObjectType)
    && Property(root, domain).value.required == [] && Property(root, domain).value.writable
    && HostsKey(Property(root, domain).value, key)
    && forall other | other != key :: Property(Property(root, domain).value, other).None?
  }

  lemma ThirdBelow(node: SchemaNode, domain: string, present: string, key: string, added: SchemaNode)
    requires HostsDomain(node, domain, present) && key != present && added.fieldType == Some(ObjectType)
    ensures AddBelow(node, [domain, key], added).error.None?
    ensures var root := AddBelow(node, [domain, key], added).node;
            && root.required == []
            && OpenObject(root, domain)
            && HostsKey(Property(root, domain).value, key) && HostsKey(Property(root, domain).value, present)
  {
    var child := Property(node, domain).value;
    FirstBelow(child, key, added);
    assert [domain, key][1..] == [key];
  }

  /** The base fragment after a node was added to it under a new name. */
  function GrownBase(name: string, added: SchemaNode): (r: SchemaNode)
    requires ValidSchemaNode(added)
    ensures ValidSchemaNode(r)
  {
    BaseRootIsValid();
    WithPropertyIsValid(BASE_ROOT, name, added);
    WithProperty(BASE_ROOT, name, added)
  }

  /** A node added to the base under a new name. */
  lemma AddedToThree(registry: SchemaRegistry, base: Fragment, ipv4: Fragment, ethernet: Fragment, name: string,
                     added: SchemaNode)
    requires ValidRegistry(registry) && registry.fragments == [base, ipv4, ethernet] && base.root == BASE_ROOT
    requires base.name == "base" && ipv4.name == "ipv4"
    requires base.triggerKey == None && ipv4.triggerKey == Some("ipv4") && ethernet.triggerKey == Some("ethernet")
    requires ValidSchemaNode(added) && DotFree(name)
    requires name !in BASE_NAMES && name != "ipv4" && name != "ethernet"
    ensures AddNode(registry, "base", name, added) ==
            (registry.(fragments := [Regrown(base, GrownBase(name, added)), ipv4, ethernet]), None)
  {
    hide ValidRegistry, ValidSchemaNode, DeriveFields, SplitPath, AddNode, FindTrigger, FragmentIndex, Property,
      Regrown, DotFree, WithProperty, AddBelow;
    SplitPlain(name);
    IndexOfThree(base, ipv4, ethernet);
    NoTriggerOfThree(base, ipv4, ethernet, name);
    NotInBase(name);
    OneBelow(BASE_ROOT, name, added);
    CallResult(registry, 0, Call("base", name, added), [name]);
    assert [base, ipv4, ethernet][0 := Regrown(base, GrownBase(name, added))]
      == [Regrown(base, GrownBase(name, added)), ipv4, ethernet];
  }

  lemma OneBelow(node: SchemaNode, name: string, added: SchemaNode)
    requires Property(node, name).None?
    ensures AddBelow(node, [name], added) == Descent(WithProperty(node, name, added), None)
  {
  }

  /** What a program gets that adds one node to the base of the embedded registry. */
  lemma AddedToBase(text: IpText, name: string, added: SchemaNode)
    requires ValidSchemaNode(added) && DotFree(name)
    requires name !in BASE_NAMES && name != "ipv4" && name != "ethernet"
    ensures var registry := After(Embedded(text), [Call("base", name, added)]);
            && AddNode(Embedded(text), "base", name, added) == (registry, None)
            && registry.fragments == [Regrown(Embedded(text).fragments[0], GrownBase(name, added)),
                                      Embedded(text).fragments[1], Embedded(text).fragments[2]]
  {
    hide ValidRegistry, ValidSchemaNode, DeriveFields, AddNode, Regrown, DotFree, GrownBase, After;
    var registry := Embedded(text);
    AddedToThree(registry, registry.fragments[0], registry.fragments[1], registry.fragments[2], name, added);
    OneCall(registry, Call("base", name, added));
  }

  lemma NoTriggerOfThree(base: Fragment, ipv4: Fragment, ethernet: Fragment, name: string)
    requires base.triggerKey == None && ipv4.triggerKey == Some("ipv4") && ethernet.triggerKey == Some("ethernet")
    requires name != "ipv4" && name != "ethernet"
    ensures FindTrigger([base, ipv4, ethernet], Some(name)).None?
  {
    var all := [base, ipv4, ethernet];
    assert all[1..][0] == ipv4 && all[1..][1..][0] == ethernet && all[1..][1..][1..] == [];
    assert FindTrigger(all[1..][1..], Some(name)).None?;
    assert FindTrigger(all[1..], Some(name)).None?;
  }

  lemma NotInBase(name: string)
    requires name !in BASE_NAMES
    ensures Property(BASE_ROOT, name).None?
  {
    hide Get;
    BaseNames();
    var root := BASE_ROOT;
    forall e | e in root.properties ensures e.key != name {
      var i :| 0 <= i < |root.properties| && root.properties[i] == e;
      assert e.key == BASE_NAMES[i];
    }
  }

  lemma OneCall(registry: SchemaRegistry, call: Call)
    requires ValidRegistry(registry)
    ensures After(registry, [call]) == AddNode(registry, call.fragment, call.path, call.added).0
  {
    hide ValidRegistry, AddNode;
    assert [] + [call] == [call];
    LastCall(registry, [], call);
  }

  lemma Ipv4HasNoDhcp4()
    ensures Property(IPV4_ROOT, "dhcp4").None? && IPV4_ROOT.required == []
  {
    assert IPV4_ROOT.properties[0].key == "addresses" && |IPV4_ROOT.properties| == 1;
    assert IPV4_ROOT.properties[0].key != "dhcp4";
  }

  lemma BaseHasNoIpv6()
    ensures Property(BASE_ROOT, "ipv6").None? && BASE_ROOT.required == []
  {
    forall i | 0 <= i < |BASE_NAMES| ensures BASE_NAMES[i] != "ipv6" {
      assert BASE_NAMES[i] != "ipv6";
    }
    NotInBase("ipv6");
  }

  /** The composed registry builds without a conflict and describes every provider. */
  lemma ComposedHosts(text: IpText)
    ensures Hosts(Composed(text), DHCP4) && Hosts(Composed(text), DHCP6) && Hosts(Composed(text), RA)
    ensures FindTrigger(Composed(text).fragments, Some("ipv6")).None? && OpenObject(BaseRoot(Composed(text)), "ipv6")
  {
    hide ValidRegistry, AddNode, Hosts, OpenObject, Property, DeriveFields;
    Ipv4HasNoDhcp4();
    BaseHasNoIpv6();
    var registry := Embedded(text);
    CallsSucceed(registry, registry.fragments[0], registry.fragments[1], registry.fragments[2]);
    ThreeCalls(registry, PROVIDER_CALLS[0], PROVIDER_CALLS[1], PROVIDER_CALLS[2]);
  }

  lemma ThreeCalls(registry: SchemaRegistry, a: Call, b: Call, c: Call)
    requires ValidRegistry(registry)
    ensures var r1 := AddNode(registry, a.fragment, a.path, a.added).0;
            ValidRegistry(r1) &&
            var r2 := AddNode(r1, b.fragment, b.path, b.added).0;
            ValidRegistry(r2) &&
            var r3 := AddNode(r2, c.fragment, c.path, c.added).0;
            After(registry, [a, b, c]) == r3
  {
    hide ValidRegistry, AddNode;
    AddNodeKeepsValid(registry, a.fragment, a.path, a.added);
    var r1 := AddNode(registry, a.fragment, a.path, a.added).0;
    AddNodeKeepsValid(r1, b.fragment, b.path, b.added);
    var r2 := AddNode(r1, b.fragment, b.path, b.added).0;
    AddNodeKeepsValid(r2, c.fragment, c.path, c.added);
    assert [a, b, c][1..] == [b, c] && [b, c][1..] == [c];
    var r3 := AddNode(r2, c.fragment, c.path, c.added).0;
    assert [c][1..] == [];
    assert After(r3, []) == r3;
    assert After(r2, [c]) == r3;
  }
}
