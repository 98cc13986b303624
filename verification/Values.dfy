/** Configuration values (value.rs) and one source's contribution (state.rs). */
module Values {
  import opened Wrappers
  import opened OrderedMaps

  datatype IpAddr = V4(word: u32) | V6(segments: seq<bv16>)

  /** Structural equality compares maps positionally, as the program does. */
  datatype Value =
    | String(text: string)
    | U64(unsigned: u64)
    | I64(signed: i64)
    | Bool(flag: bool)
    | Ip(addr: IpAddr)
    | IpNetwork(net: IpAddr, prefix: u8)
    | List(items: seq<Value>)
    | Map(entries: OrderedMap<Value>)

  type Fields = OrderedMap<Value>

  /** Maps have unique keys at every level. */
  ghost predicate WellFormed(v: Value) {
    match v
    case List(items) => forall i | i in items :: WellFormed(i)
    case Map(entries) => WellFormedFields(entries)
    case _ => true
  }

  ghost predicate WellFormedFields(fields: Fields) {
    UniqueKeys(fields) && forall e | e in fields :: WellFormed(e.value)
  }

  datatype Match = Match(
    name: Option<string>,
    deviceType: Option<string>,
    driver: Option<string>,
    pciPath: Option<string>,
    mac: Option<string>)
  {
    predicate IsEmpty() {
      this == Match(None, None, None, None, None)
    }
  }

  const EMPTY_MATCH := Match(None, None, None, None, None)

  datatype Source =
    | Static(policy: string)
    | Vpn(policy: string)
    | Dhcp(policy: string)
    | Ra(policy: string)
    | Kernel
  {
    function DefaultPriority(): int {
      match this
      case Static(_) => 100
      case Vpn(_) => 75
      case Dhcp(_) => 50
      case Ra(_) => 25
      case Kernel => 0
    }
  }

  /** Identifiers and creation times are bookkeeping outside the model. */
  datatype State = State(
    deviceType: string,
    matchSpec: Match,
    fields: Fields,
    source: Source,
    priority: int)
  {
    predicate ContentEquals(other: State) {
      deviceType == other.deviceType && matchSpec == other.matchSpec && fields == other.fields
    }
  }

  function NewState(source: Source): State {
    State("", EMPTY_MATCH, [], source, source.DefaultPriority())
  }
}
