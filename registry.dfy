/**
 * The configuration records a caller hands to the library, and the pure
 * rules of the function/endpoint registry: which speed masks and endpoint
 * types are accepted, and which address an endpoint receives.
 */
module Registry {
  import opened Bytes
  import opened Consts
  import opened Wrappers
  import opened Dispatch

  /** usbf_endpoint_descriptor: per-speed packet sizes and intervals, type, direction. */
  datatype EndpointConfig = EndpointConfig(
    fsMaxPacket: uint16,
    hsMaxPacket: uint16,
    ssMaxPacket: uint16,
    fsInterval: byte,
    hsInterval: byte,
    ssInterval: byte,
    epType: int,
    direction: bv32)

  /**
   * usbf_function_descriptor: speed mask, interface class, display string
   * and the two optional handlers, of which only the integer result is
   * modelled.
   */
  datatype FunctionConfig = FunctionConfig(
    speed: bv32,
    interfaceClass: byte,
    str: CString,
    eventHandler: Option<int -> int>,
    setupHandler: Option<SetupRequest -> int>)

  /** A registered endpoint as the descriptor builder sees it. */
  datatype EpEntry = EpEntry(address: byte, config: EndpointConfig)

  /** The speed check of usbf_create_function: no bit outside 0x07, some bit inside. */
  predicate ValidSpeed(speed: bv32)
  {
    speed & !USBF_SPEED_MASK == 0 && speed & USBF_SPEED_MASK != 0
  }

  /** The accepted masks are exactly 1 through 7. */
  lemma ValidSpeedRange(speed: bv32)
    ensures ValidSpeed(speed) <==> 1 <= speed as int <= 7
  {
  }

  /** The type check of usbf_add_endpoint. */
  predicate ValidType(epType: int)
  {
    epType == USBF_ISOCHRONOUS || epType == USBF_BULK || epType == USBF_INTERRUPT
  }

  /** A direction that is one of the two enumerated values. */
  predicate ValidDirection(direction: bv32)
  {
    direction == USBF_OUT || direction == USBF_IN
  }

  /**
   * The address of the `count`-th registered endpoint: the count OR'ed
   * with the direction, stored in an 8-bit field.
   */
  function Address(count: nat, direction: bv32): (a: byte)
    requires 1 <= count <= MAX_ENDPOINTS
    ensures ValidDirection(direction) ==> a % 0x80 == count
    ensures ValidDirection(direction) ==> (a >= 0x80 <==> direction == USBF_IN)
  {
    (((count as bv32) | direction) & 0xFF) as int
  }

  /** The entry table after registering `configs` in order. */
  predicate WellFormedTable(eps: seq<EpEntry>)
  {
    && |eps| <= MAX_ENDPOINTS
    && forall i | 0 <= i < |eps| ::
         eps[i].address == Address(i + 1, eps[i].config.direction) && ValidType(eps[i].config.epType)
  }

  /**
   * With enumerated directions, the low seven bits of the addresses are
   * 1..N in registration order, so they strictly increase and no two
   * endpoints share an address.
   */
  lemma AddressesIncreasing(eps: seq<EpEntry>)
    requires WellFormedTable(eps)
    requires forall i | 0 <= i < |eps| :: ValidDirection(eps[i].config.direction)
    ensures forall i | 0 <= i < |eps| :: eps[i].address % 0x80 == i + 1
    ensures forall i, j | 0 <= i < j < |eps| :: eps[i].address % 0x80 < eps[j].address % 0x80
    ensures forall i, j | 0 <= i < j < |eps| :: eps[i].address != eps[j].address
  {
    forall i | 0 <= i < |eps|
      ensures eps[i].address % 0x80 == i + 1
    {
      assert eps[i].address == Address(i + 1, eps[i].config.direction);
    }
  }
}
