/**
 * The two heap buffers usbf_start builds (struct __usbf_descs and struct
 * __usbf_strings), their allocators, and the stores that write descriptor
 * fields into them. Memory returned by malloc holds whatever the heap
 * held: the allocators take those bytes from the caller.
 */
module Buffers {
  import opened Bytes
  import opened Consts
  import opened Layout
  import opened Wrappers
  import opened Registry
  import opened Blobs

  /** The bytes a fresh heap block of `length` bytes holds before anything is written. */
  function Garbage(heap: nat -> byte, length: nat): (r: seq<byte>)
    ensures |r| == length
    ensures forall k | 0 <= k < length :: r[k] == heap(k)
  {
    seq(length, k requires 0 <= k => heap(k))
  }

  /** struct __usbf_descs: speed and endpoint counts, the computed length, the heap block. */
  class DescsBuffer {
    var speeds: nat
    var endpoints: nat
    var length: nat
    var data: array?<byte>

    constructor (speeds: nat, endpoints: nat)
      ensures this.speeds == speeds && this.endpoints == endpoints && data == null
    {
      this.speeds := speeds;
      this.endpoints := endpoints;
      length := 0;
      data := null;
    }

    /**
     * __usbf_descs_alloc: the length is set whether or not malloc succeeds;
     * the result is 0 with a block of that length, or -ENOMEM.
     */
    method Alloc(mallocOk: bool, heap: nat -> byte) returns (r: int)
      modifies this
      ensures speeds == old(speeds) && endpoints == old(endpoints)
      ensures length == DescsLength(speeds, endpoints)
      ensures r == (if mallocOk then 0 else -ENOMEM)
      ensures mallocOk ==> data != null && fresh(data) && data[..] == Garbage(heap, length)
      ensures !mallocOk ==> data == null
    {
      length := DescsLength(speeds, endpoints);
      if mallocOk {
        var n := length;
        data := new byte[n](k requires 0 <= k => heap(k));
        r := 0;
      } else {
        data := null;
        r := -ENOMEM;
      }
    }
  }

  /** struct __usbf_strings: the string length, the computed length, the heap block. */
  class StringsBuffer {
    var strLength: nat
    var length: nat
    var data: array?<byte>

    constructor (strLength: nat)
      ensures this.strLength == strLength && data == null
    {
      this.strLength := strLength;
      length := 0;
      data := null;
    }

    ghost predicate Allocated()
      reads this
    {
      data != null && data.Length == length && length == StringsLength(strLength)
    }

    /** __usbf_strings_alloc: as for the descriptor buffer, with the strings length. */
    method Alloc(mallocOk: bool, heap: nat -> byte) returns (r: int)
      modifies this
      ensures strLength == old(strLength)
      ensures length == StringsLength(strLength)
      ensures r == (if mallocOk then 0 else -ENOMEM)
      ensures mallocOk ==> Allocated() && fresh(data) && data[..] == Garbage(heap, length)
      ensures !mallocOk ==> data == null
    {
      length := StringsLength(strLength);
      if mallocOk {
        var n := length;
        data := new byte[n](k requires 0 <= k => heap(k));
        r := 0;
      } else {
        data := null;
        r := -ENOMEM;
      }
    }

    /** __usbf_strings_set_code: a 16-bit store right after the header, and nothing else. */
    method SetCode(code: uint16)
      requires Allocated()
      modifies data
      ensures data[CodeOffset() .. CodeOffset() + LANG_CODE_SIZE] == Le16(code)
      ensures forall k | 0 <= k < data.Length && !(CodeOffset() <= k < CodeOffset() + LANG_CODE_SIZE) ::
                data[k] == old(data[k])
      ensures data[..CodeOffset()] == old(data[..CodeOffset()])
    {
      var bytes := Le16(code);
      data[CodeOffset()] := bytes[0];
      data[CodeOffset() + 1] := bytes[1];
    }

    /**
     * __usbf_strings_set_string: -EINVAL without writing when the string's
     * length is not the one the buffer was sized for; otherwise the string
     * and its NUL are copied after the language code, the NUL landing on
     * the buffer's last byte.
     */
    method SetString(s: CString) returns (r: int)
      requires Allocated()
      modifies data
      ensures r == (if |s| == strLength then 0 else -EINVAL)
      ensures |s| != strLength ==> data[..] == old(data[..])
      ensures |s| == strLength ==> data[StringOffset() ..] == s + [0]
      ensures data[..StringOffset()] == old(data[..StringOffset()])
    {
      if |s| != strLength {
        return -EINVAL;
      }
      var i := 0;
      while i < |s|
        invariant 0 <= i <= |s|
        invariant forall k | 0 <= k < i :: data[StringOffset() + k] == s[k]
        invariant data[..StringOffset()] == old(data[..StringOffset()])
      {
        data[StringOffset() + i] := s[i];
        i := i + 1;
      }
      data[StringOffset() + i] := 0;
      assert data[StringOffset() ..] == s + [0] by {
        forall k | 0 <= k <= |s|
          ensures data[StringOffset() ..][k] == (s + [0])[k]
        {
        }
      }
      r := 0;
    }
  }

  /** A little-endian 32-bit store at `off`, and nothing else. */
  method StoreLe32(a: array<byte>, off: nat, v: uint32)
    requires off + 4 <= a.Length
    modifies a
    ensures a[off .. off + 4] == Le32(v)
    ensures forall k | 0 <= k < a.Length && !(off <= k < off + 4) :: a[k] == old(a[k])
    ensures a[..off] == old(a[..off])
  {
    var bytes := Le32(v);
    a[off] := bytes[0];
    a[off + 1] := bytes[1];
    a[off + 2] := bytes[2];
    a[off + 3] := bytes[3];
  }

  /** The byte an image cell leaves in a buffer that held `b`. */
  function Put(c: Cell, b: byte): byte
  {
    if c.Some? then c.value else b
  }

  /**
   * The stores usbf_start makes through the interface pointer: bLength,
   * bDescriptorType, bNumEndpoints, bInterfaceClass, iInterface. The other
   * four bytes keep what the buffer held.
   */
  method StoreInterface(a: array<byte>, off: nat, numEndpoints: byte, interfaceClass: byte)
    requires off + INTERFACE_DESC_SIZE <= a.Length
    modifies a
    ensures a[off .. off + INTERFACE_DESC_SIZE] ==
            Realize(InterfaceImage(numEndpoints, interfaceClass), old(a[off .. off + INTERFACE_DESC_SIZE]))
    ensures forall k | 0 <= k < a.Length && !(off <= k < off + INTERFACE_DESC_SIZE) :: a[k] == old(a[k])
  {
    a[off] := INTERFACE_DESC_SIZE;
    a[off + 1] := USB_DT_INTERFACE;
    a[off + 4] := numEndpoints;
    a[off + 5] := interfaceClass;
    a[off + 8] := 1;
    ghost var img := InterfaceImage(numEndpoints, interfaceClass);
    ghost var r := Realize(img, old(a[off .. off + INTERFACE_DESC_SIZE]));
    forall t | 0 <= t < INTERFACE_DESC_SIZE
      ensures a[off .. off + INTERFACE_DESC_SIZE][t] == r[t]
    {
      assert old(a[off .. off + INTERFACE_DESC_SIZE])[t] == old(a[off + t]);
    }
  }

  /**
   * The stores usbf_start makes through the endpoint pointer, with the
   * switch on the speed: each case stores its own packet size and the
   * full-speed interval.
   */
  method StoreEndpoint(a: array<byte>, off: nat, speed: bv32, e: EpEntry)
    requires off + ENDPOINT_DESC_SIZE <= a.Length && IsSpeed(speed)
    modifies a
    ensures a[off .. off + ENDPOINT_DESC_SIZE] == Realize(EndpointImage(speed, e), old(a[off .. off + ENDPOINT_DESC_SIZE]))
    ensures forall k | 0 <= k < a.Length && !(off <= k < off + ENDPOINT_DESC_SIZE) :: a[k] == old(a[k])
  {
    a[off] := ENDPOINT_DESC_SIZE;
    a[off + 1] := USB_DT_ENDPOINT;
    a[off + 2] := e.address;
    a[off + 3] := e.config.epType % 0x100;
    var mps: seq<byte>;
    if speed == USBF_SPEED_FS {
      mps := Le16(e.config.fsMaxPacket);
      a[off + 4], a[off + 5] := mps[0], mps[1];
      a[off + 6] := e.config.fsInterval;
    } else if speed == USBF_SPEED_HS {
      mps := Le16(e.config.hsMaxPacket);
      a[off + 4], a[off + 5] := mps[0], mps[1];
      a[off + 6] := e.config.fsInterval;
    } else {
      mps := Le16(e.config.ssMaxPacket);
      a[off + 4], a[off + 5] := mps[0], mps[1];
      a[off + 6] := e.config.fsInterval;
    }
    assert mps == Le16(MaxPacket(speed, e.config));
    ghost var bytes := [ENDPOINT_DESC_SIZE, USB_DT_ENDPOINT, e.address, e.config.epType % 0x100] + mps + [e.config.fsInterval];
    assert a[off .. off + ENDPOINT_DESC_SIZE] == bytes;
    RealizeDefined(bytes, old(a[off .. off + ENDPOINT_DESC_SIZE]));
  }

  /**
   * A buffer being filled front to back with an image over initial
   * contents `init`: below the frontier `f` it holds the image realized,
   * from the frontier on it still holds `init`.
   */
  ghost predicate FilledTo(d: seq<byte>, img: seq<Cell>, init: seq<byte>, f: nat)
  {
    && |d| == |img| == |init| && f <= |d|
    && (forall k | 0 <= k < f :: d[k] == Put(img[k], init[k]))
    && (forall k | f <= k < |d| :: d[k] == init[k])
  }

  /** Writing the next region of the image, and nothing else, moves the frontier past it. */
  lemma StepRegion(d0: seq<byte>, d1: seq<byte>, img: seq<Cell>, init: seq<byte>, f: nat, region: seq<Cell>)
    requires FilledTo(d0, img, init, f) && |d1| == |d0|
    requires f + |region| <= |d0| && img[f .. f + |region|] == region
    requires d1[f .. f + |region|] == Realize(region, d0[f .. f + |region|])
    requires forall k | 0 <= k < |d0| && !(f <= k < f + |region|) :: d1[k] == d0[k]
    ensures FilledTo(d1, img, init, f + |region|)
  {
    forall k | f <= k < f + |region|
      ensures d1[k] == Put(img[k], init[k])
    {
      assert d1[k] == d1[f .. f + |region|][k - f];
      assert d0[k] == d0[f .. f + |region|][k - f];
      assert img[k] == region[k - f];
    }
  }

  /** The same step for a region whose bytes are all written. */
  lemma StepDefined(d0: seq<byte>, d1: seq<byte>, img: seq<Cell>, init: seq<byte>, f: nat, bs: seq<byte>)
    requires FilledTo(d0, img, init, f) && |d1| == |d0|
    requires f + |bs| <= |d0| && img[f .. f + |bs|] == Defined(bs)
    requires d1[f .. f + |bs|] == bs
    requires forall k | 0 <= k < |d0| && !(f <= k < f + |bs|) :: d1[k] == d0[k]
    ensures FilledTo(d1, img, init, f + |bs|)
  {
    RealizeDefined(bs, d0[f .. f + |bs|]);
    StepRegion(d0, d1, img, init, f, Defined(bs));
  }

  /** A buffer filled to its end holds the realized image. */
  lemma FilledAll(d: seq<byte>, img: seq<Cell>, init: seq<byte>)
    requires FilledTo(d, img, init, |d|)
    ensures d == Realize(img, init)
  {
  }

  /** Nothing written yet. */
  lemma FilledNone(d: seq<byte>, img: seq<Cell>)
    requires |d| == |img|
    ensures FilledTo(d, img, d, 0)
  {
  }
}
