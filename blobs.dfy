/**
 * The two blobs usbf_start hands to FunctionFS, described field by field
 * in the order the ABI lays them out. This is the reference the byte-level
 * builders are proved against: a descriptor blob is an image of cells, a
 * cell being either a byte the library writes or a byte it leaves as
 * malloc returned it; the strings blob is written in full.
 */
module Blobs {
  import opened Wrappers
  import opened Bytes
  import opened Consts
  import opened Layout
  import opened Registry

  /** A byte of an image: written with a value, or never written. */
  type Cell = Option<byte>

  /** Every byte written. */
  function Defined(bs: seq<byte>): (r: seq<Cell>)
    ensures |r| == |bs|
  {
    seq(|bs|, i requires 0 <= i < |bs| => Some(bs[i]))
  }

  /** The bytes a buffer holds once an image is written over initial contents `init`. */
  function Realize(img: seq<Cell>, init: seq<byte>): (r: seq<byte>)
    requires |img| == |init|
    ensures |r| == |img|
    ensures forall k | 0 <= k < |img| :: img[k].Some? ==> r[k] == img[k].value
    ensures forall k | 0 <= k < |img| :: img[k].None? ==> r[k] == init[k]
  {
    seq(|img|, k requires 0 <= k < |img| => if img[k].Some? then img[k].value else init[k])
  }

  /** The number of speeds usbf_start counts: one per speed bit set. */
  function SpeedCount(flags: bv32): nat
  {
    (if flags & USBF_SPEED_FS != 0 then 1 else 0) +
    (if flags & USBF_SPEED_HS != 0 then 1 else 0) +
    (if flags & USBF_SPEED_SS != 0 then 1 else 0)
  }

  /** The speeds advertised, in ascending bit order. */
  function SpeedsOf(flags: bv32): seq<bv32>
  {
    (if flags & USBF_SPEED_FS != 0 then [USBF_SPEED_FS] else []) +
    (if flags & USBF_SPEED_HS != 0 then [USBF_SPEED_HS] else []) +
    (if flags & USBF_SPEED_SS != 0 then [USBF_SPEED_SS] else [])
  }

  predicate IsSpeed(s: bv32)
  {
    s == USBF_SPEED_FS || s == USBF_SPEED_HS || s == USBF_SPEED_SS
  }

  /** SpeedsOf has as many entries as usbf_start counts: between one and three for a valid mask. */
  lemma SpeedsOfLength(flags: bv32)
    ensures |SpeedsOf(flags)| == SpeedCount(flags)
    ensures ValidSpeed(flags) ==> 1 <= SpeedCount(flags) <= 3
  {
    var fs, hs, ss := flags & USBF_SPEED_FS != 0, flags & USBF_SPEED_HS != 0, flags & USBF_SPEED_SS != 0;
    if ValidSpeed(flags) {
      assert fs || hs || ss;
    }
  }

  /** Every listed speed is a speed bit that is set in the mask. */
  lemma SpeedsOfSet(flags: bv32)
    ensures forall i | 0 <= i < |SpeedsOf(flags)| ::
              IsSpeed(SpeedsOf(flags)[i]) && flags & SpeedsOf(flags)[i] != 0
  {
  }

  /** The speeds are listed in strictly ascending bit order. */
  lemma SpeedsOfAscending(flags: bv32)
    ensures forall i, j | 0 <= i < j < |SpeedsOf(flags)| :: SpeedsOf(flags)[i] < SpeedsOf(flags)[j]
  {
  }

  /** Every speed bit set in the mask is listed. */
  lemma SpeedsOfComplete(flags: bv32)
    ensures flags & USBF_SPEED_FS != 0 ==> USBF_SPEED_FS in SpeedsOf(flags)
    ensures flags & USBF_SPEED_HS != 0 ==> USBF_SPEED_HS in SpeedsOf(flags)
    ensures flags & USBF_SPEED_SS != 0 ==> USBF_SPEED_SS in SpeedsOf(flags)
  {
  }

  /** The values the speed cursor of usbf_start takes while it scans the mask. */
  predicate IsCursor(speed: bv32)
  {
    speed == 1 || speed == 2 || speed == 4 || speed == 8
  }

  /** How many advertised speeds lie below the cursor `speed`. */
  function SpeedsBelow(flags: bv32, speed: bv32): nat
  {
    (if flags & USBF_SPEED_FS != 0 && USBF_SPEED_FS < speed then 1 else 0) +
    (if flags & USBF_SPEED_HS != 0 && USBF_SPEED_HS < speed then 1 else 0) +
    (if flags & USBF_SPEED_SS != 0 && USBF_SPEED_SS < speed then 1 else 0)
  }

  /** Shifting the cursor past a bit that is not set skips no advertised speed. */
  lemma CursorSkip(flags: bv32, speed: bv32)
    requires ValidSpeed(flags) && IsCursor(speed) && speed != 8 && flags & speed == 0
    ensures IsCursor(speed << 1)
    ensures SpeedsBelow(flags, speed << 1) == SpeedsBelow(flags, speed)
  {
  }

  /**
   * A cursor on a set bit is the advertised speed whose index is the
   * number of speeds below it; shifting past it counts it.
   */
  lemma CursorHit(flags: bv32, speed: bv32)
    requires ValidSpeed(flags) && IsCursor(speed) && flags & speed != 0
    ensures IsSpeed(speed) && IsCursor(speed << 1)
    ensures SpeedsBelow(flags, speed) < |SpeedsOf(flags)|
    ensures SpeedsOf(flags)[SpeedsBelow(flags, speed)] == speed
    ensures SpeedsBelow(flags, speed << 1) == SpeedsBelow(flags, speed) + 1
  {
    ValidSpeedRange(flags);
    assert speed != 8;
  }

  /** While some advertised speed lies at or above the cursor, the cursor has not run off the mask. */
  lemma CursorBounded(flags: bv32, speed: bv32)
    requires ValidSpeed(flags) && IsCursor(speed) && SpeedsBelow(flags, speed) < SpeedCount(flags)
    ensures speed != 8
  {
  }

  /** wMaxPacketSize for the speed being emitted. */
  function MaxPacket(speed: bv32, c: EndpointConfig): uint16
  {
    if speed == USBF_SPEED_FS then c.fsMaxPacket
    else if speed == USBF_SPEED_HS then c.hsMaxPacket
    else c.ssMaxPacket
  }

  /** usb_functionfs_descs_head_v2: magic, length, flags. */
  function HeaderImage(length: uint32, flags: uint32): seq<Cell>
  {
    Defined(Le32(FUNCTIONFS_DESCRIPTORS_MAGIC_V2) + Le32(length) + Le32(flags))
  }

  /** `n` endpoint-count fields, each holding `value`. */
  function CountsImage(n: nat, value: uint32): seq<Cell>
  {
    if n == 0 then [] else Defined(Le32(value)) + CountsImage(n - 1, value)
  }

  /**
   * The interface descriptor: bLength, bDescriptorType, bInterfaceNumber,
   * bAlternateSetting, bNumEndpoints, bInterfaceClass, bInterfaceSubClass,
   * bInterfaceProtocol, iInterface. The library never writes the number,
   * the alternate setting, the subclass or the protocol.
   */
  function InterfaceImage(numEndpoints: byte, interfaceClass: byte): seq<Cell>
  {
    [Some(INTERFACE_DESC_SIZE), Some(USB_DT_INTERFACE), None, None,
     Some(numEndpoints), Some(interfaceClass), None, None, Some(1)]
  }

  /**
   * The endpoint descriptor: bLength, bDescriptorType, bEndpointAddress,
   * bmAttributes (the type, stored in 8 bits), wMaxPacketSize for the speed,
   * bInterval. bInterval is the full-speed interval at every speed.
   */
  function EndpointImage(speed: bv32, e: EpEntry): seq<Cell>
  {
    Defined([ENDPOINT_DESC_SIZE, USB_DT_ENDPOINT, e.address, e.config.epType % 0x100] +
            Le16(MaxPacket(speed, e.config)) + [e.config.fsInterval])
  }

  function EndpointsImage(speed: bv32, eps: seq<EpEntry>): seq<Cell>
  {
    if eps == [] then [] else EndpointImage(speed, eps[0]) + EndpointsImage(speed, eps[1..])
  }

  /** One speed block: the interface, then one descriptor per endpoint. */
  function BlockImage(speed: bv32, interfaceClass: byte, eps: seq<EpEntry>): seq<Cell>
    requires |eps| <= MAX_ENDPOINTS
  {
    InterfaceImage(|eps|, interfaceClass) + EndpointsImage(speed, eps)
  }

  /** The parts laid end to end. */
  function Flatten<T>(parts: seq<seq<T>>): seq<T>
  {
    if parts == [] then [] else parts[0] + Flatten(parts[1..])
  }

  /** One block per speed, in the order of `speeds`. */
  function BlocksImage(speeds: seq<bv32>, interfaceClass: byte, eps: seq<EpEntry>): seq<Cell>
    requires |eps| <= MAX_ENDPOINTS
  {
    Flatten(seq(|speeds|, k requires 0 <= k < |speeds| => BlockImage(speeds[k], interfaceClass, eps)))
  }

  /**
   * The whole descriptor blob: the header, one count field per speed
   * holding the number of descriptors of that speed (the interface and
   * its endpoints), then one block per speed.
   */
  function DescsImage(flags: bv32, interfaceClass: byte, eps: seq<EpEntry>): (r: seq<Cell>)
    requires ValidSpeed(flags) && |eps| <= MAX_ENDPOINTS
    ensures |r| == DescsLength(SpeedCount(flags), |eps|)
  {
    SpeedsOfLength(flags);
    DescsImageLength(flags as int, SpeedsOf(flags), interfaceClass, eps);
    DescsImageOf(flags as int, SpeedsOf(flags), interfaceClass, eps)
  }

  /** The descriptor blob for a given list of speed blocks (at most three). */
  function DescsImageOf(flags: uint32, speeds: seq<bv32>, interfaceClass: byte, eps: seq<EpEntry>): seq<Cell>
    requires |speeds| <= 3 && |eps| <= MAX_ENDPOINTS
  {
    DescsLengthMonotone(|speeds|, |eps|);
    HeaderImage(DescsLength(|speeds|, |eps|), flags) +
    CountsImage(|speeds|, |eps| + 1) +
    BlocksImage(speeds, interfaceClass, eps)
  }

  /** A slice that lies in the left operand of a concatenation. */
  lemma SliceLeft<T>(a: seq<T>, b: seq<T>, off: nat, len: nat)
    requires off + len <= |a|
    ensures (a + b)[off .. off + len] == a[off .. off + len]
  {
  }

  /** A slice that lies in the right operand of a concatenation. */
  lemma SliceRight<T>(a: seq<T>, b: seq<T>, off: nat, len: nat)
    requires |a| <= off && off + len <= |a| + |b|
    ensures (a + b)[off .. off + len] == b[off - |a| .. off - |a| + len]
  {
  }

  lemma {:induction false} CountsImageLength(n: nat, value: uint32)
    ensures |CountsImage(n, value)| == COUNT_SIZE * n
  {
    if n > 0 { CountsImageLength(n - 1, value); }
  }

  lemma {:induction false} CountsImageAt(n: nat, value: uint32, i: nat)
    requires i < n
    ensures |CountsImage(n, value)| == COUNT_SIZE * n
    ensures CountsImage(n, value)[COUNT_SIZE * i .. COUNT_SIZE * i + COUNT_SIZE] == Defined(Le32(value))
  {
    var head, rest := Defined(Le32(value)), CountsImage(n - 1, value);
    assert CountsImage(n, value) == head + rest;
    if i == 0 {
      if n > 1 { CountsImageAt(n - 1, value, 0); }
      SliceLeft(head, rest, 0, COUNT_SIZE);
    } else {
      CountsImageAt(n - 1, value, i - 1);
      SliceRight(head, rest, COUNT_SIZE * i, COUNT_SIZE);
    }
  }

  lemma {:induction false} EndpointsImageLength(speed: bv32, eps: seq<EpEntry>)
    ensures |EndpointsImage(speed, eps)| == ENDPOINT_DESC_SIZE * |eps|
  {
    if eps != [] { EndpointsImageLength(speed, eps[1..]); }
  }

  lemma {:induction false} EndpointsImageAt(speed: bv32, eps: seq<EpEntry>, j: nat)
    requires j < |eps|
    ensures |EndpointsImage(speed, eps)| == ENDPOINT_DESC_SIZE * |eps|
    ensures EndpointsImage(speed, eps)[ENDPOINT_DESC_SIZE * j .. ENDPOINT_DESC_SIZE * j + ENDPOINT_DESC_SIZE]
         == EndpointImage(speed, eps[j])
  {
    EndpointsImageLength(speed, eps);
    var head, rest := EndpointImage(speed, eps[0]), EndpointsImage(speed, eps[1..]);
    assert EndpointsImage(speed, eps) == head + rest;
    if j == 0 {
      SliceLeft(head, rest, 0, ENDPOINT_DESC_SIZE);
    } else {
      EndpointsImageAt(speed, eps[1..], j - 1);
      SliceRight(head, rest, ENDPOINT_DESC_SIZE * j, ENDPOINT_DESC_SIZE);
    }
  }

  /** Block `i` of uniform blocks of size `b` whose first block is split off. */
  lemma UniformAt<T>(head: seq<T>, rest: seq<T>, b: nat, n: nat, i: nat, blk: seq<T>)
    requires |head| == b && |rest| == n * b && i <= n
    requires i == 0 ==> head == blk
    requires i > 0 ==> (i - 1) * b + b <= |rest| && rest[(i - 1) * b .. (i - 1) * b + b] == blk
    ensures |head + rest| == (n + 1) * b
    ensures i * b + b <= |head + rest|
    ensures (head + rest)[i * b .. i * b + b] == blk
  {
    assert (n + 1) * b == n * b + b;
    if i == 0 {
      SliceLeft(head, rest, 0, b);
    } else {
      assert i * b == (i - 1) * b + b;
      SliceRight(head, rest, i * b, b);
    }
  }

  /** Every part has length `b`. */
  ghost predicate Uniform<T>(parts: seq<seq<T>>, b: nat)
  {
    forall k | 0 <= k < |parts| :: |parts[k]| == b
  }

  lemma {:induction false} FlattenLength<T>(parts: seq<seq<T>>, b: nat)
    requires Uniform(parts, b)
    ensures |Flatten(parts)| == |parts| * b
  {
    if parts != [] {
      assert Uniform(parts[1..], b) by {
        forall k | 0 <= k < |parts| - 1 ensures |parts[1..][k]| == b { assert parts[1..][k] == parts[k + 1]; }
      }
      FlattenLength(parts[1..], b);
      assert |parts| * b == (|parts| - 1) * b + b;
    }
  }

  /** Part `i` of uniform parts of length `b` starts at i * b. */
  lemma {:induction false} FlattenAt<T>(parts: seq<seq<T>>, b: nat, i: nat)
    requires Uniform(parts, b) && i < |parts|
    ensures |Flatten(parts)| == |parts| * b
    ensures i * b + b <= |Flatten(parts)|
    ensures Flatten(parts)[i * b .. i * b + b] == parts[i]
  {
    assert Uniform(parts[1..], b) by {
      forall k | 0 <= k < |parts| - 1 ensures |parts[1..][k]| == b { assert parts[1..][k] == parts[k + 1]; }
    }
    FlattenLength(parts, b);
    FlattenLength(parts[1..], b);
    if i > 0 {
      FlattenAt(parts[1..], b, i - 1);
    }
    UniformAt(parts[0], Flatten(parts[1..]), b, |parts| - 1, i, parts[i]);
  }

  lemma BlockImageLength(speed: bv32, interfaceClass: byte, eps: seq<EpEntry>)
    requires |eps| <= MAX_ENDPOINTS
    ensures |BlockImage(speed, interfaceClass, eps)| == BlockSize(|eps|)
  {
    EndpointsImageLength(speed, eps);
  }

  /** The speed blocks as a sequence of parts, each one block long. */
  lemma BlockParts(speeds: seq<bv32>, interfaceClass: byte, eps: seq<EpEntry>) returns (parts: seq<seq<Cell>>)
    requires |eps| <= MAX_ENDPOINTS
    ensures BlocksImage(speeds, interfaceClass, eps) == Flatten(parts)
    ensures |parts| == |speeds| && Uniform(parts, BlockSize(|eps|))
    ensures forall k | 0 <= k < |speeds| :: parts[k] == BlockImage(speeds[k], interfaceClass, eps)
  {
    parts := seq(|speeds|, k requires 0 <= k < |speeds| => BlockImage(speeds[k], interfaceClass, eps));
    forall k | 0 <= k < |speeds|
      ensures |parts[k]| == BlockSize(|eps|)
    {
      BlockImageLength(speeds[k], interfaceClass, eps);
    }
  }

  lemma BlocksImageLength(speeds: seq<bv32>, interfaceClass: byte, eps: seq<EpEntry>)
    requires |eps| <= MAX_ENDPOINTS
    ensures |BlocksImage(speeds, interfaceClass, eps)| == |speeds| * BlockSize(|eps|)
  {
    var parts := BlockParts(speeds, interfaceClass, eps);
    FlattenLength(parts, BlockSize(|eps|));
  }

  lemma BlocksImageAt(speeds: seq<bv32>, interfaceClass: byte, eps: seq<EpEntry>, i: nat)
    requires |eps| <= MAX_ENDPOINTS && i < |speeds|
    ensures i * BlockSize(|eps|) + BlockSize(|eps|) <= |BlocksImage(speeds, interfaceClass, eps)|
    ensures BlocksImage(speeds, interfaceClass, eps)[i * BlockSize(|eps|) .. i * BlockSize(|eps|) + BlockSize(|eps|)]
         == BlockImage(speeds[i], interfaceClass, eps)
  {
    var parts := BlockParts(speeds, interfaceClass, eps);
    FlattenAt(parts, BlockSize(|eps|), i);
  }

  /** The image has exactly the length the allocator computes, which fits the 32-bit length field. */
  lemma DescsImageLength(flags: uint32, speeds: seq<bv32>, interfaceClass: byte, eps: seq<EpEntry>)
    requires |speeds| <= 3 && |eps| <= MAX_ENDPOINTS
    ensures |DescsImageOf(flags, speeds, interfaceClass, eps)| == DescsLength(|speeds|, |eps|)
    ensures DescsLength(|speeds|, |eps|) <= DescsLength(3, MAX_ENDPOINTS)
  {
    CountsImageLength(|speeds|, |eps| + 1);
    BlocksImageLength(speeds, interfaceClass, eps);
    DescsLengthSplit(|speeds|, |eps|);
    DescsLengthMonotone(|speeds|, |eps|);
  }

  /** The image split into header, count fields and speed blocks. */
  lemma DescsImageSplit(flags: uint32, speeds: seq<bv32>, interfaceClass: byte, eps: seq<EpEntry>)
    returns (head: seq<Cell>, counts: seq<Cell>, blocks: seq<Cell>)
    requires |speeds| <= 3 && |eps| <= MAX_ENDPOINTS
    ensures DescsLength(|speeds|, |eps|) < 0x1_0000_0000
    ensures head == HeaderImage(DescsLength(|speeds|, |eps|), flags)
    ensures counts == CountsImage(|speeds|, |eps| + 1)
    ensures blocks == BlocksImage(speeds, interfaceClass, eps)
    ensures |head| == DESCS_HEAD_V2_SIZE && |counts| == |speeds| * COUNT_SIZE
    ensures |head| + |counts| + |blocks| == DescsLength(|speeds|, |eps|)
    ensures DescsImageOf(flags, speeds, interfaceClass, eps) == head + counts + blocks
  {
    DescsLengthMonotone(|speeds|, |eps|);
    DescsLengthSplit(|speeds|, |eps|);
    CountsImageLength(|speeds|, |eps| + 1);
    BlocksImageLength(speeds, interfaceClass, eps);
    head := HeaderImage(DescsLength(|speeds|, |eps|), flags);
    counts := CountsImage(|speeds|, |eps| + 1);
    blocks := BlocksImage(speeds, interfaceClass, eps);
  }

  /** The first of three concatenated parts. */
  lemma SliceFirst<T>(a: seq<T>, b: seq<T>, c: seq<T>)
    ensures (a + b + c)[..|a|] == a
  {
    assert a + b + c == a + (b + c);
  }

  /** A slice that lies inside the middle of three concatenated parts. */
  lemma SliceMiddle<T>(a: seq<T>, b: seq<T>, c: seq<T>, off: nat, len: nat, part: seq<T>)
    requires |a| <= off && off + len <= |a| + |b|
    requires b[off - |a| .. off - |a| + len] == part
    ensures (a + b + c)[off .. off + len] == part
  {
    SliceLeft(a + b, c, off, len);
    SliceRight(a, b, off, len);
  }

  /** The header region holds magic V2, the blob's own length and the speed flags. */
  lemma DescsImageHeader(flags: uint32, speeds: seq<bv32>, interfaceClass: byte, eps: seq<EpEntry>)
    requires |speeds| <= 3 && |eps| <= MAX_ENDPOINTS
    ensures |DescsImageOf(flags, speeds, interfaceClass, eps)| == DescsLength(|speeds|, |eps|)
    ensures DescsLength(|speeds|, |eps|) < 0x1_0000_0000
    ensures DescsImageOf(flags, speeds, interfaceClass, eps)[..DESCS_HEAD_V2_SIZE] ==
      Defined(Le32(FUNCTIONFS_DESCRIPTORS_MAGIC_V2) + Le32(DescsLength(|speeds|, |eps|)) + Le32(flags))
  {
    var head, counts, blocks := DescsImageSplit(flags, speeds, interfaceClass, eps);
    SliceFirst(head, counts, blocks);
  }

  /** Count field `i` (at CountOffset(i)) holds the number of endpoints plus one. */
  lemma DescsImageCount(flags: uint32, speeds: seq<bv32>, interfaceClass: byte, eps: seq<EpEntry>, i: nat)
    requires |speeds| <= 3 && |eps| <= MAX_ENDPOINTS && i < |speeds|
    ensures CountOffset(i) + COUNT_SIZE <= |DescsImageOf(flags, speeds, interfaceClass, eps)|
    ensures DescsImageOf(flags, speeds, interfaceClass, eps)[CountOffset(i) .. CountOffset(i) + COUNT_SIZE]
         == Defined(Le32(|eps| + 1))
  {
    var head, counts, blocks := DescsImageSplit(flags, speeds, interfaceClass, eps);
    CountsImageAt(|speeds|, |eps| + 1, i);
    SliceMiddle(head, counts, blocks, CountOffset(i), COUNT_SIZE, Defined(Le32(|eps| + 1)));
  }

  /** Block `i` of the blocks that follow a prefix of length `p`, starting at `off`. */
  lemma PrefixBlock<T>(prefix: seq<T>, blocks: seq<T>, p: nat, b: nat, i: nat, off: nat, blk: seq<T>)
    requires |prefix| == p && off == p + i * b
    requires i * b + b <= |blocks| && blocks[i * b .. i * b + b] == blk
    ensures off + b <= |prefix + blocks|
    ensures (prefix + blocks)[off .. off + b] == blk
  {
    SliceRight(prefix, blocks, off, b);
  }

  /** The block of speed `i` sits at InterfaceOffset(i) and is that speed's BlockImage. */
  lemma DescsImageBlock(flags: uint32, speeds: seq<bv32>, interfaceClass: byte, eps: seq<EpEntry>, i: nat)
    requires |speeds| <= 3 && |eps| <= MAX_ENDPOINTS && i < |speeds|
    ensures InterfaceOffset(|speeds|, |eps|, i) + BlockSize(|eps|) <= |DescsImageOf(flags, speeds, interfaceClass, eps)|
    ensures DescsImageOf(flags, speeds, interfaceClass, eps)
              [InterfaceOffset(|speeds|, |eps|, i) .. InterfaceOffset(|speeds|, |eps|, i) + BlockSize(|eps|)]
         == BlockImage(speeds[i], interfaceClass, eps)
  {
    var head, counts, blocks := DescsImageSplit(flags, speeds, interfaceClass, eps);
    BlocksImageAt(speeds, interfaceClass, eps, i);
    InterfaceOffsetIsBlockStart(|speeds|, |eps|, i);
    PrefixBlock(head + counts, blocks, DESCS_HEAD_V2_SIZE + |speeds| * COUNT_SIZE, BlockSize(|eps|), i,
                InterfaceOffset(|speeds|, |eps|, i), BlockImage(speeds[i], interfaceClass, eps));
  }

  /** A slice of a slice is a slice. */
  lemma SliceOfSlice<T>(s: seq<T>, a: nat, len: nat, b: nat, len2: nat)
    requires a + len <= |s| && b + len2 <= len
    ensures s[a .. a + len][b .. b + len2] == s[a + b .. a + b + len2]
  {
    var lhs, rhs := s[a .. a + len][b .. b + len2], s[a + b .. a + b + len2];
    assert |lhs| == |rhs|;
    forall k | 0 <= k < len2
      ensures lhs[k] == rhs[k]
    {
    }
  }
  /** Part of a region whose contents are known. */
  lemma SubSlice<T>(s: seq<T>, off: nat, len: nat, whole: seq<T>, inner: nat, len2: nat, part: seq<T>)
    requires off + len <= |s| && s[off .. off + len] == whole
    requires inner + len2 <= len && whole[inner .. inner + len2] == part
    ensures off + inner + len2 <= |s|
    ensures s[off + inner .. off + inner + len2] == part
  {
    SliceOfSlice(s, off, len, inner, len2);
  }
  /** A speed block starts with its interface descriptor. */
  lemma BlockImageInterface(speed: bv32, interfaceClass: byte, eps: seq<EpEntry>)
    requires |eps| <= MAX_ENDPOINTS
    ensures |BlockImage(speed, interfaceClass, eps)| == BlockSize(|eps|)
    ensures BlockImage(speed, interfaceClass, eps)[0 .. INTERFACE_DESC_SIZE] == InterfaceImage(|eps|, interfaceClass)
  {
    EndpointsImageLength(speed, eps);
    SliceLeft(InterfaceImage(|eps|, interfaceClass), EndpointsImage(speed, eps), 0, INTERFACE_DESC_SIZE);
  }
  /** Inside a speed block, endpoint `j` follows the interface and the `j` endpoints before it. */
  lemma BlockImageEndpoint(speed: bv32, interfaceClass: byte, eps: seq<EpEntry>, j: nat)
    requires |eps| <= MAX_ENDPOINTS && j < |eps|
    ensures |BlockImage(speed, interfaceClass, eps)| == BlockSize(|eps|)
    ensures BlockImage(speed, interfaceClass, eps)
              [INTERFACE_DESC_SIZE + ENDPOINT_DESC_SIZE * j .. INTERFACE_DESC_SIZE + ENDPOINT_DESC_SIZE * j + ENDPOINT_DESC_SIZE]
         == EndpointImage(speed, eps[j])
  {
    EndpointsImageAt(speed, eps, j);
    SliceRight(InterfaceImage(|eps|, interfaceClass), EndpointsImage(speed, eps),
               INTERFACE_DESC_SIZE + ENDPOINT_DESC_SIZE * j, ENDPOINT_DESC_SIZE);
  }
  /** Endpoint `j` of a speed block placed at `off`. */
  lemma PlacedBlockEndpoint(img: seq<Cell>, off: nat, speed: bv32, interfaceClass: byte, eps: seq<EpEntry>, j: nat)
    requires |eps| <= MAX_ENDPOINTS && j < |eps| && off + BlockSize(|eps|) <= |img|
    requires img[off .. off + BlockSize(|eps|)] == BlockImage(speed, interfaceClass, eps)
    ensures off + INTERFACE_DESC_SIZE + ENDPOINT_DESC_SIZE * j + ENDPOINT_DESC_SIZE <= |img|
    ensures img[off + INTERFACE_DESC_SIZE + ENDPOINT_DESC_SIZE * j .. off + INTERFACE_DESC_SIZE + ENDPOINT_DESC_SIZE * j + ENDPOINT_DESC_SIZE]
         == EndpointImage(speed, eps[j])
  {
    BlockImageEndpoint(speed, interfaceClass, eps, j);
    SubSlice(img, off, BlockSize(|eps|), BlockImage(speed, interfaceClass, eps),
             INTERFACE_DESC_SIZE + ENDPOINT_DESC_SIZE * j, ENDPOINT_DESC_SIZE, EndpointImage(speed, eps[j]));
  }
  /** The interface region of speed `i` holds the interface descriptor. */
  lemma DescsImageInterface(flags: uint32, speeds: seq<bv32>, interfaceClass: byte, eps: seq<EpEntry>, i: nat)
    requires |speeds| <= 3 && |eps| <= MAX_ENDPOINTS && i < |speeds|
    ensures InterfaceOffset(|speeds|, |eps|, i) + INTERFACE_DESC_SIZE <= |DescsImageOf(flags, speeds, interfaceClass, eps)|
    ensures DescsImageOf(flags, speeds, interfaceClass, eps)
              [InterfaceOffset(|speeds|, |eps|, i) .. InterfaceOffset(|speeds|, |eps|, i) + INTERFACE_DESC_SIZE]
         == InterfaceImage(|eps|, interfaceClass)
  {
    DescsImageBlock(flags, speeds, interfaceClass, eps, i);
    BlockImageInterface(speeds[i], interfaceClass, eps);
    SubSlice(DescsImageOf(flags, speeds, interfaceClass, eps), InterfaceOffset(|speeds|, |eps|, i), BlockSize(|eps|),
             BlockImage(speeds[i], interfaceClass, eps), 0, INTERFACE_DESC_SIZE, InterfaceImage(|eps|, interfaceClass));
  }

  /** The endpoint region (i, j) holds endpoint j's descriptor for speed block i. */
  lemma DescsImageEndpoint(flags: uint32, speeds: seq<bv32>, interfaceClass: byte, eps: seq<EpEntry>, i: nat, j: nat)
    requires |speeds| <= 3 && |eps| <= MAX_ENDPOINTS && i < |speeds| && j < |eps|
    ensures EndpointOffset(|speeds|, |eps|, i, j) + ENDPOINT_DESC_SIZE <= |DescsImageOf(flags, speeds, interfaceClass, eps)|
    ensures DescsImageOf(flags, speeds, interfaceClass, eps)
              [EndpointOffset(|speeds|, |eps|, i, j) .. EndpointOffset(|speeds|, |eps|, i, j) + ENDPOINT_DESC_SIZE]
         == EndpointImage(speeds[i], eps[j])
  {
    DescsImageBlock(flags, speeds, interfaceClass, eps, i);
    EndpointOffsetInBlock(|speeds|, |eps|, i, j);
    PlacedBlockEndpoint(DescsImageOf(flags, speeds, interfaceClass, eps), InterfaceOffset(|speeds|, |eps|, i),
                        speeds[i], interfaceClass, eps, j);
  }

  /** Realizing commutes with slicing. */
  lemma RealizeSlice(img: seq<Cell>, init: seq<byte>, off: nat, len: nat)
    requires |img| == |init| && off + len <= |img|
    ensures Realize(img, init)[off .. off + len] == Realize(img[off .. off + len], init[off .. off + len])
  {
  }

  /** A fully written image realizes to its bytes, whatever the initial contents. */
  lemma RealizeDefined(bs: seq<byte>, init: seq<byte>)
    requires |bs| == |init|
    ensures Realize(Defined(bs), init) == bs
  {
    var r := Realize(Defined(bs), init);
    forall k | 0 <= k < |bs|
      ensures r[k] == bs[k]
    {
      assert Defined(bs)[k] == Some(bs[k]);
    }
  }

  /**
   * Decoded as little-endian words, the header of every realization of
   * the image holds magic V2, the blob's own length and the speed flags.
   */
  lemma DescsBlobHeader(flags: bv32, interfaceClass: byte, eps: seq<EpEntry>, init: seq<byte>)
    requires ValidSpeed(flags) && |eps| <= MAX_ENDPOINTS
    requires |init| == |DescsImage(flags, interfaceClass, eps)|
    ensures DecodeLe32(Realize(DescsImage(flags, interfaceClass, eps), init)[0 .. 4]) == FUNCTIONFS_DESCRIPTORS_MAGIC_V2
    ensures DecodeLe32(Realize(DescsImage(flags, interfaceClass, eps), init)[4 .. 8]) == |init|
    ensures DecodeLe32(Realize(DescsImage(flags, interfaceClass, eps), init)[8 .. 12]) == flags as int
  {
    SpeedsOfLength(flags);
    DescsImageHeader(flags as int, SpeedsOf(flags), interfaceClass, eps);
    var img := DescsImage(flags, interfaceClass, eps);
    var blob := Realize(img, init);
    var a, b, c := Le32(FUNCTIONFS_DESCRIPTORS_MAGIC_V2), Le32(DescsLength(SpeedCount(flags), |eps|)), Le32(flags as int);
    RealizeSlice(img, init, 0, DESCS_HEAD_V2_SIZE);
    RealizeDefined(a + b + c, init[..DESCS_HEAD_V2_SIZE]);
    assert blob[..DESCS_HEAD_V2_SIZE] == a + b + c;
    assert blob[0 .. 4] == a && blob[4 .. 8] == b && blob[8 .. 12] == c;
    Le32RoundTrip(FUNCTIONFS_DESCRIPTORS_MAGIC_V2);
    Le32RoundTrip(DescsLength(SpeedCount(flags), |eps|));
    Le32RoundTrip(flags as int);
  }

  /** Every count field reads back as the number of endpoints plus one. */
  lemma DescsBlobCount(flags: bv32, interfaceClass: byte, eps: seq<EpEntry>, init: seq<byte>, i: nat)
    requires ValidSpeed(flags) && |eps| <= MAX_ENDPOINTS && i < SpeedCount(flags)
    requires |init| == |DescsImage(flags, interfaceClass, eps)|
    ensures CountOffset(i) + COUNT_SIZE <= |init|
    ensures DecodeLe32(Realize(DescsImage(flags, interfaceClass, eps), init)[CountOffset(i) .. CountOffset(i) + COUNT_SIZE])
         == |eps| + 1
  {
    SpeedsOfLength(flags);
    DescsImageCount(flags as int, SpeedsOf(flags), interfaceClass, eps, i);
    var img := DescsImage(flags, interfaceClass, eps);
    RealizeSlice(img, init, CountOffset(i), COUNT_SIZE);
    RealizeDefined(Le32(|eps| + 1), init[CountOffset(i) .. CountOffset(i) + COUNT_SIZE]);
    Le32RoundTrip(|eps| + 1);
  }

  /**
   * The interface descriptor of speed `i` reads back with bLength 9, type
   * INTERFACE, one endpoint per registered endpoint, the function's class
   * and string index 1; its four unwritten bytes are whatever the buffer
   * held before.
   */
  lemma DescsBlobInterface(flags: bv32, interfaceClass: byte, eps: seq<EpEntry>, init: seq<byte>, i: nat)
    requires ValidSpeed(flags) && |eps| <= MAX_ENDPOINTS && i < SpeedCount(flags)
    requires |init| == |DescsImage(flags, interfaceClass, eps)|
    ensures InterfaceOffset(SpeedCount(flags), |eps|, i) + INTERFACE_DESC_SIZE <= |init|
    ensures var blob, off := Realize(DescsImage(flags, interfaceClass, eps), init), InterfaceOffset(SpeedCount(flags), |eps|, i);
      && blob[off] == INTERFACE_DESC_SIZE && blob[off + 1] == USB_DT_INTERFACE
      && blob[off + 4] == |eps| && blob[off + 5] == interfaceClass && blob[off + 8] == 1
      && blob[off + 2] == init[off + 2] && blob[off + 3] == init[off + 3]
      && blob[off + 6] == init[off + 6] && blob[off + 7] == init[off + 7]
  {
    SpeedsOfLength(flags);
    DescsImageInterface(flags as int, SpeedsOf(flags), interfaceClass, eps, i);
    InterfaceRegionFields(DescsImage(flags, interfaceClass, eps), init, InterfaceOffset(SpeedCount(flags), |eps|, i),
                          |eps|, interfaceClass);
  }

  /** An interface region of any image reads back field by field; the unwritten bytes keep `init`. */
  lemma InterfaceRegionFields(img: seq<Cell>, init: seq<byte>, off: nat, numEndpoints: byte, interfaceClass: byte)
    requires |img| == |init| && off + INTERFACE_DESC_SIZE <= |img|
    requires img[off .. off + INTERFACE_DESC_SIZE] == InterfaceImage(numEndpoints, interfaceClass)
    ensures var blob := Realize(img, init);
      && blob[off] == INTERFACE_DESC_SIZE && blob[off + 1] == USB_DT_INTERFACE
      && blob[off + 4] == numEndpoints && blob[off + 5] == interfaceClass && blob[off + 8] == 1
      && blob[off + 2] == init[off + 2] && blob[off + 3] == init[off + 3]
      && blob[off + 6] == init[off + 6] && blob[off + 7] == init[off + 7]
  {
    assert img[off] == img[off .. off + INTERFACE_DESC_SIZE][0];
    assert img[off + 1] == img[off .. off + INTERFACE_DESC_SIZE][1];
    assert img[off + 2] == img[off .. off + INTERFACE_DESC_SIZE][2];
    assert img[off + 3] == img[off .. off + INTERFACE_DESC_SIZE][3];
    assert img[off + 4] == img[off .. off + INTERFACE_DESC_SIZE][4];
    assert img[off + 5] == img[off .. off + INTERFACE_DESC_SIZE][5];
    assert img[off + 6] == img[off .. off + INTERFACE_DESC_SIZE][6];
    assert img[off + 7] == img[off .. off + INTERFACE_DESC_SIZE][7];
    assert img[off + 8] == img[off .. off + INTERFACE_DESC_SIZE][8];
  }

  /** An endpoint region of any image reads back field by field. */
  lemma EndpointRegionFields(img: seq<Cell>, init: seq<byte>, off: nat, speed: bv32, e: EpEntry)
    requires |img| == |init| && off + ENDPOINT_DESC_SIZE <= |img|
    requires img[off .. off + ENDPOINT_DESC_SIZE] == EndpointImage(speed, e)
    ensures var blob := Realize(img, init);
      && blob[off] == ENDPOINT_DESC_SIZE && blob[off + 1] == USB_DT_ENDPOINT
      && blob[off + 2] == e.address && blob[off + 3] == e.config.epType % 0x100
      && DecodeLe16(blob[off + 4 .. off + 6]) == MaxPacket(speed, e.config)
      && blob[off + 6] == e.config.fsInterval
  {
    var c := e.config;
    var bytes := [ENDPOINT_DESC_SIZE, USB_DT_ENDPOINT, e.address, c.epType % 0x100] +
                 Le16(MaxPacket(speed, c)) + [c.fsInterval];
    RealizeSlice(img, init, off, ENDPOINT_DESC_SIZE);
    RealizeDefined(bytes, init[off .. off + ENDPOINT_DESC_SIZE]);
    var blob := Realize(img, init);
    assert blob[off .. off + ENDPOINT_DESC_SIZE] == bytes;
    SliceOfSlice(blob, off, ENDPOINT_DESC_SIZE, 4, 2);
    assert blob[off + 4 .. off + 6] == bytes[4 .. 6];
    Le16RoundTrip(MaxPacket(speed, c));
  }

  /**
   * Endpoint descriptor `j` of speed `i` reads back with bLength 7, type
   * ENDPOINT, the endpoint's address, its type truncated to eight bits and
   * the packet size of that speed.
   */
  lemma DescsBlobEndpoint(flags: bv32, interfaceClass: byte, eps: seq<EpEntry>, init: seq<byte>, i: nat, j: nat)
    requires ValidSpeed(flags) && |eps| <= MAX_ENDPOINTS && i < SpeedCount(flags) && j < |eps|
    requires |init| == |DescsImage(flags, interfaceClass, eps)|
    ensures i < |SpeedsOf(flags)|
    ensures EndpointOffset(SpeedCount(flags), |eps|, i, j) + ENDPOINT_DESC_SIZE <= |init|
    ensures var blob, off := Realize(DescsImage(flags, interfaceClass, eps), init), EndpointOffset(SpeedCount(flags), |eps|, i, j);
      && blob[off] == ENDPOINT_DESC_SIZE && blob[off + 1] == USB_DT_ENDPOINT
      && blob[off + 2] == eps[j].address && blob[off + 3] == eps[j].config.epType % 0x100
      && DecodeLe16(blob[off + 4 .. off + 6]) == MaxPacket(SpeedsOf(flags)[i], eps[j].config)
  {
    SpeedsOfLength(flags);
    DescsImageEndpoint(flags as int, SpeedsOf(flags), interfaceClass, eps, i, j);
    EndpointRegionFields(DescsImage(flags, interfaceClass, eps), init, EndpointOffset(SpeedCount(flags), |eps|, i, j),
                         SpeedsOf(flags)[i], eps[j]);
  }

  /**
   * bInterval is the full-speed interval in every speed block: the
   * high-speed and SuperSpeed intervals of the configuration are never
   * used.
   */
  lemma IntervalIsFullSpeed(flags: bv32, interfaceClass: byte, eps: seq<EpEntry>, init: seq<byte>, i: nat, j: nat)
    requires ValidSpeed(flags) && |eps| <= MAX_ENDPOINTS && i < SpeedCount(flags) && j < |eps|
    requires |init| == |DescsImage(flags, interfaceClass, eps)|
    ensures EndpointOffset(SpeedCount(flags), |eps|, i, j) + ENDPOINT_DESC_SIZE <= |init|
    ensures Realize(DescsImage(flags, interfaceClass, eps), init)[EndpointOffset(SpeedCount(flags), |eps|, i, j) + 6]
         == eps[j].config.fsInterval
  {
    SpeedsOfLength(flags);
    DescsImageEndpoint(flags as int, SpeedsOf(flags), interfaceClass, eps, i, j);
    EndpointRegionFields(DescsImage(flags, interfaceClass, eps), init, EndpointOffset(SpeedCount(flags), |eps|, i, j),
                         SpeedsOf(flags)[i], eps[j]);
  }

  /** What the strings header records as the blob length: size_t stored into a 32-bit field. */
  function StringsLengthField(strLength: nat): (v: uint32)
    ensures StringsLength(strLength) < 0x1_0000_0000 ==> v == StringsLength(strLength)
  {
    StringsLength(strLength) % 0x1_0000_0000
  }

  /**
   * The strings blob: magic, length, one string, one language; the
   * language code; the string and its terminating NUL.
   */
  function StringsBlob(str: CString): seq<byte>
  {
    Le32(FUNCTIONFS_STRINGS_MAGIC) + Le32(StringsLengthField(|str|)) + Le32(1) + Le32(1) +
    Le16(LANG_US_ENGLISH) + str + [0]
  }

  /**
   * Reads back a strings blob holding one US-English string: the header
   * fields must be consistent, the language code is 0x0409, and the string
   * runs from StringOffset to a NUL that is the last byte.
   */
  function ParseStrings(blob: seq<byte>): (r: Option<CString>)
    ensures r.Some? ==> |blob| == StringsLength(|r.value|)
  {
    if |blob| < StringsLength(0) || |blob| >= 0x1_0000_0000 then None
    else if DecodeLe32(blob[0 .. 4]) != FUNCTIONFS_STRINGS_MAGIC || DecodeLe32(blob[4 .. 8]) != |blob| then None
    else if DecodeLe32(blob[8 .. 12]) != 1 || DecodeLe32(blob[12 .. 16]) != 1 then None
    else if DecodeLe16(blob[16 .. 18]) != LANG_US_ENGLISH || blob[|blob| - 1] != 0 then None
    else if exists k | StringOffset() <= k < |blob| - 1 :: blob[k] == 0 then None
    else Some(blob[StringOffset() .. |blob| - 1])
  }

  /** The strings blob is exactly as long as the allocator computes. */
  lemma StringsBlobLength(str: CString)
    ensures |StringsBlob(str)| == StringsLength(|str|)
    ensures StringsBlob(str)[StringsLength(|str|) - 1] == 0
  {
  }

  /** Parsing recovers the string of every blob whose length fits its 32-bit field. */
  lemma StringsRoundTrip(str: CString)
    requires StringsLength(|str|) < 0x1_0000_0000
    ensures ParseStrings(StringsBlob(str)) == Some(str)
  {
    var blob := StringsBlob(str);
    var len := StringsLength(|str|);
    var h0, h1, h2, h3, code := Le32(FUNCTIONFS_STRINGS_MAGIC), Le32(len), Le32(1), Le32(1), Le16(LANG_US_ENGLISH);
    assert blob == h0 + h1 + h2 + h3 + code + str + [0];
    assert blob[0 .. 4] == h0 && blob[4 .. 8] == h1 && blob[8 .. 12] == h2 && blob[12 .. 16] == h3;
    assert blob[16 .. 18] == code && blob[StringOffset() .. |blob| - 1] == str;
    Le32RoundTrip(FUNCTIONFS_STRINGS_MAGIC);
    Le32RoundTrip(len);
    Le32RoundTrip(1);
    Le16RoundTrip(LANG_US_ENGLISH);
    forall k | StringOffset() <= k < |blob| - 1
      ensures blob[k] != 0
    {
      assert blob[k] == str[k - StringOffset()];
    }
  }

  /** Conversely, every blob that parses is the strings blob of what it parses to. */
  lemma ParseStringsExact(blob: seq<byte>)
    requires ParseStrings(blob).Some?
    ensures StringsBlob(ParseStrings(blob).value) == blob
  {
    var str := ParseStrings(blob).value;
    var n := |blob|;
    Le32Canonical(blob[0 .. 4]);
    Le32Canonical(blob[4 .. 8]);
    Le32Canonical(blob[8 .. 12]);
    Le32Canonical(blob[12 .. 16]);
    Le16Canonical(blob[16 .. 18]);
    assert blob == blob[0 .. 4] + blob[4 .. 8] + blob[8 .. 12] + blob[12 .. 16] + blob[16 .. 18] +
                   blob[StringOffset() .. n - 1] + [blob[n - 1]];
  }
}
