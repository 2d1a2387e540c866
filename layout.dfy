/**
 * The byte layout of the FunctionFS descriptor blob and of the strings
 * blob: the length formulas of the two allocators and the offset helpers
 * that place every field. The lemmas show that the offsets tile the
 * allocated buffer exactly: each byte belongs to one region, and no region
 * runs past the end.
 */
module Layout {
  import opened Consts

  /** Size of one speed block: an interface followed by its endpoints. */
  function BlockSize(endpoints: nat): nat
  {
    INTERFACE_DESC_SIZE + endpoints * ENDPOINT_DESC_SIZE
  }

  /** Length the descriptor allocator computes. */
  function DescsLength(speeds: nat, endpoints: nat): nat
  {
    DESCS_HEAD_V2_SIZE + speeds *
      (INTERFACE_DESC_SIZE + endpoints * ENDPOINT_DESC_SIZE + COUNT_SIZE)
  }

  /** Offset of the endpoint-count field of speed `spdIdx`. */
  function CountOffset(spdIdx: nat): nat
  {
    DESCS_HEAD_V2_SIZE + spdIdx * COUNT_SIZE
  }

  /** Offset of the interface descriptor of speed `spdIdx`. */
  function InterfaceOffset(speeds: nat, endpoints: nat, spdIdx: nat): nat
  {
    DESCS_HEAD_V2_SIZE + speeds * COUNT_SIZE + spdIdx *
      (INTERFACE_DESC_SIZE + endpoints * ENDPOINT_DESC_SIZE)
  }

  /** Offset of endpoint descriptor `epIdx` of speed `spdIdx`. */
  function EndpointOffset(speeds: nat, endpoints: nat, spdIdx: nat, epIdx: nat): nat
  {
    DESCS_HEAD_V2_SIZE + speeds * COUNT_SIZE + spdIdx *
      (INTERFACE_DESC_SIZE + endpoints * ENDPOINT_DESC_SIZE) +
      INTERFACE_DESC_SIZE + ENDPOINT_DESC_SIZE * epIdx
  }

  /** Length the strings allocator computes for a string of `strLength` bytes. */
  function StringsLength(strLength: nat): nat
  {
    STRINGS_HEAD_SIZE + LANG_CODE_SIZE + strLength + 1
  }

  /** Offset of the language code in the strings blob. */
  function CodeOffset(): nat
  {
    STRINGS_HEAD_SIZE
  }

  /** Offset of the first string byte in the strings blob. */
  function StringOffset(): nat
  {
    LANG_CODE_SIZE + STRINGS_HEAD_SIZE
  }

  /** One field group of the descriptor blob. */
  datatype Region =
    | Header
    | Count(spd: nat)
    | Interface(spd: nat)
    | Endpoint(spd: nat, ep: nat)

  /** The region's indices are within the blob's speeds and endpoints. */
  predicate InLayout(speeds: nat, endpoints: nat, r: Region)
  {
    match r
    case Header => true
    case Count(i) => i < speeds
    case Interface(i) => i < speeds
    case Endpoint(i, j) => i < speeds && j < endpoints
  }

  function RegionStart(speeds: nat, endpoints: nat, r: Region): nat
  {
    match r
    case Header => 0
    case Count(i) => CountOffset(i)
    case Interface(i) => InterfaceOffset(speeds, endpoints, i)
    case Endpoint(i, j) => EndpointOffset(speeds, endpoints, i, j)
  }

  function RegionSize(r: Region): nat
  {
    match r
    case Header => DESCS_HEAD_V2_SIZE
    case Count(_) => COUNT_SIZE
    case Interface(_) => INTERFACE_DESC_SIZE
    case Endpoint(_, _) => ENDPOINT_DESC_SIZE
  }

  predicate Covers(speeds: nat, endpoints: nat, r: Region, k: int)
  {
    RegionStart(speeds, endpoints, r) <= k < RegionStart(speeds, endpoints, r) + RegionSize(r)
  }

  lemma {:induction false} MulMonotone(a: nat, b: nat, c: nat)
    requires a < b
    ensures a * c + c <= b * c
  {
    if a + 1 < b {
      MulMonotone(a, b - 1, c);
      assert (b - 1) * c + c == b * c;
    } else {
      assert b * c == a * c + c;
    }
  }

  /** The length formula is the header, the count fields and the speed blocks. */
  lemma DescsLengthSplit(speeds: nat, endpoints: nat)
    ensures DescsLength(speeds, endpoints) ==
      DESCS_HEAD_V2_SIZE + speeds * COUNT_SIZE + speeds * BlockSize(endpoints)
  {
    var s := BlockSize(endpoints);
    assert speeds * (s + COUNT_SIZE) == speeds * s + speeds * COUNT_SIZE;
  }

  /** The largest blob: three speeds with sixteen endpoints each. */
  lemma DescsLengthMonotone(speeds: nat, endpoints: nat)
    requires speeds <= 3 && endpoints <= MAX_ENDPOINTS
    ensures DescsLength(speeds, endpoints) <= DescsLength(3, MAX_ENDPOINTS)
  {
    var per := INTERFACE_DESC_SIZE + endpoints * ENDPOINT_DESC_SIZE + COUNT_SIZE;
    assert per <= INTERFACE_DESC_SIZE + MAX_ENDPOINTS * ENDPOINT_DESC_SIZE + COUNT_SIZE;
    assert speeds * per <= 3 * per;
  }

  /** Speed block `i` starts after the count fields and `i` whole blocks. */
  lemma InterfaceOffsetIsBlockStart(speeds: nat, endpoints: nat, spdIdx: nat)
    ensures InterfaceOffset(speeds, endpoints, spdIdx)
         == DESCS_HEAD_V2_SIZE + speeds * COUNT_SIZE + spdIdx * BlockSize(endpoints)
  {
  }

  /** Endpoint `j` of a block follows the block's interface and the endpoints before it. */
  lemma EndpointOffsetInBlock(speeds: nat, endpoints: nat, spdIdx: nat, epIdx: nat)
    ensures EndpointOffset(speeds, endpoints, spdIdx, epIdx)
         == InterfaceOffset(speeds, endpoints, spdIdx) + INTERFACE_DESC_SIZE + ENDPOINT_DESC_SIZE * epIdx
  {
  }

  /** The count fields end where the first interface begins. */
  lemma CountsEnd(speeds: nat, endpoints: nat)
    ensures CountOffset(speeds) == InterfaceOffset(speeds, endpoints, 0)
  {
  }

  /** Speed block `i` ends exactly where block `i + 1` begins. */
  lemma BlockEnd(speeds: nat, endpoints: nat, i: nat)
    ensures EndpointOffset(speeds, endpoints, i, endpoints) == InterfaceOffset(speeds, endpoints, i + 1)
  {
    assert (i + 1) * BlockSize(endpoints) == i * BlockSize(endpoints) + BlockSize(endpoints);
  }

  /** The blocks end exactly at the length the allocator computes. */
  lemma BlocksEnd(speeds: nat, endpoints: nat)
    ensures InterfaceOffset(speeds, endpoints, speeds) == DescsLength(speeds, endpoints)
  {
    DescsLengthSplit(speeds, endpoints);
  }

  /**
   * When at least one speed is advertised, the last descriptor of the last
   * speed (its last endpoint, or its interface when there are no endpoints)
   * ends at the computed length: nothing is left over at the end.
   */
  lemma LastDescriptorEndsBuffer(speeds: nat, endpoints: nat)
    requires speeds > 0
    ensures endpoints > 0 ==>
      EndpointOffset(speeds, endpoints, speeds - 1, endpoints - 1) + ENDPOINT_DESC_SIZE
        == DescsLength(speeds, endpoints)
    ensures endpoints == 0 ==>
      InterfaceOffset(speeds, endpoints, speeds - 1) + INTERFACE_DESC_SIZE
        == DescsLength(speeds, endpoints)
  {
    BlockEnd(speeds, endpoints, speeds - 1);
    BlocksEnd(speeds, endpoints);
  }

  /** The region of speed block `i` lies inside that block. */
  lemma InBlock(speeds: nat, endpoints: nat, r: Region, k: int)
    requires InLayout(speeds, endpoints, r) && (r.Interface? || r.Endpoint?)
    requires Covers(speeds, endpoints, r, k)
    ensures InterfaceOffset(speeds, endpoints, r.spd) <= k < InterfaceOffset(speeds, endpoints, r.spd + 1)
  {
    BlockEnd(speeds, endpoints, r.spd);
  }

  /** Every region of the layout lies inside the allocated buffer. */
  lemma WithinBuffer(speeds: nat, endpoints: nat, r: Region)
    requires InLayout(speeds, endpoints, r)
    ensures RegionStart(speeds, endpoints, r) + RegionSize(r) <= DescsLength(speeds, endpoints)
  {
    BlocksEnd(speeds, endpoints);
    CountsEnd(speeds, endpoints);
    if r.Interface? || r.Endpoint? {
      var i := r.spd;
      BlockEnd(speeds, endpoints, i);
      if i + 1 < speeds { MulMonotone(i + 1, speeds, BlockSize(endpoints)); }
      assert InterfaceOffset(speeds, endpoints, i + 1) <= InterfaceOffset(speeds, endpoints, speeds);
    }
  }

  /** Byte `t` of speed block `i` lies in the interface or in endpoint (t - 9) / 7 of that block. */
  lemma InBlockRegion(speeds: nat, endpoints: nat, k: nat, i: nat, t: nat)
    requires i < speeds && t < BlockSize(endpoints) && k == InterfaceOffset(speeds, endpoints, i) + t
    ensures t < INTERFACE_DESC_SIZE ==> Covers(speeds, endpoints, Interface(i), k)
    ensures t >= INTERFACE_DESC_SIZE ==>
      && (t - INTERFACE_DESC_SIZE) / ENDPOINT_DESC_SIZE < endpoints
      && Covers(speeds, endpoints, Endpoint(i, (t - INTERFACE_DESC_SIZE) / ENDPOINT_DESC_SIZE), k)
  {
    if t >= INTERFACE_DESC_SIZE {
      EndpointOffsetInBlock(speeds, endpoints, i, (t - INTERFACE_DESC_SIZE) / ENDPOINT_DESC_SIZE);
    }
  }

  /** Block `i + 1` starts one block size after block `i`. */
  lemma NextBlock(speeds: nat, endpoints: nat, i: nat)
    ensures InterfaceOffset(speeds, endpoints, i + 1) == InterfaceOffset(speeds, endpoints, i) + BlockSize(endpoints)
  {
    InterfaceOffsetIsBlockStart(speeds, endpoints, i);
    InterfaceOffsetIsBlockStart(speeds, endpoints, i + 1);
    assert (i + 1) * BlockSize(endpoints) == i * BlockSize(endpoints) + BlockSize(endpoints);
  }

  /** The region holding byte `k`, searched from speed block `i` on. */
  function LocateInBlocks(speeds: nat, endpoints: nat, k: nat, i: nat): (r: Region)
    requires i < speeds && InterfaceOffset(speeds, endpoints, i) <= k < DescsLength(speeds, endpoints)
    ensures InLayout(speeds, endpoints, r) && Covers(speeds, endpoints, r, k)
    decreases speeds - i
  {
    NextBlock(speeds, endpoints, i);
    if k < InterfaceOffset(speeds, endpoints, i + 1) then
      var t := k - InterfaceOffset(speeds, endpoints, i);
      InBlockRegion(speeds, endpoints, k, i, t);
      if t < INTERFACE_DESC_SIZE then Interface(i)
      else Endpoint(i, (t - INTERFACE_DESC_SIZE) / ENDPOINT_DESC_SIZE)
    else
      BlocksEnd(speeds, endpoints);
      LocateInBlocks(speeds, endpoints, k, i + 1)
  }

  /** The region that holds byte `k` of the descriptor blob. */
  function Locate(speeds: nat, endpoints: nat, k: nat): (r: Region)
    requires k < DescsLength(speeds, endpoints)
    ensures InLayout(speeds, endpoints, r) && Covers(speeds, endpoints, r, k)
  {
    if k < DESCS_HEAD_V2_SIZE then Header
    else if k < DESCS_HEAD_V2_SIZE + speeds * COUNT_SIZE then Count((k - DESCS_HEAD_V2_SIZE) / COUNT_SIZE)
    else
      CountsEnd(speeds, endpoints);
      LocateInBlocks(speeds, endpoints, k, 0)
  }

  /** Later speed blocks start no earlier. */
  lemma InterfaceOffsetMonotone(speeds: nat, endpoints: nat, a: nat, b: nat)
    requires a <= b
    ensures InterfaceOffset(speeds, endpoints, a) <= InterfaceOffset(speeds, endpoints, b)
  {
    InterfaceOffsetIsBlockStart(speeds, endpoints, a);
    InterfaceOffsetIsBlockStart(speeds, endpoints, b);
    if a < b { MulMonotone(a, b, BlockSize(endpoints)); }
  }

  /** Two speed blocks that share a byte are the same block. */
  lemma SameBlock(speeds: nat, endpoints: nat, i1: nat, i2: nat, k: int)
    requires InterfaceOffset(speeds, endpoints, i1) <= k < InterfaceOffset(speeds, endpoints, i1 + 1)
    requires InterfaceOffset(speeds, endpoints, i2) <= k < InterfaceOffset(speeds, endpoints, i2 + 1)
    ensures i1 == i2
  {
    if i1 < i2 {
      InterfaceOffsetMonotone(speeds, endpoints, i1 + 1, i2);
    } else if i2 < i1 {
      InterfaceOffsetMonotone(speeds, endpoints, i2 + 1, i1);
    }
  }

  /**
   * Regions of the layout never overlap: a byte covered by two regions of
   * the layout is covered by one region only. With Locate this makes the
   * regions an exact tiling of [0, DescsLength).
   */
  lemma Disjoint(speeds: nat, endpoints: nat, r1: Region, r2: Region, k: int)
    requires InLayout(speeds, endpoints, r1) && InLayout(speeds, endpoints, r2)
    requires Covers(speeds, endpoints, r1, k) && Covers(speeds, endpoints, r2, k)
    ensures r1 == r2
  {
    CountsEnd(speeds, endpoints);
    if (r1.Interface? || r1.Endpoint?) && (r2.Interface? || r2.Endpoint?) {
      InBlock(speeds, endpoints, r1, k);
      InBlock(speeds, endpoints, r2, k);
      SameBlock(speeds, endpoints, r1.spd, r2.spd, k);
      EndpointsInBlockDisjoint(speeds, endpoints, r1, r2, k);
    } else if r1.Interface? || r1.Endpoint? {
      InterfaceOffsetMonotone(speeds, endpoints, 0, r1.spd);
    } else if r2.Interface? || r2.Endpoint? {
      InterfaceOffsetMonotone(speeds, endpoints, 0, r2.spd);
    }
  }

  /** Inside one speed block the interface and the endpoints do not overlap. */
  lemma EndpointsInBlockDisjoint(speeds: nat, endpoints: nat, r1: Region, r2: Region, k: int)
    requires (r1.Interface? || r1.Endpoint?) && (r2.Interface? || r2.Endpoint?) && r1.spd == r2.spd
    requires Covers(speeds, endpoints, r1, k) && Covers(speeds, endpoints, r2, k)
    ensures r1 == r2
  {
    var base := InterfaceOffset(speeds, endpoints, r1.spd);
    if r1.Endpoint? { EndpointOffsetInBlock(speeds, endpoints, r1.spd, r1.ep); }
    if r2.Endpoint? { EndpointOffsetInBlock(speeds, endpoints, r2.spd, r2.ep); }
  }
}
