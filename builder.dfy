/**
 * The part of usbf_start that fills the two freshly allocated blobs: the
 * descriptor header, one count field per speed, then for each advertised
 * speed (found by shifting a one-bit cursor up the mask) the interface
 * descriptor and one endpoint descriptor per registered endpoint; then the
 * strings header, the language code and the string. Each method is proved
 * to leave in its buffer exactly the reference blob of the Blobs module.
 */
module Builder {
  import opened Bytes
  import opened Consts
  import opened Layout
  import opened Registry
  import opened Blobs
  import opened Buffers

  /** The three header stores: magic, flags, then the length. */
  method FillHeader(a: array<byte>, flags: uint32)
    requires DESCS_HEAD_V2_SIZE <= a.Length < 0x1_0000_0000
    modifies a
    ensures a[..DESCS_HEAD_V2_SIZE] == Le32(FUNCTIONFS_DESCRIPTORS_MAGIC_V2) + Le32(a.Length) + Le32(flags)
    ensures forall k | DESCS_HEAD_V2_SIZE <= k < a.Length :: a[k] == old(a[k])
  {
    StoreLe32(a, 0, FUNCTIONFS_DESCRIPTORS_MAGIC_V2);
    StoreLe32(a, 8, flags);
    StoreLe32(a, 4, a.Length);
    assert a[..DESCS_HEAD_V2_SIZE] == a[0 .. 4] + a[4 .. 8] + a[8 .. 12];
  }

  /** The count loop of usbf_start: every count field holds the number of endpoints plus one. */
  method FillCounts(a: array<byte>, n: nat, m: nat, ghost img: seq<Cell>, ghost init: seq<byte>,
                    ghost flags: uint32, ghost speeds: seq<bv32>, ghost interfaceClass: byte, ghost eps: seq<EpEntry>)
    requires n == |speeds| <= 3 && m == |eps| <= MAX_ENDPOINTS
    requires img == DescsImageOf(flags, speeds, interfaceClass, eps)
    requires FilledTo(a[..], img, init, DESCS_HEAD_V2_SIZE)
    modifies a
    ensures FilledTo(a[..], img, init, InterfaceOffset(n, m, 0))
  {
    var i := 0;
    while i < n
      invariant 0 <= i <= n
      invariant FilledTo(a[..], img, init, CountOffset(i))
    {
      DescsImageCount(flags, speeds, interfaceClass, eps, i);
      ghost var d0 := a[..];
      StoreLe32(a, CountOffset(i), m + 1);
      StepDefined(d0, a[..], img, init, CountOffset(i), Le32(m + 1));
      i := i + 1;
    }
    CountsEnd(n, m);
  }

  /** One speed block: the interface descriptor, then one endpoint descriptor per endpoint. */
  method FillBlock(a: array<byte>, n: nat, i: nat, speed: bv32, interfaceClass: byte, eps: seq<EpEntry>,
                   ghost img: seq<Cell>, ghost init: seq<byte>, ghost flags: uint32, ghost speeds: seq<bv32>)
    requires n == |speeds| <= 3 && |eps| <= MAX_ENDPOINTS && i < n && speeds[i] == speed && IsSpeed(speed)
    requires img == DescsImageOf(flags, speeds, interfaceClass, eps)
    requires FilledTo(a[..], img, init, InterfaceOffset(n, |eps|, i))
    modifies a
    ensures FilledTo(a[..], img, init, InterfaceOffset(n, |eps|, i + 1))
  {
    var m := |eps|;
    DescsImageInterface(flags, speeds, interfaceClass, eps, i);
    ghost var d0 := a[..];
    StoreInterface(a, InterfaceOffset(n, m, i), m, interfaceClass);
    StepRegion(d0, a[..], img, init, InterfaceOffset(n, m, i), InterfaceImage(m, interfaceClass));
    var j := 0;
    while j < m
      invariant 0 <= j <= m
      invariant FilledTo(a[..], img, init, EndpointOffset(n, m, i, j))
    {
      DescsImageEndpoint(flags, speeds, interfaceClass, eps, i, j);
      d0 := a[..];
      StoreEndpoint(a, EndpointOffset(n, m, i, j), speed, eps[j]);
      StepRegion(d0, a[..], img, init, EndpointOffset(n, m, i, j), EndpointImage(speed, eps[j]));
      j := j + 1;
    }
    BlockEnd(n, m, i);
  }

  /**
   * The inner loop of usbf_start that shifts the cursor up to the next set
   * bit: while a speed is still to come it stops, and it stops on the
   * speed with index `i`.
   */
  method NextSpeed(flags: bv32, speed: bv32, ghost i: nat) returns (s: bv32)
    requires ValidSpeed(flags) && IsCursor(speed) && SpeedsBelow(flags, speed) == i < SpeedCount(flags)
    ensures IsSpeed(s) && flags & s != 0 && IsCursor(s << 1)
    ensures i < |SpeedsOf(flags)| && SpeedsOf(flags)[i] == s
    ensures SpeedsBelow(flags, s << 1) == i + 1
  {
    s := speed;
    while s & flags == 0
      invariant IsCursor(s) && SpeedsBelow(flags, s) == i
      decreases 8 - s as int
    {
      CursorBounded(flags, s);
      CursorSkip(flags, s);
      s := s << 1;
    }
    CursorHit(flags, s);
  }

  /**
   * The descriptor blob of usbf_start (lines 120-167), written into a
   * buffer of the length __usbf_descs_alloc computes: afterwards the
   * buffer is the reference image realized over what it held before.
   * The speed cursor starts at 1 and is shifted past unset bits before
   * each block and once after it, so block i is the i-th set bit.
   */
  method FillDescs(a: array<byte>, flags: bv32, interfaceClass: byte, eps: seq<EpEntry>)
    requires ValidSpeed(flags) && |eps| <= MAX_ENDPOINTS
    requires a.Length == DescsLength(SpeedCount(flags), |eps|)
    modifies a
    ensures a[..] == Realize(DescsImage(flags, interfaceClass, eps), old(a[..]))
  {
    SpeedsOfLength(flags);
    var n, m := SpeedCount(flags), |eps|;
    ghost var init := a[..];
    ghost var speeds := SpeedsOf(flags);
    ghost var img := DescsImageOf(flags as int, speeds, interfaceClass, eps);
    DescsImageHeader(flags as int, speeds, interfaceClass, eps);
    FilledNone(a[..], img);

    ghost var d0 := a[..];
    FillHeader(a, flags as int);
    StepDefined(d0, a[..], img, init, 0,
                Le32(FUNCTIONFS_DESCRIPTORS_MAGIC_V2) + Le32(a.Length) + Le32(flags as int));
    FillCounts(a, n, m, img, init, flags as int, speeds, interfaceClass, eps);

    var speed: bv32 := 1;
    var i := 0;
    while i < n
      invariant 0 <= i <= n
      invariant IsCursor(speed) && SpeedsBelow(flags, speed) == i
      invariant FilledTo(a[..], img, init, InterfaceOffset(n, m, i))
    {
      speed := NextSpeed(flags, speed, i);
      FillBlock(a, n, i, speed, interfaceClass, eps, img, init, flags as int, speeds);
      speed := speed << 1;
      i := i + 1;
    }
    BlocksEnd(n, m);
    FilledAll(a[..], img, init);
  }

  /** A buffer whose header and language code match the strings blob's, followed by the string, is that blob. */
  lemma StringsBlobFields(d: seq<byte>, str: CString)
    requires |d| >= StringOffset()
    requires d[..StringOffset()] == Le32(FUNCTIONFS_STRINGS_MAGIC) + Le32(StringsLengthField(|str|)) +
                                     Le32(1) + Le32(1) + Le16(LANG_US_ENGLISH)
    requires d[StringOffset() ..] == str + [0]
    ensures d == StringsBlob(str)
  {
    assert d == d[..StringOffset()] + d[StringOffset() ..];
  }

  /**
   * The strings blob of usbf_start (lines 170-182): the header with the
   * buffer length stored unconverted, one string and one language, the
   * US English code, then the string. The result of the string copy is
   * ignored in the source; it cannot fail here because the buffer was
   * sized from the same string.
   */
  method FillStrings(s: StringsBuffer, str: CString)
    requires s.Allocated() && s.strLength == |str|
    modifies s.data
    ensures s.Allocated() && s.data[..] == StringsBlob(str)
  {
    var d := s.data;
    var h0, h1, h2, h3 := Le32(FUNCTIONFS_STRINGS_MAGIC), Le32(StringsLengthField(s.strLength)), Le32(1), Le32(1);
    StoreLe32(d, 0, FUNCTIONFS_STRINGS_MAGIC);
    assert d[..4] == h0;
    StoreLe32(d, 4, StringsLengthField(s.strLength));
    assert d[..8] == h0 + h1 by { assert d[..8] == d[..4] + d[4 .. 8]; }
    StoreLe32(d, 8, 1);
    assert d[..12] == h0 + h1 + h2 by { assert d[..12] == d[..8] + d[8 .. 12]; }
    StoreLe32(d, 12, 1);
    assert d[..16] == h0 + h1 + h2 + h3 by { assert d[..16] == d[..12] + d[12 .. 16]; }
    s.SetCode(LANG_US_ENGLISH);
    assert d[..18] == h0 + h1 + h2 + h3 + Le16(LANG_US_ENGLISH) by { assert d[..18] == d[..16] + d[16 .. 18]; }
    var _ := s.SetString(str);
    StringsBlobFields(d[..], str);
  }
}
