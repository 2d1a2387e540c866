/**
 * The library's two objects, struct usbf_endpoint and struct
 * usbf_function, and the operations that change them: creating a
 * function, registering endpoints, deleting, binding (usbf_start),
 * unbinding (usbf_stop) and draining events. Each operation is proved to
 * produce exactly the calls and results of the reference functions in
 * Bind and Events, and to leave the object in the state those describe.
 */
module Usbf {
  import opened Wrappers
  import opened Bytes
  import opened Consts
  import opened Layout
  import opened Registry
  import opened Dispatch
  import opened Blobs
  import opened Buffers
  import opened Builder
  import opened Bind
  import opened Events

  /** The C string the library copies a path into: the characters and a NUL. */
  predicate CopyFits(size: nat, path: string)
  {
    |path| + 1 <= size
  }

  /** The size usbf_create_function allocates for its copy of the path, as written: strlen(path). */
  function FfsPathAllocAsWritten(path: string): nat
  {
    |path|
  }

  /** As written, the copy of every path overruns its block by the terminating NUL. */
  lemma AsWrittenCopyOverflows(path: string)
    ensures !CopyFits(FfsPathAllocAsWritten(path), path)
    ensures FfsPathAllocAsWritten(path) == |path + ['\0']| - 1
  {
  }

  /** The size the copy needs: strlen(path) + 1. */
  function FfsPathAlloc(path: string): (n: nat)
    ensures CopyFits(n, path) && n == |path + ['\0']|
  {
    |path| + 1
  }

  /** strcpy: the characters and the NUL, into a block that has room for both. */
  method StrCopy(dst: array<char>, src: string)
    requires CopyFits(dst.Length, src)
    modifies dst
    ensures dst[..|src| + 1] == src + ['\0']
    ensures forall k | |src| + 1 <= k < dst.Length :: dst[k] == old(dst[k])
  {
    var i := 0;
    while i < |src|
      invariant 0 <= i <= |src|
      invariant forall k | 0 <= k < i :: dst[k] == src[k]
      invariant forall k | |src| + 1 <= k < dst.Length :: dst[k] == old(dst[k])
    {
      dst[i] := src[i];
      i := i + 1;
    }
    dst[i] := '\0';
    assert dst[..|src| + 1] == src + ['\0'] by {
      forall k | 0 <= k <= |src|
        ensures dst[..|src| + 1][k] == (src + ['\0'])[k]
      {
      }
    }
  }

  /** struct usbf_endpoint: the caller's descriptor, the assigned address, the endpoint file. */
  class Endpoint {
    const config: EndpointConfig
    const address: byte
    var epFile: int

    /** The endpoint file is not set until usbf_start opens it; the model starts it at -1. */
    constructor (config: EndpointConfig, address: byte)
      ensures this.config == config && this.address == address && epFile == -1
    {
      this.config := config;
      this.address := address;
      epFile := -1;
    }
  }

  /** The entries the descriptor builder reads from a list of endpoints. */
  function EntriesOf(eps: seq<Endpoint>): (r: seq<EpEntry>)
    ensures |r| == |eps|
    ensures forall i | 0 <= i < |eps| :: r[i] == EpEntry(eps[i].address, eps[i].config)
  {
    seq(|eps|, i requires 0 <= i < |eps| => EpEntry(eps[i].address, eps[i].config))
  }

  /** The endpoint files recorded in a list of endpoints. */
  function FilesOf(eps: seq<Endpoint>): (r: seq<int>)
    reads set e | e in eps
    ensures |r| == |eps|
    ensures forall i | 0 <= i < |eps| :: r[i] == eps[i].epFile
  {
    seq(|eps|, i requires 0 <= i < |eps| reads set e | e in eps => eps[i].epFile)
  }

  /** The blocks a function owns once it has `n` endpoints: the function, its path copy, one per endpoint. */
  function HeldBlocks(path: string, n: nat): (r: seq<Resource>)
    ensures |r| == n + 2
    ensures r[0] == Mem(FunctionBlock) && r[1] == Mem(FfsPathBlock(FfsPathAlloc(path)))
    ensures forall i | 0 <= i < n :: r[i + 2] == Mem(EndpointBlock(i))
  {
    [Mem(FunctionBlock), Mem(FfsPathBlock(FfsPathAlloc(path)))] + seq(n, i requires 0 <= i < n => Mem(EndpointBlock(i)))
  }

  /** The frees of usbf_delete_function: the endpoints in order, the path copy, the function. */
  function DeleteCalls(path: string, n: nat): (r: seq<SysCall>)
    ensures |r| == n + 2
  {
    seq(n, i requires 0 <= i < n => Free(EndpointBlock(i))) + [Free(FfsPathBlock(FfsPathAlloc(path))), Free(FunctionBlock)]
  }

  /** struct usbf_function. */
  class Function {
    const config: FunctionConfig
    const ffsPath: string
    /** The copy of the path usbf_create_function makes, with its NUL. */
    const pathCopy: array<char>
    const flags: bv32
    /** endpoints[0 .. ep_count]: the registered endpoints, in registration order. */
    var endpoints: seq<Endpoint>
    var ep0File: int

    ghost predicate Valid()
      reads this
    {
      && flags == config.speed && ValidSpeed(flags)
      && |endpoints| <= MAX_ENDPOINTS
      && Distinct(endpoints)
      && WellFormedTable(EntriesOf(endpoints))
    }

    /** The endpoint table as the descriptor builder reads it. */
    function Entries(): (r: seq<EpEntry>)
      reads this
    {
      EntriesOf(endpoints)
    }

    /** The endpoint files, in endpoint order. */
    function EpFiles(): (r: seq<int>)
      reads this, set e | e in endpoints
    {
      FilesOf(endpoints)
    }

    /** What the function holds on the heap. */
    function Held(): (r: seq<Resource>)
      reads this
    {
      HeldBlocks(ffsPath, |endpoints|)
    }

    constructor (config: FunctionConfig, path: string, pathCopy: array<char>)
      requires ValidSpeed(config.speed)
      ensures this.config == config && ffsPath == path && this.pathCopy == pathCopy
      ensures flags == config.speed && endpoints == [] && ep0File == -1
      ensures Valid()
    {
      this.config := config;
      ffsPath := path;
      this.pathCopy := pathCopy;
      flags := config.speed;
      endpoints := [];
      ep0File := -1;
    }

    /**
     * usbf_create_function: refuse a speed mask with a bit outside 0x07 or
     * none inside; allocate the function, then the path copy, freeing the
     * function when the second allocation fails; copy the path; no
     * endpoints yet. The path copy is sized strlen + 1 here (see
     * FfsPathAllocAsWritten for the size the source uses).
     */
    static method Create(config: FunctionConfig, path: string, funcOk: bool, pathOk: bool)
      returns (f: Function?, calls: seq<SysCall>)
      ensures !ValidSpeed(config.speed) ==> f == null && calls == []
      ensures ValidSpeed(config.speed) && !funcOk ==> f == null && calls == [Malloc(FunctionBlock, false)]
      ensures ValidSpeed(config.speed) && funcOk && !pathOk ==>
                f == null &&
                calls == [Malloc(FunctionBlock, true), Malloc(FfsPathBlock(FfsPathAlloc(path)), false), Free(FunctionBlock)]
      ensures ValidSpeed(config.speed) && funcOk && pathOk ==>
                && f != null && fresh(f) && fresh(f.pathCopy) && f.Valid()
                && f.config == config && f.ffsPath == path && f.flags == config.speed && f.endpoints == []
                && f.pathCopy.Length == FfsPathAlloc(path) && f.pathCopy[..|path| + 1] == path + ['\0']
                && calls == [Malloc(FunctionBlock, true), Malloc(FfsPathBlock(FfsPathAlloc(path)), true)]
      ensures f != null <==> ValidSpeed(config.speed) && funcOk && pathOk
      ensures f != null ==> AcquiredBy(calls) == f.Held() && ReleasedBy(calls) == []
      ensures f == null ==> Unwound(calls) && multiset(ReleasedBy(calls)) == multiset(AcquiredBy(calls))
    {
      if config.speed & !USBF_SPEED_MASK != 0 || config.speed & USBF_SPEED_MASK == 0 {
        return null, [];
      }
      calls := [Malloc(FunctionBlock, funcOk)];
      if !funcOk {
        Single(Malloc(FunctionBlock, false));
        return null, calls;
      }
      var size := FfsPathAlloc(path);
      calls := calls + [Malloc(FfsPathBlock(size), pathOk)];
      if !pathOk {
        calls := calls + [Free(FunctionBlock)];
        CreateUnwinds(size);
        return null, calls;
      }
      var copy := new char[size];
      StrCopy(copy, path);
      f := new Function(config, path, copy);
      Pair(Malloc(FunctionBlock, true), Malloc(FfsPathBlock(size), true));
      assert f.Held() == [Mem(FunctionBlock), Mem(FfsPathBlock(size))];
    }

    /**
     * usbf_add_endpoint: refuse a type other than isochronous, bulk or
     * interrupt, then a full table, then a failed allocation; otherwise
     * append the endpoint and give it the address (count | direction).
     */
    method AddEndpoint(epConfig: EndpointConfig, allocOk: bool) returns (ep: Endpoint?, calls: seq<SysCall>)
      requires Valid()
      modifies this
      ensures Valid()
      ensures ep0File == old(ep0File)
      ensures ep != null <==> ValidType(epConfig.epType) && |old(endpoints)| < MAX_ENDPOINTS && allocOk
      ensures ep == null ==> endpoints == old(endpoints)
      ensures ep != null ==>
                && fresh(ep) && endpoints == old(endpoints) + [ep] && ep.config == epConfig && ep.epFile == -1
                && ep.address == Address(|endpoints|, epConfig.direction)
      ensures calls == if ValidType(epConfig.epType) && |old(endpoints)| < MAX_ENDPOINTS
                       then [Malloc(EndpointBlock(|old(endpoints)|), allocOk)] else []
      ensures Held() == old(Held()) + AcquiredBy(calls) && ReleasedBy(calls) == []
    {
      if !(epConfig.epType == USBF_ISOCHRONOUS || epConfig.epType == USBF_BULK || epConfig.epType == USBF_INTERRUPT) {
        return null, [];
      }
      if |endpoints| >= MAX_ENDPOINTS {
        return null, [];
      }
      var slot := |endpoints|;
      calls := [Malloc(EndpointBlock(slot), allocOk)];
      Single(Malloc(EndpointBlock(slot), allocOk));
      if !allocOk {
        return null, calls;
      }
      var count := slot + 1;
      ep := new Endpoint(epConfig, Address(count, epConfig.direction));
      EntriesSnoc(endpoints, ep);
      DistinctSnoc(endpoints, ep);
      TableSnoc(EntriesOf(endpoints), EpEntry(ep.address, epConfig));
      HeldSnoc(ffsPath, slot);
      endpoints := endpoints + [ep];
    }

    /**
     * usbf_delete_function: free every endpoint, then the path copy, then
     * the function; together these are exactly the blocks the function
     * holds.
     */
    method Delete() returns (calls: seq<SysCall>)
      requires Valid()
      ensures calls == DeleteCalls(ffsPath, |endpoints|)
      ensures AcquiredBy(calls) == [] && multiset(ReleasedBy(calls)) == multiset(Held())
    {
      calls := [];
      var i := 0;
      while i < |endpoints|
        invariant 0 <= i <= |endpoints|
        invariant calls == seq(i, k requires 0 <= k < i => Free(EndpointBlock(k)))
      {
        calls := calls + [Free(EndpointBlock(i))];
        i := i + 1;
      }
      calls := calls + [Free(FfsPathBlock(FfsPathAlloc(ffsPath))), Free(FunctionBlock)];
      DeleteReleasesHeld(ffsPath, |endpoints|);
    }

    /**
     * The endpoint loop of usbf_start: open "ep1", "ep2", ... in order,
     * storing each descriptor in its endpoint, the failing one included;
     * on a failure, close the files opened before it, last first.
     */
    method OpenEndpointFiles(open: string -> int) returns (p: Phase)
      requires Valid()
      modifies set e | e in endpoints
      ensures p == EndpointPhase(open, ffsPath, |endpoints|)
      ensures EpFiles() == p.epFiles + old(EpFiles())[|p.epFiles|..]
    {
      var files, calls := OpenUntilFailure(open);
      if OpenFailed(files) {
        var n := |files| - 1;
        assert EpFiles()[..n] == files[..n];
        var closes := CloseEndpointFiles(n);
        p := Phase(files[n], calls + closes, files);
      } else {
        p := Phase(0, calls, files);
      }
    }

    /** The opening loop: endpoint files 1, 2, ... until one fails or all are open. */
    method OpenUntilFailure(open: string -> int) returns (files: seq<int>, calls: seq<SysCall>)
      requires Valid()
      modifies set e | e in endpoints
      ensures files == EpOpens(open, ffsPath, |endpoints|)
      ensures calls == OpenCalls(ffsPath, files)
      ensures EpFiles() == files + old(EpFiles())[|files|..]
    {
      var m := |endpoints|;
      ghost var initial := EpFiles();
      files := [];
      var i := 0;
      while i < m
        invariant 0 <= i <= m
        invariant files == OpensUpTo(open, ffsPath, i)
        invariant forall t | 0 <= t < i :: files[t] >= 0
        invariant EpFiles() == files + initial[i..]
      {
        var fd := OpenEndpointFile(i, open);
        OpensUpToSnoc(open, ffsPath, i);
        SetNext(files, initial[i..], fd);
        assert initial[i..][1..] == initial[i + 1..];
        files := files + [fd];
        if fd < 0 {
          OpensStopped(open, ffsPath, files, m);
          return files, OpenCalls(ffsPath, files);
        }
        i := i + 1;
      }
      OpensStopped(open, ffsPath, files, m);
      calls := OpenCalls(ffsPath, files);
    }

    /** One step of the endpoint loop: open endpoint file i + 1 and store the descriptor in endpoint i. */
    method OpenEndpointFile(i: nat, open: string -> int) returns (fd: int)
      requires Valid() && i < |endpoints|
      modifies endpoints[i]
      ensures fd == open(EpPath(ffsPath, i + 1))
      ensures EpFiles() == old(EpFiles())[i := fd]
    {
      fd := open(EpPath(ffsPath, i + 1));
      endpoints[i].epFile := fd;
      forall k | 0 <= k < |endpoints| && k != i
        ensures endpoints[k] != endpoints[i]
      {
        if k < i {
          assert endpoints[k] != endpoints[i];
        }
      }
    }

    /** The unwinding loop of usbf_start: close endpoint files n-1 down to 0. */
    method CloseEndpointFiles(n: nat) returns (closes: seq<SysCall>)
      requires n <= |endpoints|
      ensures closes == CloseCalls(Reverse(EpFiles()[..n]))
    {
      var j := n;
      closes := [];
      while j > 0
        invariant 0 <= j <= n && |closes| == n - j
        invariant forall t | 0 <= t < n - j :: closes[t] == Close(endpoints[n - 1 - t].epFile)
      {
        j := j - 1;
        closes := closes + [Close(endpoints[j].epFile)];
      }
    }

    /**
     * With the control file open: write the two blobs, then open the
     * endpoint files. The result is the first negative one, or what the
     * strings write returned.
     */
    method RunControl(env: Env, fd0: int, descs: seq<byte>, strings: seq<byte>) returns (p: Phase)
      requires Valid()
      modifies set e | e in endpoints
      ensures p == ControlPhase(env, ffsPath, fd0, descs, strings, |endpoints|)
      ensures EpFiles() == p.epFiles + old(EpFiles())[|p.epFiles|..]
    {
      var w1 := env.write(fd0, descs);
      if w1 < 0 {
        return Phase(w1, [Write(fd0, descs, w1)], []);
      }
      var w2 := env.write(fd0, strings);
      var writes := [Write(fd0, descs, w1), Write(fd0, strings, w2)];
      if w2 < 0 {
        return Phase(w2, writes, []);
      }
      var e := OpenEndpointFiles(env.open);
      p := Phase(if e.ret < 0 then e.ret else w2, writes + e.calls, e.epFiles);
    }

    /**
     * Open "ep0" and store the descriptor, whatever it is; run the
     * control phase; close "ep0" when that fails.
     */
    method OpenAndConfigure(env: Env, descs: seq<byte>, strings: seq<byte>) returns (o: Outcome)
      requires Valid()
      modifies this, set e | e in endpoints
      ensures endpoints == old(endpoints)
      ensures o == FilesPhase(env, ffsPath, descs, strings, |endpoints|)
      ensures o.ep0File.Some? && ep0File == o.ep0File.value
      ensures EpFiles() == o.epFiles + old(EpFiles())[|o.epFiles|..]
    {
      var path := EpPath(ffsPath, 0);
      var fd0 := env.open(path);
      ep0File := fd0;
      var open0 := [Open(path, fd0)];
      if fd0 < 0 {
        return Outcome(fd0, open0, Some(fd0), []);
      }
      var c := RunControl(env, fd0, descs, strings);
      if c.ret < 0 {
        return Outcome(c.ret, open0 + c.calls + [Close(fd0)], Some(fd0), c.epFiles);
      }
      o := Outcome(c.ret, open0 + c.calls, Some(fd0), c.epFiles);
    }

    /**
     * usbf_start: build the descriptor and strings blobs in freshly
     * allocated buffers, allocate the path buffer, open and configure the
     * files, and free the three buffers on every path out.
     */
    method Start(env: Env) returns (ret: int, calls: seq<SysCall>)
      requires Valid()
      modifies this, set e | e in endpoints
      ensures Valid() && endpoints == old(endpoints)
      ensures var o := StartSpec(env, ffsPath, DescsBlob(env, flags, config.interfaceClass, Entries()),
                                 StringsBlob(config.str), |endpoints|);
              && ret == o.ret && calls == o.calls
              && ep0File == (if o.ep0File.Some? then o.ep0File.value else old(ep0File))
              && EpFiles() == o.epFiles + old(EpFiles())[|o.epFiles|..]
    ensures ret >= 0 ==> EpFiles() == StartSpec(env, ffsPath, DescsBlob(env, flags, config.interfaceClass, Entries()),
                                                 StringsBlob(config.str), |endpoints|).epFiles
    {
      StringsBlobLength(config.str);
      var dBlock := DescsBlock(DescsLength(SpeedCount(flags), |endpoints|));
      var sBlock := StringsBlock(StringsLength(|config.str|));
      var pBlock := PathBlock(PathBufferSize(ffsPath));
      var r, descs := BuildDescs(env);
      if r != 0 {
        return r, [Malloc(dBlock, false)];
      }
      var strings;
      r, strings := BuildStrings(env);
      if r < 0 {
        return r, [Malloc(dBlock, true)] + [Malloc(sBlock, false)] + [Free(dBlock)];
      }
      if !env.pathAllocOk {
        return -ENOMEM, [Malloc(dBlock, true), Malloc(sBlock, true)] + [Malloc(pBlock, false)] + [Free(sBlock), Free(dBlock)];
      }
      var o := OpenAndConfigure(env, descs, strings);
      ret := o.ret;
      calls := [Malloc(dBlock, true), Malloc(sBlock, true), Malloc(pBlock, true)] + o.calls +
               [Free(pBlock), Free(sBlock), Free(dBlock)];
      if ret >= 0 {
        SuccessStoresAll(env, ffsPath, descs, strings, |endpoints|, old(EpFiles()));
      }
    }

    /**
     * The descriptor part of usbf_start: allocate the buffer for the
     * speeds and endpoints, then fill the header, the counts and one
     * interface with its endpoints per speed.
     */
    method BuildDescs(env: Env) returns (r: int, descs: seq<byte>)
      requires Valid()
      ensures r == (if env.descsAllocOk then 0 else -ENOMEM)
      ensures r == 0 ==> descs == DescsBlob(env, flags, config.interfaceClass, Entries())
    {
      var d := new DescsBuffer(SpeedCount(flags), |endpoints|);
      r := d.Alloc(env.descsAllocOk, env.junk);
      if r != 0 {
        return r, [];
      }
      FillDescs(d.data, flags, config.interfaceClass, EntriesOf(endpoints));
      descs := d.data[..];
    }

    /** The strings part of usbf_start: allocate the buffer for the one string and fill it. */
    method BuildStrings(env: Env) returns (r: int, strings: seq<byte>)
      ensures r == (if env.stringsAllocOk then 0 else -ENOMEM)
      ensures r == 0 ==> strings == StringsBlob(config.str)
    {
      var s := new StringsBuffer(|config.str|);
      r := s.Alloc(env.stringsAllocOk, env.junk);
      if r < 0 {
        return r, [];
      }
      FillStrings(s, config.str);
      strings := s.data[..];
    }

    /** usbf_stop: close every endpoint file in order, then the control file. */
    method Stop() returns (calls: seq<SysCall>)
      requires Valid()
      ensures calls == StopCalls(ep0File, EpFiles())
    {
      calls := [];
      var i := 0;
      while i < |endpoints|
        invariant 0 <= i <= |endpoints|
        invariant calls == CloseCalls(EpFiles()[..i])
      {
        calls := calls + [Close(endpoints[i].epFile)];
        i := i + 1;
        assert EpFiles()[..i][..i - 1] == EpFiles()[..i - 1];
        CloseCallsSnoc(EpFiles()[..i]);
      }
      assert EpFiles()[..i] == EpFiles();
      calls := calls + [Close(ep0File)];
    }

    /**
     * usbf_handle_events: serve rounds until one reports no input, fails,
     * or a handler returns nonzero; 0 when the queue is drained.
     */
    method HandleEvents(rounds: seq<Round>) returns (ret: int, steps: seq<Step>)
      ensures Drained(ret, steps) == Drain(rounds, ep0File, config.eventHandler, config.setupHandler)
    {
      var eh, sh := config.eventHandler, config.setupHandler;
      steps := [];
      var i := 0;
      while i < |rounds|
        invariant 0 <= i <= |rounds|
        invariant Drain(rounds, ep0File, eh, sh) ==
                  Drained(Drain(rounds[i..], ep0File, eh, sh).ret, steps + Drain(rounds[i..], ep0File, eh, sh).steps)
      {
        var p := HandleRound(rounds[i], ep0File, eh, sh);
        assert rounds[i..][0] == rounds[i] && rounds[i..][1..] == rounds[i + 1..];
        if p.stop {
          return p.ret, steps + p.steps;
        }
        steps := steps + p.steps;
        i := i + 1;
      }
      assert rounds[i..] == [];
      ret := 0;
    }
  }

  /** The descriptor blob usbf_start writes: the image over what the fresh buffer held. */
  function DescsBlob(env: Env, flags: bv32, interfaceClass: byte, eps: seq<EpEntry>): (r: seq<byte>)
    requires ValidSpeed(flags) && |eps| <= MAX_ENDPOINTS
    ensures |r| == DescsLength(SpeedCount(flags), |eps|)
  {
    Realize(DescsImage(flags, interfaceClass, eps), Garbage(env.junk, DescsLength(SpeedCount(flags), |eps|)))
  }

  /** The endpoint loop opens up to and including the first file that fails, or all of them. */
  lemma {:induction false} OpenCountStops(open: string -> int, ffsPath: string, k: nat, n: nat, m: nat)
    requires k <= n <= m
    requires forall t | k < t <= n :: open(EpPath(ffsPath, t)) >= 0
    requires n < m ==> open(EpPath(ffsPath, n + 1)) < 0
    ensures OpenCount(open, ffsPath, k, m) == if n < m then n + 1 - k else m - k
    decreases n - k
  {
    if k < n {
      assert open(EpPath(ffsPath, k + 1)) >= 0;
      OpenCountStops(open, ffsPath, k + 1, n, m);
    }
  }

  /** The first n opens recorded in `files` all succeeded. */
  lemma OpensBefore(open: string -> int, ffsPath: string, files: seq<int>, n: nat)
    requires n <= |files|
    requires forall t | 0 <= t < |files| :: files[t] == open(EpPath(ffsPath, t + 1))
    requires forall t | 0 <= t < n :: files[t] >= 0
    ensures forall t | 0 < t <= n :: open(EpPath(ffsPath, t)) >= 0
  {
    forall t | 0 < t <= n
      ensures open(EpPath(ffsPath, t)) >= 0
    {
      assert files[t - 1] >= 0;
    }
  }

  /** After a successful start every endpoint has its file: nothing of the old descriptors is left. */
  lemma SuccessStoresAll(env: Env, ffsPath: string, descs: seq<byte>, strings: seq<byte>, m: nat, before: seq<int>)
    requires |before| == m
    requires StartSpec(env, ffsPath, descs, strings, m).ret >= 0
    ensures var o := StartSpec(env, ffsPath, descs, strings, m);
            |o.epFiles| == m && o.epFiles + before[|o.epFiles|..] == o.epFiles
  {
    StartSucceedsIff(env, ffsPath, descs, strings, m);
  }

  /** The results of opening endpoint files 1 .. n. */
  function OpensUpTo(open: string -> int, ffsPath: string, n: nat): (r: seq<int>)
    ensures |r| == n && forall t | 0 <= t < n :: r[t] == open(EpPath(ffsPath, t + 1))
  {
    seq(n, t requires 0 <= t < n => open(EpPath(ffsPath, t + 1)))
  }

  lemma OpensUpToSnoc(open: string -> int, ffsPath: string, n: nat)
    ensures OpensUpTo(open, ffsPath, n + 1) == OpensUpTo(open, ffsPath, n) + [open(EpPath(ffsPath, n + 1))]
  {
  }

  /** Opens that all succeeded, or that stopped at the first failure, are what the endpoint loop makes. */
  lemma OpensStopped(open: string -> int, ffsPath: string, files: seq<int>, m: nat)
    requires |files| <= m
    requires files == OpensUpTo(open, ffsPath, |files|)
    requires forall t | 0 <= t < |files| - 1 :: files[t] >= 0
    requires |files| < m ==> OpenFailed(files)
    requires |files| == m ==> files == [] || files[m - 1] >= 0 || OpenFailed(files)
    ensures files == EpOpens(open, ffsPath, m)
  {
    if OpenFailed(files) {
      var n := |files| - 1;
      OpensBefore(open, ffsPath, files, n);
      OpenCountStops(open, ffsPath, 0, n, m);
    } else {
      OpensBefore(open, ffsPath, files, m);
      OpenCountStops(open, ffsPath, 0, m, m);
    }
  }

  /** Storing the next descriptor moves it from the old part to the new. */
  lemma SetNext(files: seq<int>, rest: seq<int>, fd: int)
    requires |rest| > 0
    ensures (files + rest)[|files| := fd] == (files + [fd]) + rest[1..]
  {
  }

  /** No endpoint object is registered twice. */
  predicate Distinct(eps: seq<Endpoint>)
  {
    forall i, j | 0 <= i < j < |eps| :: eps[i] != eps[j]
  }

  lemma DistinctSnoc(eps: seq<Endpoint>, e: Endpoint)
    requires Distinct(eps) && e !in eps
    ensures Distinct(eps + [e])
  {
  }

  lemma EntriesSnoc(eps: seq<Endpoint>, e: Endpoint)
    ensures EntriesOf(eps + [e]) == EntriesOf(eps) + [EpEntry(e.address, e.config)]
  {
  }

  /** Appending the next entry, with the next address and an accepted type, keeps the table well formed. */
  lemma TableSnoc(table: seq<EpEntry>, e: EpEntry)
    requires WellFormedTable(table) && |table| < MAX_ENDPOINTS
    requires e.address == Address(|table| + 1, e.config.direction) && ValidType(e.config.epType)
    ensures WellFormedTable(table + [e])
  {
    var t := table + [e];
    forall i | 0 <= i < |t|
      ensures t[i].address == Address(i + 1, t[i].config.direction) && ValidType(t[i].config.epType)
    {
      if i < |table| {
        assert t[i] == table[i];
      }
    }
  }

  lemma HeldSnoc(path: string, n: nat)
    ensures HeldBlocks(path, n + 1) == HeldBlocks(path, n) + [Mem(EndpointBlock(n))]
  {
  }

  lemma CreateUnwinds(size: nat)
    ensures Unwound([Malloc(FunctionBlock, true)] + [Malloc(FfsPathBlock(size), false)] + [Free(FunctionBlock)])
    ensures var calls := [Malloc(FunctionBlock, true)] + [Malloc(FfsPathBlock(size), false)] + [Free(FunctionBlock)];
            multiset(ReleasedBy(calls)) == multiset(AcquiredBy(calls))
  {
    Single(Malloc(FunctionBlock, true));
    Single(Malloc(FfsPathBlock(size), false));
    Single(Free(FunctionBlock));
    Nest([Malloc(FunctionBlock, true)], [Malloc(FfsPathBlock(size), false)], [Free(FunctionBlock)]);
    Append3([Malloc(FunctionBlock, true)], [Malloc(FfsPathBlock(size), false)], [Free(FunctionBlock)]);
  }

  /** Freeing endpoint blocks 0 .. n-1 releases them in that order. */
  lemma {:induction false} EndpointFreesRelease(n: nat)
    ensures var frees := seq(n, i requires 0 <= i < n => Free(EndpointBlock(i)));
            AcquiredBy(frees) == [] && ReleasedBy(frees) == seq(n, i requires 0 <= i < n => Mem(EndpointBlock(i)))
  {
    if n > 0 {
      var frees := seq(n, i requires 0 <= i < n => Free(EndpointBlock(i)));
      var prev := seq(n - 1, i requires 0 <= i < n - 1 => Free(EndpointBlock(i)));
      assert frees == prev + [Free(EndpointBlock(n - 1))];
      EndpointFreesRelease(n - 1);
      Append2(prev, [Free(EndpointBlock(n - 1))]);
      Single(Free(EndpointBlock(n - 1)));
      assert seq(n, i requires 0 <= i < n => Mem(EndpointBlock(i))) ==
             seq(n - 1, i requires 0 <= i < n - 1 => Mem(EndpointBlock(i))) + [Mem(EndpointBlock(n - 1))];
    }
  }

  /** The frees of usbf_delete_function release each held block exactly once. */
  lemma DeleteReleasesHeld(path: string, n: nat)
    ensures AcquiredBy(DeleteCalls(path, n)) == []
    ensures multiset(ReleasedBy(DeleteCalls(path, n))) == multiset(HeldBlocks(path, n))
  {
    var frees := seq(n, i requires 0 <= i < n => Free(EndpointBlock(i)));
    var tail := [Free(FfsPathBlock(FfsPathAlloc(path))), Free(FunctionBlock)];
    var mems := seq(n, i requires 0 <= i < n => Mem(EndpointBlock(i)));
    EndpointFreesRelease(n);
    Pair(tail[0], tail[1]);
    Append2(frees, tail);
    assert HeldBlocks(path, n) == [Mem(FunctionBlock), Mem(FfsPathBlock(FfsPathAlloc(path)))] + mems;
  }
}
