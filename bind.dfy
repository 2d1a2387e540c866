/**
 * The operating-system side of binding a function to FunctionFS
 * (usbf_start, usbf_stop). Allocation, open, write and close are not
 * performed: an environment says what each would return, and the model
 * records the calls in order. The reference outcome of usbf_start is a
 * function of the environment; the lemmas show that every failure
 * releases exactly what was acquired before it, in reverse order, and
 * that success leaves exactly the control file and the endpoint files
 * open.
 */
module Bind {
  import opened Wrappers
  import opened Bytes
  import opened Consts

  /** The heap blocks the library allocates, with their sizes where the source computes one. */
  datatype Block =
    | FunctionBlock
    | FfsPathBlock(size: nat)
    | EndpointBlock(slot: nat)
    | DescsBlock(size: nat)
    | StringsBlock(size: nat)
    | PathBlock(size: nat)

  /** One call into the C library or the kernel, with what it returned. */
  datatype SysCall =
    | Malloc(block: Block, ok: bool)
    | Free(block: Block)
    | Open(path: string, fd: int)
    | Write(fd: int, data: seq<byte>, ret: int)
    | Close(fd: int)

  /**
   * What the environment answers during usbf_start: whether each of the
   * three allocations succeeds, what a fresh block holds before it is
   * written, and the results of open and write.
   */
  datatype Env = Env(
    descsAllocOk: bool,
    stringsAllocOk: bool,
    pathAllocOk: bool,
    junk: nat -> byte,
    open: string -> int,
    write: (int, seq<byte>) -> int)

  /** Something a call acquires and a later call releases. */
  datatype Resource = Mem(block: Block) | File(fd: int)

  function Acquired(c: SysCall): seq<Resource>
  {
    match c
    case Malloc(b, ok) => if ok then [Mem(b)] else []
    case Open(_, fd) => if fd >= 0 then [File(fd)] else []
    case _ => []
  }

  function Released(c: SysCall): seq<Resource>
  {
    match c
    case Free(b) => [Mem(b)]
    case Close(fd) => [File(fd)]
    case _ => []
  }

  /** The resources a trace acquires, in order. */
  function AcquiredBy(calls: seq<SysCall>): seq<Resource>
  {
    if calls == [] then [] else Acquired(calls[0]) + AcquiredBy(calls[1..])
  }

  /** The resources a trace releases, in order. */
  function ReleasedBy(calls: seq<SysCall>): seq<Resource>
  {
    if calls == [] then [] else Released(calls[0]) + ReleasedBy(calls[1..])
  }

  lemma {:induction false} AcquiredByAppend(a: seq<SysCall>, b: seq<SysCall>)
    ensures AcquiredBy(a + b) == AcquiredBy(a) + AcquiredBy(b)
  {
    if a == [] {
      assert a + b == b;
    } else {
      assert (a + b)[0] == a[0] && (a + b)[1..] == a[1..] + b;
      AcquiredByAppend(a[1..], b);
    }
  }

  lemma {:induction false} ReleasedByAppend(a: seq<SysCall>, b: seq<SysCall>)
    ensures ReleasedBy(a + b) == ReleasedBy(a) + ReleasedBy(b)
  {
    if a == [] {
      assert a + b == b;
    } else {
      assert (a + b)[0] == a[0] && (a + b)[1..] == a[1..] + b;
      ReleasedByAppend(a[1..], b);
    }
  }

  lemma Single(c: SysCall)
    ensures AcquiredBy([c]) == Acquired(c) && ReleasedBy([c]) == Released(c)
  {
    assert [c][1..] == [];
  }

  /** Acquisitions and releases of a trace in two parts. */
  lemma Append2(a: seq<SysCall>, b: seq<SysCall>)
    ensures AcquiredBy(a + b) == AcquiredBy(a) + AcquiredBy(b)
    ensures ReleasedBy(a + b) == ReleasedBy(a) + ReleasedBy(b)
  {
    AcquiredByAppend(a, b);
    ReleasedByAppend(a, b);
  }

  /** Acquisitions and releases of a trace in three parts. */
  lemma Append3(a: seq<SysCall>, m: seq<SysCall>, r: seq<SysCall>)
    ensures AcquiredBy(a + m + r) == AcquiredBy(a) + AcquiredBy(m) + AcquiredBy(r)
    ensures ReleasedBy(a + m + r) == ReleasedBy(a) + ReleasedBy(m) + ReleasedBy(r)
  {
    AcquiredByAppend(a, m);
    ReleasedByAppend(a, m);
    AcquiredByAppend(a + m, r);
    ReleasedByAppend(a + m, r);
  }

  /** A trace that neither acquires nor releases anything. */
  predicate Neutral(calls: seq<SysCall>)
  {
    AcquiredBy(calls) == [] && ReleasedBy(calls) == []
  }

  /** A trace that releases what it acquires, in reverse order. */
  predicate Unwound(calls: seq<SysCall>)
  {
    ReleasedBy(calls) == Reverse(AcquiredBy(calls))
  }

  lemma {:induction false} WritesNeutral(calls: seq<SysCall>)
    requires forall i | 0 <= i < |calls| :: calls[i].Write?
    ensures Neutral(calls)
  {
    if calls != [] {
      assert calls == [calls[0]] + calls[1..];
      WritesNeutral(calls[1..]);
      Single(calls[0]);
      AcquiredByAppend([calls[0]], calls[1..]);
      ReleasedByAppend([calls[0]], calls[1..]);
    }
  }

  /**
   * Acquiring, running an unwound trace, then releasing in reverse what
   * was acquired first, unwinds the whole.
   */
  lemma Nest(a: seq<SysCall>, m: seq<SysCall>, r: seq<SysCall>)
    requires ReleasedBy(a) == [] && AcquiredBy(r) == []
    requires Unwound(m) && ReleasedBy(r) == Reverse(AcquiredBy(a))
    ensures Unwound(a + m + r)
  {
    Append3(a, m, r);
    ReverseAppend(AcquiredBy(a), AcquiredBy(m));
    assert AcquiredBy(a) + AcquiredBy(m) + [] == AcquiredBy(a) + AcquiredBy(m);
    assert [] + ReleasedBy(m) == ReleasedBy(m);
  }

  /** A neutral prefix changes nothing. */
  lemma NeutralPrefix(n: seq<SysCall>, m: seq<SysCall>)
    requires Neutral(n)
    ensures AcquiredBy(n + m) == AcquiredBy(m) && ReleasedBy(n + m) == ReleasedBy(m)
  {
    AcquiredByAppend(n, m);
    ReleasedByAppend(n, m);
  }

  function Reverse<T>(s: seq<T>): (r: seq<T>)
    ensures |r| == |s| && forall i | 0 <= i < |s| :: r[i] == s[|s| - 1 - i]
  {
    seq(|s|, i requires 0 <= i < |s| => s[|s| - 1 - i])
  }

  lemma ReverseAppend<T>(a: seq<T>, b: seq<T>)
    ensures Reverse(a + b) == Reverse(b) + Reverse(a)
  {
  }

  function Files(fds: seq<int>): (r: seq<Resource>)
    ensures |r| == |fds| && forall i | 0 <= i < |fds| :: r[i] == File(fds[i])
  {
    seq(|fds|, i requires 0 <= i < |fds| => File(fds[i]))
  }

  /** The decimal digits sprintf's %d prints for a non-negative number. */
  function Decimal(n: nat): (r: string)
    ensures 1 <= |r| && (n < 10 <==> |r| == 1)
    ensures forall i | 0 <= i < |r| :: '0' <= r[i] <= '9'
  {
    if n < 10 then [(48 + n) as char] else Decimal(n / 10) + [(48 + n % 10) as char]
  }

  /** Different numbers print differently. */
  lemma {:induction false} DecimalInjective(a: nat, b: nat)
    requires Decimal(a) == Decimal(b)
    ensures a == b
  {
    if a >= 10 && b >= 10 {
      var da, db := Decimal(a), Decimal(b);
      assert da[..|da| - 1] == Decimal(a / 10) && db[..|db| - 1] == Decimal(b / 10);
      DecimalInjective(a / 10, b / 10);
      assert da[|da| - 1] == db[|db| - 1];
    }
  }

  /** The path usbf_start opens for endpoint file `n`: "%s/ep%d" (ep0 is the control file). */
  function EpPath(ffsPath: string, n: nat): string
  {
    ffsPath + "/ep" + Decimal(n)
  }

  /** Distinct endpoint numbers name distinct files. */
  lemma EpPathsDistinct(ffsPath: string, a: nat, b: nat)
    requires a != b
    ensures EpPath(ffsPath, a) != EpPath(ffsPath, b)
  {
    if EpPath(ffsPath, a) == EpPath(ffsPath, b) {
      var k := |ffsPath| + 3;
      assert EpPath(ffsPath, a)[k..] == Decimal(a);
      assert EpPath(ffsPath, b)[k..] == Decimal(b);
      DecimalInjective(a, b);
    }
  }

  /** Size of the path buffer: the base path and six bytes for "/ep##" and the NUL. */
  function PathBufferSize(ffsPath: string): nat
  {
    |ffsPath| + 6
  }

  /** Every path usbf_start prints, NUL included, fits the buffer, since endpoint numbers stay below 100. */
  lemma EpPathFits(ffsPath: string, n: nat)
    requires n <= MAX_ENDPOINTS
    ensures |EpPath(ffsPath, n)| + 1 <= PathBufferSize(ffsPath)
  {
    assert Decimal(n) == if n < 10 then [(48 + n) as char] else Decimal(n / 10) + [(48 + n % 10) as char];
  }

  /**
   * How many of the endpoint files k+1 .. m usbf_start opens: all of
   * them, or up to and including the first that fails.
   */
  function OpenCount(open: string -> int, ffsPath: string, k: nat, m: nat): (r: nat)
    requires k <= m
    decreases m - k
    ensures k + r <= m
    ensures forall t | k < t < k + r :: open(EpPath(ffsPath, t)) >= 0
    ensures k + r < m ==> r > 0 && open(EpPath(ffsPath, k + r)) < 0
  {
    if k == m then 0
    else if open(EpPath(ffsPath, k + 1)) < 0 then 1
    else 1 + OpenCount(open, ffsPath, k + 1, m)
  }

  /** The descriptors returned by opening endpoint files 1 .. m in order, up to the first failure. */
  function EpOpens(open: string -> int, ffsPath: string, m: nat): (fds: seq<int>)
    ensures |fds| <= m
    ensures forall t | 0 <= t < |fds| :: fds[t] == open(EpPath(ffsPath, t + 1))
    ensures forall t | 0 <= t < |fds| - 1 :: fds[t] >= 0
    ensures |fds| < m ==> |fds| > 0 && fds[|fds| - 1] < 0
  {
    var n := OpenCount(open, ffsPath, 0, m);
    seq(n, t requires 0 <= t < n => open(EpPath(ffsPath, t + 1)))
  }

  /** The open sequence stopped at a failure. */
  predicate OpenFailed(fds: seq<int>)
  {
    |fds| > 0 && fds[|fds| - 1] < 0
  }

  /** The open calls for endpoint files 1 .. |fds|. */
  function OpenCalls(ffsPath: string, fds: seq<int>): (r: seq<SysCall>)
    ensures |r| == |fds|
  {
    seq(|fds|, t requires 0 <= t < |fds| => Open(EpPath(ffsPath, t + 1), fds[t]))
  }

  function CloseCalls(fds: seq<int>): (r: seq<SysCall>)
    ensures |r| == |fds|
  {
    seq(|fds|, t requires 0 <= t < |fds| => Close(fds[t]))
  }

  /** What a part of usbf_start returns, the calls it makes, and the endpoint descriptors it records. */
  datatype Phase = Phase(ret: int, calls: seq<SysCall>, epFiles: seq<int>)

  /**
   * The endpoint loop of usbf_start, and on a failure the loop that
   * closes the endpoint files opened before it, from the last to the
   * first. The failing descriptor is returned; 0 when all open.
   */
  function EndpointPhase(open: string -> int, ffsPath: string, m: nat): Phase
  {
    var fds := EpOpens(open, ffsPath, m);
    if OpenFailed(fds) then
      Phase(fds[|fds| - 1], OpenCalls(ffsPath, fds) + CloseCalls(Reverse(fds[..|fds| - 1])), fds)
    else
      Phase(0, OpenCalls(ffsPath, fds), fds)
  }

  /**
   * With the control file open: write the descriptor blob, then the
   * strings blob, then open the endpoint files. The first negative result
   * is returned; on success, what the strings write returned.
   */
  function ControlPhase(env: Env, ffsPath: string, fd0: int, descs: seq<byte>, strings: seq<byte>, m: nat): Phase
  {
    var w1 := env.write(fd0, descs);
    if w1 < 0 then Phase(w1, [Write(fd0, descs, w1)], [])
    else
      var w2 := env.write(fd0, strings);
      var writes := [Write(fd0, descs, w1), Write(fd0, strings, w2)];
      if w2 < 0 then Phase(w2, writes, [])
      else
        var e := EndpointPhase(env.open, ffsPath, m);
        Phase(if e.ret < 0 then e.ret else w2, writes + e.calls, e.epFiles)
  }

  /** What usbf_start leaves behind: its result, its calls, and the descriptors it stored. */
  datatype Outcome = Outcome(ret: int, calls: seq<SysCall>, ep0File: Option<int>, epFiles: seq<int>)

  /**
   * Open the control file "ep0" and run the control phase; when that
   * fails, close the control file. The control descriptor is stored even
   * when the open fails.
   */
  function FilesPhase(env: Env, ffsPath: string, descs: seq<byte>, strings: seq<byte>, m: nat): Outcome
  {
    var fd0 := env.open(EpPath(ffsPath, 0));
    var open0 := [Open(EpPath(ffsPath, 0), fd0)];
    if fd0 < 0 then Outcome(fd0, open0, Some(fd0), [])
    else
      var c := ControlPhase(env, ffsPath, fd0, descs, strings, m);
      if c.ret < 0 then Outcome(c.ret, open0 + c.calls + [Close(fd0)], Some(fd0), c.epFiles)
      else Outcome(c.ret, open0 + c.calls, Some(fd0), c.epFiles)
  }

  /**
   * usbf_start as a whole, for the blobs it builds and `m` endpoints:
   * allocate the descriptor buffer, the strings buffer and the path
   * buffer, run the file phase, then free the three buffers in reverse
   * order. An allocation failure returns -ENOMEM after freeing the buffers
   * allocated before it.
   */
  function StartSpec(env: Env, ffsPath: string, descs: seq<byte>, strings: seq<byte>, m: nat): Outcome
  {
    var d, s, p := DescsBlock(|descs|), StringsBlock(|strings|), PathBlock(PathBufferSize(ffsPath));
    if !env.descsAllocOk then Outcome(-ENOMEM, [Malloc(d, false)], None, [])
    else if !env.stringsAllocOk then Outcome(-ENOMEM, [Malloc(d, true)] + [Malloc(s, false)] + [Free(d)], None, [])
    else if !env.pathAllocOk then
      Outcome(-ENOMEM, [Malloc(d, true), Malloc(s, true)] + [Malloc(p, false)] + [Free(s), Free(d)], None, [])
    else
      var o := FilesPhase(env, ffsPath, descs, strings, m);
      Outcome(o.ret, [Malloc(d, true), Malloc(s, true), Malloc(p, true)] + o.calls + [Free(p), Free(s), Free(d)],
              o.ep0File, o.epFiles)
  }

  /** usbf_stop: close the endpoint files in order, then the control file. */
  function StopCalls(ep0File: int, epFiles: seq<int>): (r: seq<SysCall>)
    ensures |r| == |epFiles| + 1
  {
    CloseCalls(epFiles) + [Close(ep0File)]
  }

  lemma Pair(x: SysCall, y: SysCall)
    ensures AcquiredBy([x, y]) == Acquired(x) + Acquired(y)
    ensures ReleasedBy([x, y]) == Released(x) + Released(y)
  {
    assert [x, y] == [x] + [y];
    AcquiredByAppend([x], [y]);
    ReleasedByAppend([x], [y]);
    Single(x);
    Single(y);
  }

  lemma Triple(x: SysCall, y: SysCall, z: SysCall)
    ensures AcquiredBy([x, y, z]) == Acquired(x) + Acquired(y) + Acquired(z)
    ensures ReleasedBy([x, y, z]) == Released(x) + Released(y) + Released(z)
  {
    assert [x, y, z] == [x, y] + [z];
    AcquiredByAppend([x, y], [z]);
    ReleasedByAppend([x, y], [z]);
    Pair(x, y);
    Single(z);
  }

  lemma FilesReverse(fds: seq<int>)
    ensures Files(Reverse(fds)) == Reverse(Files(fds))
  {
  }

  lemma OpenCallsSnoc(ffsPath: string, fds: seq<int>)
    requires fds != []
    ensures OpenCalls(ffsPath, fds) ==
            OpenCalls(ffsPath, fds[..|fds| - 1]) + [Open(EpPath(ffsPath, |fds|), fds[|fds| - 1])]
    ensures Files(fds) == Files(fds[..|fds| - 1]) + [File(fds[|fds| - 1])]
  {
  }

  /** Opening endpoint files that all open acquires each of them, in order. */
  lemma {:induction false} OpensAcquire(ffsPath: string, fds: seq<int>)
    requires forall t | 0 <= t < |fds| :: fds[t] >= 0
    ensures AcquiredBy(OpenCalls(ffsPath, fds)) == Files(fds)
    ensures ReleasedBy(OpenCalls(ffsPath, fds)) == []
  {
    if fds != [] {
      var n := |fds| - 1;
      OpenCallsSnoc(ffsPath, fds);
      OpensAcquire(ffsPath, fds[..n]);
      Append2(OpenCalls(ffsPath, fds[..n]), [Open(EpPath(ffsPath, n + 1), fds[n])]);
      Single(Open(EpPath(ffsPath, n + 1), fds[n]));
    }
  }

  /** When the last open fails, only the files opened before it are acquired. */
  lemma FailedOpensAcquire(ffsPath: string, fds: seq<int>)
    requires OpenFailed(fds) && forall t | 0 <= t < |fds| - 1 :: fds[t] >= 0
    ensures AcquiredBy(OpenCalls(ffsPath, fds)) == Files(fds[..|fds| - 1])
    ensures ReleasedBy(OpenCalls(ffsPath, fds)) == []
  {
    var n := |fds| - 1;
    OpenCallsSnoc(ffsPath, fds);
    OpensAcquire(ffsPath, fds[..n]);
    Append2(OpenCalls(ffsPath, fds[..n]), [Open(EpPath(ffsPath, n + 1), fds[n])]);
    Single(Open(EpPath(ffsPath, n + 1), fds[n]));
  }

  lemma CloseCallsSnoc(fds: seq<int>)
    requires fds != []
    ensures CloseCalls(fds) == CloseCalls(fds[..|fds| - 1]) + [Close(fds[|fds| - 1])]
    ensures Files(fds) == Files(fds[..|fds| - 1]) + [File(fds[|fds| - 1])]
  {
  }

  /** Closing a list of files releases each of them, in order. */
  lemma {:induction false} ClosesRelease(fds: seq<int>)
    ensures AcquiredBy(CloseCalls(fds)) == []
    ensures ReleasedBy(CloseCalls(fds)) == Files(fds)
  {
    if fds != [] {
      var n := |fds| - 1;
      CloseCallsSnoc(fds);
      ClosesRelease(fds[..n]);
      Append2(CloseCalls(fds[..n]), [Close(fds[n])]);
      Single(Close(fds[n]));
    }
  }

  /**
   * The endpoint phase either fails and closes, last first, every file it
   * opened, or leaves every endpoint file it opened open.
   */
  lemma EndpointPhaseResources(open: string -> int, ffsPath: string, m: nat)
    ensures var e := EndpointPhase(open, ffsPath, m);
            e.ret < 0 ==> Unwound(e.calls)
    ensures var e := EndpointPhase(open, ffsPath, m);
            e.ret >= 0 ==> AcquiredBy(e.calls) == Files(e.epFiles) && ReleasedBy(e.calls) == []
  {
    var fds := EpOpens(open, ffsPath, m);
    if OpenFailed(fds) {
      var prefix := fds[..|fds| - 1];
      FailedOpensAcquire(ffsPath, fds);
      ClosesRelease(Reverse(prefix));
      FilesReverse(prefix);
      Nest(OpenCalls(ffsPath, fds), [], CloseCalls(Reverse(prefix)));
      assert OpenCalls(ffsPath, fds) + [] + CloseCalls(Reverse(prefix)) == OpenCalls(ffsPath, fds) + CloseCalls(Reverse(prefix));
    } else {
      OpensAcquire(ffsPath, fds);
    }
  }

  /** The same for the control phase: the writes acquire and release nothing. */
  lemma ControlPhaseResources(env: Env, ffsPath: string, fd0: int, descs: seq<byte>, strings: seq<byte>, m: nat)
    ensures var c := ControlPhase(env, ffsPath, fd0, descs, strings, m);
            c.ret < 0 ==> Unwound(c.calls)
    ensures var c := ControlPhase(env, ffsPath, fd0, descs, strings, m);
            c.ret >= 0 ==> AcquiredBy(c.calls) == Files(c.epFiles) && ReleasedBy(c.calls) == []
  {
    var w1 := env.write(fd0, descs);
    if w1 < 0 {
      Single(Write(fd0, descs, w1));
    } else {
      var w2 := env.write(fd0, strings);
      var writes := [Write(fd0, descs, w1), Write(fd0, strings, w2)];
      WritesNeutral(writes);
      if w2 >= 0 {
        var e := EndpointPhase(env.open, ffsPath, m);
        EndpointPhaseResources(env.open, ffsPath, m);
        NeutralPrefix(writes, e.calls);
      }
    }
  }

  lemma FilesCons(fd: int, fds: seq<int>)
    ensures Files([fd] + fds) == [File(fd)] + Files(fds)
  {
  }

  /** Every failure of the file phase closes what it opened, in reverse order. */
  lemma FilesPhaseFailure(env: Env, ffsPath: string, descs: seq<byte>, strings: seq<byte>, m: nat)
    requires FilesPhase(env, ffsPath, descs, strings, m).ret < 0
    ensures Unwound(FilesPhase(env, ffsPath, descs, strings, m).calls)
  {
    var fd0 := env.open(EpPath(ffsPath, 0));
    Single(Open(EpPath(ffsPath, 0), fd0));
    if fd0 >= 0 {
      var c := ControlPhase(env, ffsPath, fd0, descs, strings, m);
      ControlPhaseResources(env, ffsPath, fd0, descs, strings, m);
      Single(Close(fd0));
      Nest([Open(EpPath(ffsPath, 0), fd0)], c.calls, [Close(fd0)]);
    }
  }

  /** A file phase that succeeds leaves the control file and every endpoint file open. */
  lemma FilesPhaseSuccess(env: Env, ffsPath: string, descs: seq<byte>, strings: seq<byte>, m: nat)
    requires FilesPhase(env, ffsPath, descs, strings, m).ret >= 0
    ensures var o := FilesPhase(env, ffsPath, descs, strings, m);
            && o.ep0File.Some?
            && AcquiredBy(o.calls) == Files([o.ep0File.value] + o.epFiles)
            && ReleasedBy(o.calls) == []
  {
    var fd0 := env.open(EpPath(ffsPath, 0));
    var c := ControlPhase(env, ffsPath, fd0, descs, strings, m);
    ControlPhaseResources(env, ffsPath, fd0, descs, strings, m);
    Single(Open(EpPath(ffsPath, 0), fd0));
    Append2([Open(EpPath(ffsPath, 0), fd0)], c.calls);
    FilesCons(fd0, c.epFiles);
  }

  /**
   * usbf_start never leaks on failure: whichever step fails, the trace
   * releases exactly the resources it acquired, last acquired first.
   */
  lemma StartFailureUnwinds(env: Env, ffsPath: string, descs: seq<byte>, strings: seq<byte>, m: nat)
    requires StartSpec(env, ffsPath, descs, strings, m).ret < 0
    ensures Unwound(StartSpec(env, ffsPath, descs, strings, m).calls)
  {
    var d, s, p := DescsBlock(|descs|), StringsBlock(|strings|), PathBlock(PathBufferSize(ffsPath));
    if !env.descsAllocOk {
      Single(Malloc(d, false));
    } else if !env.stringsAllocOk {
      StringsAllocFailureUnwinds(d, s);
    } else if !env.pathAllocOk {
      PathAllocFailureUnwinds(d, s, p);
    } else {
      FilesPhaseFailure(env, ffsPath, descs, strings, m);
      FilesFailureUnwinds(d, s, p, FilesPhase(env, ffsPath, descs, strings, m).calls);
    }
  }

  lemma StringsAllocFailureUnwinds(d: Block, s: Block)
    ensures Unwound([Malloc(d, true)] + [Malloc(s, false)] + [Free(d)])
  {
    Single(Malloc(d, true));
    Single(Malloc(s, false));
    Single(Free(d));
    Nest([Malloc(d, true)], [Malloc(s, false)], [Free(d)]);
  }

  lemma PathAllocFailureUnwinds(d: Block, s: Block, p: Block)
    ensures Unwound([Malloc(d, true), Malloc(s, true)] + [Malloc(p, false)] + [Free(s), Free(d)])
  {
    Pair(Malloc(d, true), Malloc(s, true));
    Single(Malloc(p, false));
    Pair(Free(s), Free(d));
    Nest([Malloc(d, true), Malloc(s, true)], [Malloc(p, false)], [Free(s), Free(d)]);
  }

  lemma FilesFailureUnwinds(d: Block, s: Block, p: Block, calls: seq<SysCall>)
    requires Unwound(calls)
    ensures Unwound([Malloc(d, true), Malloc(s, true), Malloc(p, true)] + calls + [Free(p), Free(s), Free(d)])
  {
    AllocsAcquire(d, s, p);
    FreesRelease(p, s, d);
    Nest([Malloc(d, true), Malloc(s, true), Malloc(p, true)], calls, [Free(p), Free(s), Free(d)]);
  }

  /**
   * A successful usbf_start frees its three buffers in reverse order and
   * leaves open exactly the control file and one file per endpoint.
   */
  lemma StartSuccessLeavesFilesOpen(env: Env, ffsPath: string, descs: seq<byte>, strings: seq<byte>, m: nat)
    requires StartSpec(env, ffsPath, descs, strings, m).ret >= 0
    ensures var o := StartSpec(env, ffsPath, descs, strings, m);
            var mems := [Mem(DescsBlock(|descs|)), Mem(StringsBlock(|strings|)), Mem(PathBlock(PathBufferSize(ffsPath)))];
            && o.ep0File.Some?
            && AcquiredBy(o.calls) == mems + Files([o.ep0File.value] + o.epFiles)
            && ReleasedBy(o.calls) == [mems[2], mems[1], mems[0]]
  {
    var d, s, p := DescsBlock(|descs|), StringsBlock(|strings|), PathBlock(PathBufferSize(ffsPath));
    FilesPhaseSuccess(env, ffsPath, descs, strings, m);
    var o := FilesPhase(env, ffsPath, descs, strings, m);
    BracketedByBuffers(d, s, p, o.calls);
  }

  /** The trace between the three allocations and the three frees, seen from outside. */
  lemma BracketedByBuffers(d: Block, s: Block, p: Block, calls: seq<SysCall>)
    ensures var whole := [Malloc(d, true), Malloc(s, true), Malloc(p, true)] + calls + [Free(p), Free(s), Free(d)];
            && AcquiredBy(whole) == [Mem(d), Mem(s), Mem(p)] + AcquiredBy(calls)
            && ReleasedBy(whole) == ReleasedBy(calls) + [Mem(p), Mem(s), Mem(d)]
  {
    AllocsAcquire(d, s, p);
    FreesRelease(p, s, d);
    Append3([Malloc(d, true), Malloc(s, true), Malloc(p, true)], calls, [Free(p), Free(s), Free(d)]);
  }

  lemma AllocsAcquire(d: Block, s: Block, p: Block)
    ensures AcquiredBy([Malloc(d, true), Malloc(s, true), Malloc(p, true)]) == [Mem(d), Mem(s), Mem(p)]
    ensures ReleasedBy([Malloc(d, true), Malloc(s, true), Malloc(p, true)]) == []
  {
    Triple(Malloc(d, true), Malloc(s, true), Malloc(p, true));
  }

  lemma FreesRelease(p: Block, s: Block, d: Block)
    ensures AcquiredBy([Free(p), Free(s), Free(d)]) == []
    ensures ReleasedBy([Free(p), Free(s), Free(d)]) == [Mem(p), Mem(s), Mem(d)] == Reverse([Mem(d), Mem(s), Mem(p)])
  {
    Triple(Free(p), Free(s), Free(d));
    Reverse3(Mem(d), Mem(s), Mem(p));
  }

  lemma Reverse3<T>(x: T, y: T, z: T)
    ensures Reverse([x, y, z]) == [z, y, x]
  {
    var r := Reverse([x, y, z]);
    assert r[0] == z && r[1] == y && r[2] == x;
  }

  /**
   * usbf_start succeeds exactly when the three allocations succeed, the
   * control file opens, both writes succeed and every endpoint file opens;
   * it then returns what the strings write returned, and records one open
   * descriptor per endpoint, endpoint t in file "ep<t+1>".
   */
  lemma StartSucceedsIff(env: Env, ffsPath: string, descs: seq<byte>, strings: seq<byte>, m: nat)
    ensures var o := StartSpec(env, ffsPath, descs, strings, m);
            var fd0 := env.open(EpPath(ffsPath, 0));
            o.ret >= 0 <==>
              && env.descsAllocOk && env.stringsAllocOk && env.pathAllocOk
              && fd0 >= 0 && env.write(fd0, descs) >= 0 && env.write(fd0, strings) >= 0
              && forall t | 1 <= t <= m :: env.open(EpPath(ffsPath, t)) >= 0
    ensures var o := StartSpec(env, ffsPath, descs, strings, m);
            o.ret >= 0 ==>
              && o.ret == env.write(env.open(EpPath(ffsPath, 0)), strings)
              && o.ep0File == Some(env.open(EpPath(ffsPath, 0)))
              && |o.epFiles| == m
              && forall t | 0 <= t < m :: o.epFiles[t] == env.open(EpPath(ffsPath, t + 1)) >= 0
  {
    var fd0 := env.open(EpPath(ffsPath, 0));
    var fds := EpOpens(env.open, ffsPath, m);
    if env.descsAllocOk && env.stringsAllocOk && env.pathAllocOk && fd0 >= 0
       && env.write(fd0, descs) >= 0 && env.write(fd0, strings) >= 0 {
      if OpenFailed(fds) {
        var n := |fds| - 1;
        assert fds[n] == env.open(EpPath(ffsPath, n + 1));
      } else {
        forall t | 1 <= t <= m
          ensures env.open(EpPath(ffsPath, t)) >= 0
        {
          assert fds[t - 1] == env.open(EpPath(ffsPath, t));
        }
      }
    }
  }

  /**
   * What a failing usbf_start returns: -ENOMEM when one of its three
   * allocations fails, otherwise the result of the first failing step:
   * the open of the control file, the descriptor write, or the strings
   * write. Past the allocations the control descriptor is stored.
   */
  lemma StartFailureResult(env: Env, ffsPath: string, descs: seq<byte>, strings: seq<byte>, m: nat)
    ensures var o := StartSpec(env, ffsPath, descs, strings, m);
            var allocs := env.descsAllocOk && env.stringsAllocOk && env.pathAllocOk;
            var fd0 := env.open(EpPath(ffsPath, 0));
            var w1 := env.write(fd0, descs);
            var w2 := env.write(fd0, strings);
            && (!allocs ==> o.ret == -ENOMEM && o.ep0File == None && o.epFiles == [])
            && (allocs ==> o.ep0File == Some(fd0))
            && (allocs && fd0 < 0 ==> o.ret == fd0 && o.epFiles == [])
            && (allocs && fd0 >= 0 && w1 < 0 ==> o.ret == w1 && o.epFiles == [])
            && (allocs && fd0 >= 0 && w1 >= 0 && w2 < 0 ==> o.ret == w2 && o.epFiles == [])
  {
  }

  /**
   * When everything before the endpoint loop succeeds and endpoint file t
   * is the first that fails to open, usbf_start returns what that open
   * returned, having stored the descriptors of files 1 .. t.
   */
  lemma EndpointFailureResult(env: Env, ffsPath: string, descs: seq<byte>, strings: seq<byte>, m: nat, t: nat)
    requires env.descsAllocOk && env.stringsAllocOk && env.pathAllocOk
    requires env.open(EpPath(ffsPath, 0)) >= 0
    requires env.write(env.open(EpPath(ffsPath, 0)), descs) >= 0 && env.write(env.open(EpPath(ffsPath, 0)), strings) >= 0
    requires 1 <= t <= m && env.open(EpPath(ffsPath, t)) < 0
    requires forall u | 1 <= u < t :: env.open(EpPath(ffsPath, u)) >= 0
    ensures var o := StartSpec(env, ffsPath, descs, strings, m);
            && o.ret == env.open(EpPath(ffsPath, t))
            && |o.epFiles| == t
            && forall u | 0 <= u < t :: o.epFiles[u] == env.open(EpPath(ffsPath, u + 1))
  {
    var fds := EpOpens(env.open, ffsPath, m);
    assert |fds| == t && OpenFailed(fds);
  }

  /** usbf_stop releases the endpoint files in order, then the control file, and acquires nothing. */
  lemma StopReleases(ep0File: int, epFiles: seq<int>)
    ensures AcquiredBy(StopCalls(ep0File, epFiles)) == []
    ensures ReleasedBy(StopCalls(ep0File, epFiles)) == Files(epFiles) + [File(ep0File)]
  {
    ClosesRelease(epFiles);
    Single(Close(ep0File));
    Append2(CloseCalls(epFiles), [Close(ep0File)]);
  }

  lemma ThreeReversed<T>(x: T, y: T, z: T)
    ensures multiset([z, y, x]) == multiset([x, y, z])
  {
    assert [z, y, x] == [z] + [y] + [x] && [x, y, z] == [x] + [y] + [z];
  }

  /**
   * usbf_stop after a successful usbf_start closes exactly the files the
   * start left open, so the two together release everything acquired.
   */
  lemma StartThenStopReleasesAll(env: Env, ffsPath: string, descs: seq<byte>, strings: seq<byte>, m: nat)
    requires StartSpec(env, ffsPath, descs, strings, m).ret >= 0
    ensures var o := StartSpec(env, ffsPath, descs, strings, m);
            && o.ep0File.Some?
            && AcquiredBy(StopCalls(o.ep0File.value, o.epFiles)) == []
            && multiset(ReleasedBy(o.calls + StopCalls(o.ep0File.value, o.epFiles))) == multiset(AcquiredBy(o.calls))
  {
    var o := StartSpec(env, ffsPath, descs, strings, m);
    StartSuccessLeavesFilesOpen(env, ffsPath, descs, strings, m);
    var fd0 := o.ep0File.value;
    StopReleases(fd0, o.epFiles);
    ReleasedByAppend(o.calls, StopCalls(fd0, o.epFiles));
    FilesCons(fd0, o.epFiles);
    ThreeReversed(Mem(DescsBlock(|descs|)), Mem(StringsBlock(|strings|)), Mem(PathBlock(PathBufferSize(ffsPath))));
  }
}
