# libusbf in Dafny

libusbf is a small C library for writing the device side of a USB gadget
function on top of the Linux FunctionFS filesystem. A program describes a
function (speed mask, interface class, one string, an event handler and a
setup handler), registers up to sixteen endpoints, and binds the function.
Binding builds the FunctionFS descriptor and strings blobs, writes them to
the control file `ep0` and opens one file per endpoint. Afterwards the
program drains control events from `ep0`, answers SETUP requests with ack,
response or stall, and moves data with `usbf_transfer`.

This project models that core and proves what it does:

- `Bytes`: little-endian 16- and 32-bit encodings (`htole16`, `htole32`, `le16toh`).
- `Consts`: the constants of the library and of FunctionFS.
- `Registry`: the function and endpoint descriptors, the speed-mask and
  endpoint-type checks, and endpoint addresses.
- `Layout`: the byte offsets of `src/descs.h`. They tile the descriptor buffer exactly.
- `Blobs`: the descriptor blob as an image of written bytes. Bytes the
  library never writes are left unspecified. It also holds the strings blob
  and its parser.
- `Buffers` and `Builder`: the buffers of `src/descs.h` as arrays, and the
  loops of `usbf_start` that fill them. Each is proved against `Blobs`.
- `Bind`: `usbf_start` and `usbf_stop` as traces of the system calls they
  make against an environment oracle. The trace is read as acquisitions and
  releases of memory blocks and file descriptors.
- `Events`: the event-drain loop of `usbf_handle_events` over a queue of
  poll and read results.
- `Dispatch`: `usbf_setup_ack`, `usbf_setup_response`, `usbf_setup_stall`
  and `usbf_transfer`.
- `Usbf`: the classes `Endpoint` and `Function`. Their methods perform the
  library's operations and are proved equal to the reference functions in
  `Bind` and `Events`.

## Model

| member | source | states |
|---|---|---|
| Bytes.Le16RoundTrip | src/libusbf.c:280-282 | decoding the little-endian encoding of a 16-bit value gives the value back |
| Bytes.Le16Canonical | src/libusbf.c:280-282 | every two-byte string is the encoding of its decoded value |
| Bytes.Le32RoundTrip | src/libusbf.c:121-128 | decoding the little-endian encoding of a 32-bit value gives the value back |
| Bytes.Le32Canonical | src/libusbf.c:121-128 | every four-byte string is the encoding of its decoded value |
| Dispatch.Ack | src/libusbf.c:298-303 | ack is a zero-length operation on the control file: a write for an IN request, a read otherwise |
| Dispatch.Response | src/libusbf.c:305-311 | response moves `length` bytes on the control file: a write for an IN request, a read otherwise |
| Dispatch.Stall | src/libusbf.c:313-318 | stall is a zero-length operation on the control file: a read for an IN request, a write otherwise |
| Dispatch.IsInIsBit7 | src/libusbf.c:301 | a request is IN exactly when bRequestType is at least 0x80 |
| Dispatch.StallIsFlippedAck | src/libusbf.c:298-318 | stall is always the opposite operation of ack on the same file, so the two never coincide |
| Dispatch.EmptyResponseIsAck | src/libusbf.c:298-311 | a response of length 0 is exactly an ack |
| Dispatch.Transfer | src/libusbf.c:240-252 | an OUT endpoint reads, an IN endpoint writes, `length` bytes on its own file; any other direction is refused with -EINVAL and no I/O |
| Registry.ValidSpeedRange | src/libusbf.c:33-36 | a speed mask is accepted exactly when it lies in 1..7 |
| Registry.Address | src/libusbf.c:91-92 | for an enumerated direction, the low seven bits of the address are the 1-based count and bit 7 is set exactly for IN |
| Registry.AddressesIncreasing | src/libusbf.c:91-92 | in a table built by registration, the low seven address bits are 1..N, strictly increasing, and the addresses are pairwise distinct |
| Layout.DescsLengthSplit | src/descs.h:41-45 | the descriptor length is the header, plus one count per speed, plus one interface-and-endpoints block per speed |
| Layout.DescsLengthMonotone | src/descs.h:41-45 | the descriptor length is largest for three speeds and sixteen endpoints |
| Layout.InterfaceOffsetIsBlockStart | src/descs.h:67-74 | interface i starts after the header, the counts and i whole blocks |
| Layout.EndpointOffsetInBlock | src/descs.h:76-85 | endpoint (i, j) sits j endpoint descriptors after interface i's descriptor |
| Layout.CountsEnd | src/descs.h:61-74 | the count fields end exactly where the first interface starts |
| Layout.BlockEnd | src/descs.h:67-85 | one past the last endpoint of block i is the start of block i + 1 |
| Layout.BlocksEnd | src/descs.h:41-74 | the blocks end exactly at the computed length |
| Layout.LastDescriptorEndsBuffer | src/descs.h:41-85 | the last descriptor of the last speed ends at the computed length |
| Layout.WithinBuffer | src/descs.h:55-85 | every region the access helpers address lies inside the buffer |
| Layout.Locate | src/descs.h:55-85 | every byte of the buffer lies in some region: header, count, interface or endpoint |
| Layout.Disjoint | src/descs.h:55-85 | no byte lies in two different regions |
| Blobs.SpeedsOfLength | src/libusbf.c:111-114 | the speed list has one entry per set speed bit, one to three for an accepted mask |
| Blobs.SpeedsOfSet | src/libusbf.c:131-134 | each listed speed is a single speed bit set in the mask |
| Blobs.SpeedsOfAscending | src/libusbf.c:131-134 | speed blocks follow ascending bit order |
| Blobs.SpeedsOfComplete | src/libusbf.c:111-114 | every speed bit set in the mask is listed |
| Blobs.CursorSkip | src/libusbf.c:132-133 | shifting past an unset bit does not change how many speeds lie below the cursor |
| Blobs.CursorHit | src/libusbf.c:132-134 | the bit the shift loop stops at is the next listed speed |
| Blobs.CursorBounded | src/libusbf.c:131-134 | for an accepted mask the cursor never passes the super-speed bit, so the shift loop ends |
| Blobs.DescsImage | src/descs.h:41-45 | the descriptor image has the length the allocation helper computes |
| Blobs.DescsBlobHeader | src/libusbf.c:120-124 | the blob starts with the V2 magic, the total length and the flags, each little-endian |
| Blobs.DescsBlobCount | src/libusbf.c:126-129 | every count field holds the number of endpoints plus one |
| Blobs.DescsBlobInterface | src/libusbf.c:135-140 | each interface descriptor has length 9, type INTERFACE, the endpoint count, the interface class and string index 1; its other bytes are left as they were |
| Blobs.DescsBlobEndpoint | src/libusbf.c:141-164 | endpoint j of block i has length 7, type ENDPOINT, endpoint j's address and type, and the maximum packet size for block i's speed |
| Blobs.IntervalIsFullSpeed | src/libusbf.c:147-163 | bInterval is the full-speed interval at every speed |
| Blobs.StringsLengthField | src/libusbf.c:176-177 | the strings header length is the buffer length whenever that fits in 32 bits |
| Blobs.StringsBlobLength | src/descs.h:89-91 | the strings blob is 16 + 2 + strlen + 1 bytes and ends in NUL |
| Blobs.StringsRoundTrip | src/libusbf.c:169-182 | parsing the strings blob gives back the string it was built from |
| Blobs.ParseStringsExact | src/libusbf.c:169-182 | a blob that parses is exactly the strings blob of what it parses to |
| Buffers.DescsBuffer.Alloc | src/descs.h:39-48 | sets the length either way; returns 0 and a fresh buffer of that length when malloc succeeds, -ENOMEM otherwise |
| Buffers.StringsBuffer.Alloc | src/descs.h:87-94 | sets the length to 16 + 2 + str_length + 1 either way; returns 0 with a fresh buffer or -ENOMEM |
| Buffers.StringsBuffer.SetCode | src/descs.h:107-112 | writes the little-endian code into the two bytes at offset 16 and nothing else |
| Buffers.StringsBuffer.SetString | src/descs.h:114-123 | refuses with -EINVAL and writes nothing when the length differs; otherwise the string and its NUL fill the buffer from offset 18 to the end |
| Buffers.StoreLe32 | src/libusbf.c:121-128 | a 32-bit little-endian store changes exactly its four bytes |
| Buffers.StoreInterface | src/libusbf.c:135-140 | the interface fields are written and every other byte is kept |
| Buffers.StoreEndpoint | src/libusbf.c:141-164 | the endpoint fields for the given speed are written and every other byte is kept |
| Builder.FillHeader | src/libusbf.c:120-124 | the first twelve bytes become magic, length and flags; the rest is kept |
| Builder.FillCounts | src/libusbf.c:126-129 | after the count loop the buffer agrees with the image up to the first interface |
| Builder.NextSpeed | src/libusbf.c:132-133 | the shift loop finds the i-th listed speed |
| Builder.FillBlock | src/libusbf.c:131-165 | after one speed iteration the buffer agrees with the image up to the next block |
| Builder.FillDescs | src/libusbf.c:111-167 | the filled buffer is the descriptor image over the buffer's previous contents |
| Builder.FillStrings | src/libusbf.c:175-182 | the filled buffer is exactly the strings blob |
| Bind.EpPathsDistinct | src/libusbf.c:191-207 | different endpoint numbers give different file paths |
| Bind.EpPathFits | src/libusbf.c:184-189 | every path usbf_start prints fits the strlen + 6 byte buffer, NUL included |
| Bind.OpenCount | src/libusbf.c:206-213 | the endpoint loop opens every file up to and including the first failure, or all of them |
| Bind.EpOpens | src/libusbf.c:206-213 | the recorded descriptors are the open results in order; all but the last are valid, and the last is negative when the loop stopped early |
| Bind.WritesNeutral | src/libusbf.c:198-204 | writes acquire and release nothing |
| Bind.OpensAcquire | src/libusbf.c:206-213 | successful opens acquire exactly their descriptors, in order |
| Bind.FailedOpensAcquire | src/libusbf.c:206-213 | when an open fails, only the descriptors before it were acquired |
| Bind.ClosesRelease | src/libusbf.c:217-219 | closes release exactly their descriptors, in order |
| Bind.EndpointPhaseResources | src/libusbf.c:206-219 | a failed endpoint loop releases what it acquired in reverse order; a successful one holds exactly the endpoint descriptors |
| Bind.ControlPhaseResources | src/libusbf.c:198-219 | the same holds after the two blob writes |
| Bind.FilesPhaseFailure | src/libusbf.c:191-221 | when opening or configuring fails, the control file is closed too, last |
| Bind.FilesPhaseSuccess | src/libusbf.c:191-215 | on success the control file and every endpoint file stay open, and nothing was released |
| Bind.StartFailureUnwinds | src/libusbf.c:97-229 | every failing run of usbf_start releases exactly what it acquired, in reverse order |
| Bind.StartSuccessLeavesFilesOpen | src/libusbf.c:97-229 | a successful run frees its three buffers in reverse order and keeps the control and endpoint files open |
| Bind.StartFailureResult | src/libusbf.c:116-204 | a failing start returns -ENOMEM when an allocation fails, and otherwise the result of the failing ep0 open, descriptor write or strings write; past the allocations the ep0 result is stored |
| Bind.EndpointFailureResult | src/libusbf.c:206-211 | when endpoint file t is the first that fails to open, start returns that open's result and has stored the descriptors of files 1 .. t |
| Bind.StartSucceedsIff | src/libusbf.c:97-229 | usbf_start succeeds exactly when the three allocations, the open of ep0, both writes and every endpoint open succeed; it then returns the strings write's result and stores every descriptor |
| Bind.StopReleases | src/libusbf.c:231-238 | usbf_stop releases the endpoint files in order and then the control file |
| Bind.StartThenStopReleasesAll | src/libusbf.c:97-238 | a successful start followed by a stop releases everything the start acquired |
| Events.EncodeSetup | src/libusbf.c:276-282 | the SETUP packet is eight bytes |
| Events.DecodeSetup | src/libusbf.c:276-282 | the request fields are the first two bytes and three little-endian words, tied to the control file |
| Events.SetupRoundTrip | src/libusbf.c:276-282 | decoding an encoded request gives it back, whatever follows |
| Events.SetupCanonical | src/libusbf.c:276-282 | re-encoding a decoded packet gives its first eight bytes |
| Events.EventType | src/libusbf.c:268 | the event type is the byte at offset 8 of the record |
| Events.NoHandlerCallStalls | src/libusbf.c:269-279 | a SETUP with no setup handler gets the stall operation, never the ack |
| Events.RoundFacts | src/libusbf.c:264-295 | one pass makes one to three calls, all on the control file; a zero poll or a poll without POLLIN ends the loop with 0 after that one call; the pass stops exactly when poll reported nothing or its result is nonzero |
| Events.RoundOutcome | src/libusbf.c:264-293 | after a poll reporting input: a failed read is returned; a SETUP is stalled without a setup handler and the stall's result is returned, or the setup handler's result is; another event gives the event handler's result, or without one the read's byte count |
| Events.DrainPrefix | src/libusbf.c:264-294 | the loop goes on past every pass that does not stop it, making their calls in order before the rest of the drain |
| Events.DrainContinues | src/libusbf.c:264-295 | when no pass stops the loop, it makes every pass's calls and returns 0 |
| Events.DrainUsesControlFile | src/libusbf.c:254-296 | every call the drain makes is on the control file and calls only a handler that is registered |
| Events.DrainStopsAtFirstError | src/libusbf.c:254-296 | every checked result before the last is 0, and a nonzero return is the last call's result |
| Events.DrainZeroMeansNoFailure | src/libusbf.c:254-296 | a drain that returns 0 met no failing read or nonzero result |
| Events.DrainIdle | src/libusbf.c:264 | with no input pending the drain polls once and returns 0 |
| Usbf.FfsPathAlloc | src/libusbf.c:42-48 | the corrected path allocation holds the path and its NUL |
| Usbf.AsWrittenCopyOverflows | src/libusbf.c:42-48 | the allocation as written is one byte short of the copy for every path |
| Usbf.StrCopy | src/libusbf.c:48 | the block receives the path followed by NUL; bytes beyond it are kept |
| Usbf.Function.Create | src/libusbf.c:30-55 | refuses a mask with a bit outside 0x07 or none inside; frees the function when the path allocation fails; otherwise a valid function with flags = speed, no endpoints and a copy of the path, holding exactly the two blocks it allocated |
| Usbf.Function.AddEndpoint | src/libusbf.c:67-95 | checks the type before capacity, then the allocation, and changes nothing on refusal; otherwise appends an endpoint with address (count + 1) OR direction, keeps the table valid and holds one more block |
| Usbf.Function.Delete | src/libusbf.c:57-65 | frees the endpoints in order, then the path, then the function, releasing exactly the blocks the function holds |
| Usbf.DeleteReleasesHeld | src/libusbf.c:57-65 | the delete frees release every held block exactly once |
| Usbf.Function.OpenUntilFailure | src/libusbf.c:206-213 | opens endpoint files in order up to the first failure, storing each result in its endpoint, the failing one included |
| Usbf.Function.OpenEndpointFile | src/libusbf.c:207-208 | stores the open result for one endpoint and changes no other endpoint |
| Usbf.Function.CloseEndpointFiles | src/libusbf.c:217-219 | closes the endpoint files before the failing one, last first |
| Usbf.Function.OpenEndpointFiles | src/libusbf.c:206-219 | the endpoint loop and its unwinding make exactly the calls of the endpoint phase |
| Usbf.Function.RunControl | src/libusbf.c:198-213 | writes the two blobs and opens the endpoints, returning the first negative result or the strings write's result |
| Usbf.Function.OpenAndConfigure | src/libusbf.c:191-223 | opens ep0, stores its descriptor even on failure, and closes it when a later step fails |
| Usbf.Function.BuildDescs | src/libusbf.c:111-118 | returns -ENOMEM when the allocation fails, otherwise the descriptor blob |
| Usbf.Function.BuildStrings | src/libusbf.c:169-182 | returns -ENOMEM when the allocation fails, otherwise the strings blob |
| Usbf.Function.Start | src/libusbf.c:97-229 | returns the result and makes the calls of the reference bind; stores the ep0 descriptor when it got that far and the endpoint descriptors that were opened; all are stored on success |
| Usbf.SuccessStoresAll | src/libusbf.c:206-215 | after a successful bind no endpoint keeps its old descriptor |
| Usbf.Function.Stop | src/libusbf.c:231-238 | closes every endpoint file in order, then the control file |
| Usbf.Function.HandleEvents | src/libusbf.c:254-296 | the loop returns the result and makes the calls of the reference drain |
| Usbf.OpenCountStops | src/libusbf.c:206-213 | the loop opens up to the first failing file, or all files when none fails |
| Usbf.OpensStopped | src/libusbf.c:206-213 | a run of successful opens, or one ending at the first failure, is what the endpoint loop records |
| Usbf.TableSnoc | src/libusbf.c:91-92 | appending an entry with the next address and an accepted type keeps the table well formed |
| Usbf.CreateUnwinds | src/libusbf.c:42-46 | a failed path allocation releases the function block it acquired |

## Left out

- Operating-system calls (`malloc`, `free`, `open`, `read`, `write`,
  `close`, `poll`) are parameters. `Bind.Env` answers allocations, opens and
  writes, and `Events.Round` gives the poll and read results of each loop
  pass. The model records the calls as a trace. FunctionFS itself is not
  modelled.
- The bytes of a fresh `malloc` block come from the `junk` oracle. Bytes
  the library never writes (bInterfaceNumber, bAlternateSetting, subclass,
  protocol) keep those values and have no value stated for them.
- `Usbf.Endpoint.constructor`: the endpoint file is uninitialised in C
  until `usbf_start`; the model starts it at -1.
- `Usbf.Function.constructor`: the control file `ep0_file` is uninitialised
  in C after the allocation in `usbf_create_function` until `usbf_start`
  stores it. The model starts it at -1, so `Usbf.Function.Stop` or
  `Usbf.Function.HandleEvents` before a start act on -1, where the C code
  uses an indeterminate value.
- `Usbf.Function`: the fixed array of sixteen endpoint pointers with
  `ep_count` is a sequence of endpoint objects. Its length is at most sixteen.
- `Usbf.Function.Create`: the path copy is the corrected strlen + 1 block
  (see Findings). The model does not model the byte written past the end
  by the code as written.
- A path containing NUL is copied whole. C's `strlen` would stop at the first NUL.
- `Usbf.Function.HandleEvents`: an exhausted queue of rounds ends the loop
  with 0, as a poll that reports nothing would. `revents` is read only when
  poll returns nonzero.
- The event read asks for one 12-byte record, and any non-negative result
  is accepted, as the code accepts it: a short read dispatches on whatever
  record the environment supplies, and a record with no event handler
  returns the read's byte count (`Events.RoundOutcome`). What the kernel
  leaves in the rest of the buffer after a short read is not modelled
  beyond that record.
- Handler bodies are foreign code. Only their integer results are
  modelled, as functions in the function descriptor. A handler that calls
  ack, response or stall does so outside the model.
- `Dispatch.Transfer`: the read and write themselves, and their data, are
  not modelled. Only the chosen operation and the -EINVAL refusal are.
- Host byte order: every `htole`/`le..toh` is the little-endian encoding.
  The strings header length is stored without conversion, which is the same
  on a little-endian host.
- Concurrency: the library is single-threaded and blocking.
- The sourcesink demonstration program (`sourcesink.c`) is not part of this
  model. `include/libusbf.h` and `src/libusbf_private.h` provide declarations
  and constants only.
- The model keeps these behaviours of the code as they are:
  - a SETUP with no setup handler gets the stall operation, the zero-length
    call in the data direction (`Events.NoHandlerCallStalls`);
  - bInterval is the full-speed interval at every speed (`Blobs.IntervalIsFullSpeed`);
  - a failed bind leaves the failing descriptors stored in the function
    (`Usbf.Function.Start`).

## Findings

| source | as written | input that shows it | evidently intended | confidence | as-written member | corrected member |
|---|---|---|---|---|---|---|
| src/libusbf.c:42 | `malloc(strlen(path))` for the copy made by `strcpy` at line 48 | any path, e.g. "/dev/ffs": an 8-byte block receives 9 bytes | `malloc(strlen(path) + 1)` | high; not executed | Usbf.AsWrittenCopyOverflows | Usbf.FfsPathAlloc |
