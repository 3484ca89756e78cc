# Verified models of 386BSD's header-file machinery

Much of what 386BSD programs run is code in header files: macros that carve
objects out of memory, batch X requests, twiddle bits and move bytes through
stdio buffers. This project models that code, together with the library
functions it falls back on, and proves what the headers promise about it, for
every input and for runs of any length.

| files | what they model |
|---|---|
| `Bits.dfy`, `Bytes.dfy` | C's bitwise operators on unbounded integers; bytes and partly determined memory |
| `ObstackModel.dfy`, `ObstackSafety.dfy`, `ObstackRuns.dfy` | what obstack operations do, the invariant they keep, theorems about whole runs |
| `Obstack.dfy` | the obstack as it runs: both macro families, `_obstack_newchunk`, `obstack_free` |
| `XStream.dfy`, `XDisplay.dfy` | what an X client says, and the output buffer that says it |
| `BitString.dfy` | bit strings in byte arrays |
| `StdioModel.dfy`, `StdioSafety.dfy`, `StdioDevice.dfy`, `Stdio.dfy` | getc and putc with the libc functions behind them, and what the device's answers make of them |
| `Tuner.dfy`, `AOut.dfy`, `Fonts.dfy` | video timing, a.out layout, font metric lookup |

`dafny verify dfyconfig.toml` checks everything.

## How the models are built

Where the source updates things in place, the model is a class or a method over
an array, and its contract equates the new state with a function of the old one
(`Meaning`, `Putc`, `Say`, set union and difference). The theorems are lemmas
about those functions, or methods that perform an arbitrary sequence of
operations and state what holds afterwards.

Input from outside is a parameter or part of the state, so that every behaviour
of it is covered: what `obstack_chunk_alloc` returns (`reply`, 0 for no memory),
how much each `_write` accepts and what each `_read` returns (`Device`).

Assumptions:

- `_XFlush` and `_XSend` are not part of this repository. They are given the
  obvious bodies: send what is pending and reset the buffer; the second also
  sends the data and a pad to a word boundary.
- `_obstack_newchunk` and `obstack_free` follow `usr/src/usr.bin/grep/obstack.c`.
  That file predates the `alloc_failed` flag of the header, and no other file of
  the repository sets it. The model sets the flag, and nothing else, when the chunk
  function returns 0, as the comment on the field says. That a chunk granted later
  clears it is assumed, and nothing in the repository says so.
- The chunk function returns memory that overlaps no chunk the obstack holds.
  Nothing is assumed about its alignment.
- Addresses and lengths are unbounded non-negative integers; the 32-bit
  wrap-around that matters (request counts, request lengths, a.out sizes) is
  written out.

Findings, each stated as an exact condition:

- An obstack does not align the first object of a chunk: the contents of a chunk
  start 8 bytes into it, and `obstack_finish` rounds only the ends of objects. A
  non-empty object is aligned exactly when it is not the first of its chunk or the
  contents of that chunk are aligned (`AlignedExactlyWhen`); all of them are when
  the chunk function sees to that (`NonEmptyObjectsAligned`). Alignment 16 with a
  chunk on a multiple of 16 fails (`FirstObjectMisaligned`, `FirstCopyMisaligned`).
- After a failed allocation an obstack takes nothing more until a chunk is granted,
  however well it would fit: appends are dropped and finishes return 0
  (`FailureLasts`, `FittingAppendDropped`). Memory holds everything appended exactly
  when no append found the flag set (`CompleteExactlyWhen`).
- Freeing back to an object's address does not restore `maybe_empty_object` when
  one of the objects freed was empty (`FreeThenReplay` has the exact condition,
  `FlagNotRestored` an input).
- `Data` tests the unpadded length and advances by the padded one. It moves `bufptr`
  out of the buffer exactly when the data fit in the room left and the pad does not
  (`LeavesExactlyWhen`), which some data do exactly when the room is not in whole
  words (`SomeDataLeaves`). It never happens while `BufAlloc` is used for whole
  words (`WholeWordsStayIn`). The header asks callers of `BufAlloc` to leave the
  buffer aligned; making requests whole words does not ensure it, because a flush
  can come between the parts of one (`PartedRequestLeaves`).
- `bit_nset` and `bit_nclear` are right exactly when the byte of `stop` is not
  before the byte of `start` (`TouchedIsRange`); for a start beyond a stop in an
  earlier byte they change bits that are in no range (`ReversedRange`).
- `bit_ffs` and `bit_ffc` scan the whole byte that holds bit `nbits`. A call reads
  behind the array exactly when the array ends before that byte and holds no
  match; this happens to some array of `bitstr_size(nbits)` bytes exactly when
  `nbits` is a multiple of 8 (`SizedArrayMayOverrun`, `OverrunAtEightBits`). The
  answer is about the first `nbits` bits, whatever they are, exactly when the rest
  of the last byte holds no match (`AnswersExactlyWhen`, `AnswerBeyondNbits`).
- `N_SYMOFF` does not round the text size of a demand-loaded file as `N_DATOFF`
  does, so the regions of the file tile exactly when there is nothing to round
  (`TilesExactlyWhen`). `SymbolsOverlapExactlyWhen` says when symbols and data
  share bytes, and `RaggedTextOverlaps` gives a file in which they do.
- The 1D macros read the default character as a column and the 2D macros as a row
  and a column. On a font with one row they agree exactly under the condition of
  `DefaultsAgreeExactlyWhen`; a font whose one row is not the high byte of the
  default character fails (`DefaultsDifferElsewhere`, `DefaultsDifferInRowOne`).

## Model

| member | source | states |
|---|---|---|
| ObstackRuns.RunSafe | usr/local/include/obstack.h:26-31 | every run of appends, finishes, frees, stores of the user into live objects and the growing one, and stores by other code keeps object_base <= next_free <= chunk_limit, every live object inside its chunk with the bytes put into it, and the stack order of objects |
| ObstackRuns.NoOverlap | usr/local/include/obstack.h:86-97 | in every reachable state, each live object overlaps neither any other one nor the growing object nor the free space |
| ObstackRuns.ObjectsPersist | usr/local/include/obstack.h:26-31 | finished objects keep their addresses and all their bytes, but for what the user himself stores into them, through any run that frees no address among theirs, including changes of chunk and failed allocations |
| ObstackRuns.ContentsPersist | usr/local/include/obstack.h:70-75 | what was appended to an object before it was finished, or stored into it since, is in memory at its address at the end of any such run |
| ObstackRuns.NoStoresNoChange | usr/local/include/obstack.h:26-31 | an object that the user does not store into is the same at the end of a run |
| ObstackRuns.GrowingIsContiguous | usr/local/include/obstack.h:70-80 | memory from object_base to next_free is everything appended and stored since the last finish, contiguous and in order, through any number of moves to new chunks, if every request for memory was granted |
| ObstackRuns.CompleteExactlyWhen | usr/local/include/obstack.h:292-361 | over any run of appends and stores, granted or not, memory from object_base to next_free is everything appended and stored exactly when no append found alloc_failed set |
| ObstackRuns.FailureLasts | usr/local/include/obstack.h:292-402 | from a failed allocation until a chunk is granted, over any run, the flag stays set, every finish returns 0, the live objects are some of those there were, in place and as long as before, and the growing object is as long as before or, after a free, empty |
| ObstackRuns.FailureFreezes | usr/local/include/obstack.h:292-402 | over such a run without a free the control block does not change |
| ObstackRuns.FittingAppendDropped | usr/local/include/obstack.h:292-326 | after a refused request for 5000 bytes, the append of one byte that fits changes nothing, while before it the byte is taken |
| ObstackRuns.NonEmptyObjectsAligned | usr/src/usr.bin/grep/obstack.c:84-84 | despite the clamp at the chunk end, every non-empty object of any run is aligned if the contents of every chunk granted are |
| ObstackRuns.AlignedExactlyWhen | usr/local/include/obstack.h:383-402 | a non-empty object of any run is aligned exactly when it is not the first of its chunk or the contents of that chunk are aligned |
| ObstackRuns.FirstObjectMisaligned | usr/src/usr.bin/grep/obstack.c:119-124 | with alignment 16, a chunk on a multiple of 16 and one append, the first object is not aligned |
| Obstacks.FirstCopyMisaligned | usr/src/usr.bin/grep/obstack.c:119-124 | the same by the macros: in a new obstack with alignment 16 and its chunk at 16, obstack_copy of one byte returns 24 |
| ObstackRuns.RunBalanced | usr/src/usr.bin/grep/obstack.c:184-239 | over every run the chunks obtained are, as a multiset, those given back and those held |
| ObstackRuns.ReleasedExactlyWhen | usr/src/usr.bin/grep/obstack.c:226-233 | after any run, the chunk that the growing object leaves is given back exactly when no live object is in it and maybe_empty_object is clear |
| ObstackRuns.RunTight | usr/src/usr.bin/grep/obstack.c:226-238 | in every reachable state with maybe_empty_object clear, the current chunk has an object or the growing object at its very start |
| ObstackRuns.AppendAsksFor | usr/src/usr.bin/grep/obstack.c:192-238 | what does not fit asks for a chunk of chunk_size bytes or, if that is too little, of the object, the new bytes, an eighth of the object and 100; the object starts that chunk and the flags are clear |
| ObstackRuns.FittingAppendStays | usr/local/include/obstack.h:296-302 | what fits asks for no chunk and moves nothing |
| ObstackRuns.FinishPlacesNext | usr/local/include/obstack.h:394-400 | the next object starts at the least aligned address not below the end of the last, or at the end of the chunk if that comes first |
| ObstackRuns.FreeAllReturnsEverything | usr/src/usr.bin/grep/obstack.c:265-303 | freeing the null pointer after any run gives back exactly the chunks still held |
| ObstackRuns.AbortExactlyWhen | usr/src/usr.bin/grep/obstack.c:281-302 | the chain is used up exactly when no chunk holds the address |
| ObstackRuns.FreeRemovesExactly | usr/local/include/obstack.h:404-410 | freeing a live object removes exactly the objects at or above its address in its chunk and those of newer chunks |
| ObstackRuns.FreeThenReplay | usr/local/include/obstack.h:95-97 | freeing the first of several objects that fit in the chunk restores everything but the contents of memory and maybe_empty_object, the latter exactly when it was already set or none of the objects was empty; the same operations then return the same addresses |
| ObstackRuns.FlagNotRestored | usr/local/include/obstack.h:387-410 | finishing an empty object in a new obstack and freeing it sets maybe_empty_object and changes nothing else |
| ObstackSafety.NewChunkInv | usr/src/usr.bin/grep/obstack.c:206-238 | moving the growing object to a new chunk disturbs no live object, although the old chunk is given back when it is empty and maybe_empty_object is clear |
| ObstackSafety.FreeCuts | usr/src/usr.bin/grep/obstack.c:281-303 | both paths of obstack_free cut the chain behind the chunk of a live object and resume allocation at its address |
| ObstackSafety.StepSafe | usr/local/include/obstack.h:292-410 | each single operation keeps the invariant and the bytes of the objects that survive it, but for one that the user stores |
| Obstacks.Obstack.constructor | usr/src/usr.bin/grep/obstack.c:88-130 | a new obstack satisfies the invariant, is aligned, owns the one chunk it was given with allocation at its contents, and has the default size and alignment where 0 was given |
| Obstacks.Obstack.MoveObject | usr/src/usr.bin/grep/obstack.c:206-224 | the word loop and the byte loop together copy the whole object and nothing else |
| Obstacks.Obstack.NewChunkSlow | usr/src/usr.bin/grep/obstack.c:184-239 | the new control block and memory are those of the specification, and temp is untouched |
| Obstacks.Obstack.FreeSlow | usr/src/usr.bin/grep/obstack.c:307-337 | chunks are given back from the newest until one holds the address; it aborts exactly when none does and the address is not null |
| Obstacks.Obstack.GnuGrow | usr/local/include/obstack.h:292-303 | appends the bytes, after a change of chunk if they do not fit, or nothing if an allocation failed |
| Obstacks.Obstack.GnuGrow0 | usr/local/include/obstack.h:305-317 | appends the bytes and a null byte |
| Obstacks.Obstack.Gnu1Grow | usr/local/include/obstack.h:319-326 | appends one byte |
| Obstacks.Obstack.GnuPtrGrow | usr/local/include/obstack.h:332-339 | appends a pointer; see CallStores for its bytes |
| Obstacks.Obstack.GnuIntGrow | usr/local/include/obstack.h:341-348 | appends an int; see CallStores for its bytes |
| Obstacks.Obstack.GnuBlank | usr/local/include/obstack.h:353-361 | appends bytes whose values are left as they are |
| Obstacks.Obstack.GnuFinish | usr/local/include/obstack.h:383-402 | returns the object's address, or 0 after a failed allocation; notes an empty object; the next one starts aligned or at the chunk end; see CallIsRun and FinishPlacesNext |
| Obstacks.Obstack.GnuAlloc | usr/local/include/obstack.h:363-367 | blank, then finish |
| Obstacks.Obstack.GnuCopy | usr/local/include/obstack.h:369-373 | grow, then finish |
| Obstacks.Obstack.GnuCopy0 | usr/local/include/obstack.h:375-379 | grow0, then finish |
| Obstacks.Obstack.GnuFree | usr/local/include/obstack.h:404-410 | resets the object inside the current chunk, else walks the chain |
| Obstacks.Obstack.PortableGrow | usr/local/include/obstack.h:426-432 | the same state as the GNU form, by way of temp |
| Obstacks.Obstack.PortableGrow0 | usr/local/include/obstack.h:434-441 | the same state as the GNU form, by way of temp |
| Obstacks.Obstack.Portable1Grow | usr/local/include/obstack.h:443-447 | the same state as the GNU form |
| Obstacks.Obstack.PortablePtrGrow | usr/local/include/obstack.h:449-453 | the same state as the GNU form, although it advances before it stores |
| Obstacks.Obstack.PortableIntGrow | usr/local/include/obstack.h:455-459 | the same state as the GNU form, although it advances before it stores |
| Obstacks.Obstack.PortableBlank | usr/local/include/obstack.h:464-469 | the same state as the GNU form, by way of temp |
| Obstacks.Obstack.PortableFinish | usr/local/include/obstack.h:480-493 | the same state and address as the GNU form, the address by way of temp |
| Obstacks.Obstack.PortableAlloc | usr/local/include/obstack.h:471-472 | blank, then finish |
| Obstacks.Obstack.PortableCopy | usr/local/include/obstack.h:474-475 | grow, then finish |
| Obstacks.Obstack.PortableCopy0 | usr/local/include/obstack.h:477-478 | grow0, then finish |
| Obstacks.Obstack.PortableFree | usr/local/include/obstack.h:495-509 | the same state as the GNU form, by way of a signed offset from the chunk |
| Obstacks.RunBoth | usr/local/include/obstack.h:271-511 | from equal states, any sequence of calls leaves both families with equal memory and equal control blocks except temp, and returns the same addresses |
| Obstacks.CallsAreRun | usr/local/include/obstack.h:292-410 | any sequence of macro calls reaches the final state of one of the runs that the theorems above are about |
| Obstacks.LogOfCalls | usr/local/include/obstack.h:292-410 | and the stack of live objects of that run |
| Obstacks.CallsReturnNewest | usr/local/include/obstack.h:383-402 | over any sequence, each call that finishes an object returns null, with no object made, exactly when alloc_failed is set after its append, and else the address of the one object that the call has added to the live ones |
| Obstacks.CallIsRun | usr/local/include/obstack.h:292-410 | a macro call is a run of operations; a call that finishes an object returns null exactly when alloc_failed is set after its append, and else the address of one new object |
| Obstacks.CallStores | usr/local/include/obstack.h:292-379 | what a call appends is in memory behind what the object had, at the address returned if it finishes: the data, a null byte after those of grow0 and copy0, and for ptr_grow and int_grow four bytes that read back, low byte first, as the number |
| Bytes.Little32RoundTrip | usr/local/include/obstack.h:332-348 | the four bytes of a stored word read back as the number modulo 2^32, low byte first |
| XDisplay.Display.GetReq | usr/X386/include/X11/Xlibint.h:189-197 | the stream grows by one request of the given type and size, from any buffer position; bufptr moves on by the size, after a flush where it would not fit, and stays in the buffer; request counts one more modulo 2^32 |
| XDisplay.Display.GetReqExtra | usr/X386/include/X11/Xlibint.h:215-223 | the same for a request with extra bytes, which its length covers |
| XDisplay.Display.GetResReq | usr/X386/include/X11/Xlibint.h:244-253 | the same for a two-word request that carries a resource ID |
| XDisplay.Display.GetEmptyReq | usr/X386/include/X11/Xlibint.h:272-280 | the same for a one-word request |
| XDisplay.Display.Data | usr/X386/include/X11/Xlibint.h:309-314 | from any buffer position, bufptr leaves the buffer exactly when the data fit in the room left and their pad does not; otherwise the stream grows by the data and a pad to a word boundary |
| XDisplay.Display.BufAlloc | usr/X386/include/X11/Xlibint.h:318-336 | the stream grows by n bytes, for any n that an empty buffer holds, which the client can still fill in |
| XDisplay.Display.Run | usr/X386/include/X11/Xlibint.h:189-336 | every run, from an empty stream, stays in the buffer exactly when the pointer arithmetic does; then flushed and pending bytes together are what the client said, and request counts the requests |
| XDisplay.PointerMoves | usr/X386/include/X11/Xlibint.h:189-336 | bufptr moves over the bytes of a step, after a flush exactly when they do not fit; Data that do not fit are sent at once |
| XDisplay.LeavesExactlyWhen | usr/X386/include/X11/Xlibint.h:309-336 | a step takes bufptr out of the buffer exactly when it is a Data whose bytes fit in the room left and whose pad does not |
| XDisplay.SomeDataLeaves | usr/X386/include/X11/Xlibint.h:309-314 | some data take bufptr out of the buffer exactly when the room left is not in whole words |
| XDisplay.WholeWordsStayIn | usr/X386/include/X11/Xlibint.h:299-336 | when BufAlloc is used for whole words only, every run stays in the buffer, with bufptr on a word boundary |
| XDisplay.PartedRequestIsWords | usr/X386/include/X11/Xlibint.h:318-321 | a request made of an empty request and BufAllocs of 2, 3 and 3 bytes is three words long |
| XDisplay.PartedRequestLeaves | usr/X386/include/X11/Xlibint.h:318-336 | in a buffer of 8 bytes that request leaves bufptr at 6, because a flush comes between its parts, and one byte of Data then takes bufptr to 10 |
| XDisplay.CountedIsCount | usr/X386/include/X11/Xlibint.h:197-197 | request grows by the number of requests issued, modulo 2^32 |
| XDisplay.RunAndSplit | usr/X386/include/X11/Xproto.h:1273-1278 | over every run that stays in the buffer, flushed and pending bytes split by their length fields alone into exactly the requests issued, in order; each packet has the type, the resource ID, the data and the client's stores of its request where they belong |
| XDisplay.RunTwo | usr/X386/include/X11/Xlibint.h:299-315 | with any two buffer sizes in which the steps stay, they give streams of equal length that are equal in every byte a macro or the client stored |
| XStream.RequestsRecovered | usr/X386/include/X11/Xproto.h:1273-1278 | any stream that agrees with what a client said splits, by length fields alone, into one packet per request, in order, if each length field covers its request |
| XStream.StepArrives | usr/X386/include/X11/Xlibint.h:189-336 | what each macro puts into the buffer is in the frame of its request at the place where the bytes before it end, but for what the client stores there before its next call |
| XStream.ClientIsHeard | usr/X386/include/X11/Xlibint.h:189-336 | packets that carry the frames have, for every step, the request type in byte 0, the resource ID in bytes 4 to 7 low byte first, the data, and the values that the client stored |
| XStream.PlainIsTruthful | usr/X386/include/X11/Xlibint.h:189-280 | that condition holds for every sequence of request macros and stores outside the length field |
| XStream.SplitRecoversFrames | usr/X386/include/X11/Xproto.h:1273-1278 | any bytes that agree with well-framed requests split into exactly those requests |
| XStream.SplitExactlyWhen | usr/X386/include/X11/Xproto.h:1273-1278 | bytes that agree with requests whose length fields are stored split into those requests exactly when every length field is the length of its request |
| XStream.PacketsTellLength | usr/X386/include/X11/Xproto.h:1273-1278 | every packet that a stream splits into is as long as its length field says |
| XStream.RequestsWellFramed | usr/X386/include/X11/Xlibint.h:189-280 | requests made by the macros and filled in outside the length field are well framed, one frame per request |
| XStream.LengthThenData | usr/X386/include/X11/Xlibint.h:299-315 | a request whose client stores the length of request and data before calling Data is well framed |
| XStream.LengthFieldLimit | usr/X386/include/X11/Xlibint.h:195-195 | a request is read back as itself exactly when its size is below 2^16 words |
| XStream.NextWord | usr/X386/include/X11/Xlibint.h:312-312 | the pad expression rounds up to the next multiple of 4 |
| BitString.BitTest | usr/src/include/bitstring.h:68-69 | the masked byte is non-zero exactly when the bit is in the set |
| BitString.BitSet | usr/src/include/bitstring.h:72-73 | the array stands for the old set with the bit added |
| BitString.BitClear | usr/src/include/bitstring.h:76-77 | the array stands for the old set with the bit removed |
| BitString.BitNClear | usr/src/include/bitstring.h:80-94 | for both orders of the ends and any byte alignment, exactly the touched bits are removed |
| BitString.BitNSet | usr/src/include/bitstring.h:97-111 | for both orders of the ends and any byte alignment, exactly the touched bits are added |
| BitString.TouchedIsRange | usr/src/include/bitstring.h:80-111 | the touched bits are start to stop exactly when the byte of stop is not before the byte of start |
| BitString.ReversedRange | usr/src/include/bitstring.h:97-111 | whatever bit_nset from 8 to 0 leaves of two bytes of zeros is 1 and 255, although no bit is in that range |
| BitString.RangeIsLoop | usr/src/include/bitstring.h:80-111 | the range forms leave the same array as a loop of single-bit operations |
| BitString.Run | usr/src/include/bitstring.h:68-111 | through every run, reversed ranges included, the array stands for the set that plain set operations on single bits and on the bits selected by ranges give |
| BitString.BitFfc | usr/src/include/bitstring.h:114-126 | terminates; reads behind the array exactly when the array ends before the byte of nbits and holds no clear bit, and otherwise returns the least clear bit of the bytes scanned, or -1 |
| BitString.BitFfs | usr/src/include/bitstring.h:129-141 | terminates; reads behind the array exactly when the array ends before the byte of nbits and holds no set bit, and otherwise returns the least set bit of the bytes scanned, or -1 |
| BitString.AnswersExactlyWhen | usr/src/include/bitstring.h:114-141 | the answer is the least matching bit below nbits, or -1, for every content of the first nbits bits, exactly when the rest of the last byte holds no match |
| BitString.AnswerBeyondNbits | usr/src/include/bitstring.h:129-141 | a clear string of one bit in a byte of value 128, for which bit_ffs answers 7 |
| BitString.SizedArrayMayOverrun | usr/src/include/bitstring.h:55-56 | some array of bitstr_size(nbits) bytes makes a search read behind it exactly when nbits is a multiple of 8 |
| BitString.OverrunAtEightBits | usr/src/include/bitstring.h:114-141 | with nbits 8, the one-byte arrays 0 for bit_ffs and 255 for bit_ffc are overrun, and 1 for bit_ffs is not |
| BitString.BitstrSizeIsLeast | usr/src/include/bitstring.h:55-56 | bitstr_size is the least number of bytes that hold nbits bits |
| BitString.FfcIsFfsOfComplement | usr/src/include/bitstring.h:113-141 | bit_ffc is bit_ffs on the complemented array, in its answers and in when it reads behind the array |
| BitString.MembersDetermine | usr/src/include/bitstring.h:44-51 | arrays of equal length that stand for equal sets are equal |
| StdioModel.FastPutIsSafe | usr/src/include/stdio.h:313-318 | a fast store happens only in write mode, inside the buffer, and is never a newline on a line-buffered stream |
| StdioModel.FastGetIsSafe | usr/src/include/stdio.h:311-311 | a fast read happens only in read mode and inside the buffer |
| StdioSafety.DoInv | usr/src/include/stdio.h:73-83 | getc and putc, slow paths included, keep the facts that the header says always hold |
| StdioSafety.RunConserves | usr/src/include/stdio.h:73-83 | over every interleaving of getc and putc, flushed plus buffered bytes are the bytes put, in order, unless a flush failed |
| StdioSafety.RunReads | usr/src/lib/libc/stdio/refill.c:60-128 | over every interleaving, getc returns what the device delivered, in order, the rest waiting in the buffer, unless a switch to write mode dropped it |
| StdioSafety.RunCounts | usr/src/include/stdio.h:311-318 | over every interleaving, failed flushes and mode switches included, bytes out, waiting and lost are the bytes putc accepted and those it took and lost at once, and bytes delivered are those returned, dropped and waiting |
| StdioSafety.GettingSkipsNothing | usr/src/lib/libc/stdio/refill.c:60-128 | a stream that is only read drops no input |
| StdioSafety.PutcReads | usr/src/lib/libc/stdio/wsetup.c:60-72 | a putc reads nothing, and drops input only by leaving read mode |
| StdioSafety.PutcConserves | usr/src/lib/libc/stdio/wbuf.c:49-88 | a putc adds its byte to the output; it returns EOF exactly when the stream cannot be written or bytes were lost |
| StdioSafety.GetcConserves | usr/src/lib/libc/stdio/refill.c:74-103 | a getc, even one that has to leave write mode, leaves the output as it was |
| StdioSafety.GetcReads | usr/src/lib/libc/stdio/rget.c:48-56 | a getc returns the oldest byte delivered and not yet returned, drops none, and returns EOF exactly when none was waiting and the device delivered none |
| StdioDevice.GetcAnswers | usr/src/lib/libc/stdio/refill.c:60-128 | in terms of the answers of _read alone: getc returns a waiting byte, or else asks, if it may, and returns the first byte of the answer, of which as much as fits the buffer is delivered; it returns EOF and sets eof exactly for end of file, and err exactly for an error or a refused flush |
| StdioDevice.RunDelivers | usr/src/lib/libc/stdio/refill.c:60-128 | over every interleaving, the bytes delivered are the parts that fit the buffer of the answers given so far, in order |
| StdioDevice.GettingReturnsAnswers | usr/src/lib/libc/stdio/refill.c:60-128 | a stream that is only read returns those bytes, in order; the last of them may be waiting |
| StdioSafety.NewlineFlushes | usr/src/lib/libc/stdio/wbuf.c:44-48 | a newline put to a line-buffered stream leaves nothing in the buffer |
| StdioSafety.WriteAllSplits | usr/src/lib/libc/stdio/fflush.c:59-89 | a flush hands over a prefix of the buffer and loses the rest, and touches nothing else of the device |
| StdioDevice.WritesExactly | usr/src/lib/libc/stdio/fflush.c:59-89 | in terms of the answers of _write alone: all is written and nothing lost unless a call is refused before the calls have taken it all, and else what they took before that; and how many calls it takes |
| StdioDevice.PutcSucceeds | usr/src/lib/libc/stdio/wbuf.c:49-88 | on a writable stream whose device refuses no call, putc returns its byte |
| StdioDevice.RunWritesAll | usr/src/lib/libc/stdio/wbuf.c:49-88 | over every interleaving on such a stream, all the bytes put are out or waiting, in order, and none is lost |
| StdioDevice.PutcBuffers | usr/src/include/stdio.h:313-318 | while there is room putc only stores its byte, unless the stream is unbuffered or the byte ends a line of a line-buffered one |
| StdioDevice.PutcSends | usr/src/lib/libc/stdio/wbuf.c:69-86 | in those cases it sends all that is pending and its byte, and returns EOF exactly when not all of it is taken |
| StdioDevice.PutcMakesRoom | usr/src/lib/libc/stdio/wbuf.c:69-86 | a full buffer is sent first, and the byte is put only if all of it was taken |
| StdioDevice.FirstPut | usr/src/lib/libc/stdio/makebuf.c:56-84 | the first putc makes the buffer of the device's size, and makes a terminal line buffered: a newline goes out at once, other bytes wait |
| StdioDevice.PutcLeavesReading | usr/src/lib/libc/stdio/wsetup.c:60-72 | a putc in read mode leaves it, forgets end of file and drops exactly what was waiting |
| Stdio.File.WriteLoop | usr/src/lib/libc/stdio/fflush.c:81-87 | the loop over partial writes does what the specification does, which WritesExactly pins down |
| Stdio.File.Flush | usr/src/lib/libc/stdio/fflush.c:59-89 | the new stream state, and success exactly when nothing was lost; see WritesExactly |
| Stdio.File.Fflush | usr/src/lib/libc/stdio/fflush.c:45-57 | fflush keeps the invariant, leaves nothing pending and sends what the device takes of it; EOF exactly when the stream cannot be written or bytes were lost |
| Stdio.File.MakeBuffer | usr/src/lib/libc/stdio/makebuf.c:56-84 | a buffer of the device's block size, line buffering for terminals, or one byte unbuffered |
| Stdio.File.Setup | usr/src/lib/libc/stdio/wsetup.c:50-90 | leaves read mode and sets up write mode, or fails exactly on streams opened for reading only |
| Stdio.File.SGetc | usr/src/include/stdio.h:311-311 | the stream invariant is kept, the output is as before, and the value is the oldest byte waiting or else the first byte of what the device answers, with end of file and errors told apart |
| Stdio.File.SPutcInline | usr/src/include/stdio.h:313-318 | the stream invariant is kept, no input is returned, the byte is added to the output, and EOF is returned exactly when the stream cannot be written or bytes were lost |
| Stdio.File.SPutcMacro | usr/src/include/stdio.h:323-330 | the same state and value as the inline form, although it stores before it tests, and the same promises |
| Stdio.UseFile | usr/src/include/stdio.h:311-331 | any use of getc and either putc on a file returns the specified values and leaves the specified stream, with the invariant; what putc accepted is out or waiting, in order, unless a flush failed, and if the device refuses no call that is every byte put; what came in is what fits of the device's answers, and was returned, in order, or is waiting, unless a switch to write mode dropped it |
| Stdio.RunBoth | usr/src/include/stdio.h:312-331 | used in the same places over any run, both forms return the same values, those of the specification, and leave equal streams |
| Stdio.SwbufIgnoresFirstFree | usr/src/lib/libc/stdio/wbuf.c:76-83 | __swbuf, for any byte, does not depend on the byte already stored at the buffer position |
| Tuner.HorizontalTiming | usr/X386/tuner/tuner.c:43-65 | all values are multiples of 8, the front porch is at least 8, the back porch at least 16 and 0, 8 or 16 more than twice the front; the frame is enlarged exactly when the resolution exceeds the recommended maximum, which is the line estimated from the clock and the line frequency less the sync pulse and 24 |
| Tuner.FrontPorchOf | usr/X386/tuner/tuner.c:57-58 | the first try at the front porch is below 8 exactly when the spare time is below 24 |
| Tuner.ToIntTruncates | usr/X386/tuner/tuner.c:43-58 | the conversion to int loses less than 1, towards zero |
| AOut.PageRoundIsAlignPower | usr/src/include/a.out.h:57-59 | for every 32-bit size the page rounding is align_power with exponent 12, that is rounding up modulo 2^32 |
| AOut.AlignPowerRoundsUp | usr/local/include/bfd.h:269-270 | modulo 2^32, align_power is a multiple that is not below the address and the least such |
| AOut.DataFollowsText | usr/src/include/a.out.h:57-59 | data starts at the end of the text or, unless the text is impure, at the first page boundary from there |
| AOut.Layout | usr/src/include/a.out.h:62-76 | without overflow, text starts at byte 32 or, in a demand-loaded file, at 4096; data follow it at once or on the first page boundary; symbols and strings are where the sizes add up |
| AOut.TilesExactlyWhen | usr/src/include/a.out.h:62-76 | without overflow, text, data, relocations, symbols and strings tile the file exactly when it is not demand-loaded or its text is whole pages |
| AOut.SymbolsOverlapExactlyWhen | usr/src/include/a.out.h:66-73 | without overflow, some byte is both data and symbols exactly when there are both and the page rounding exceeds the relocations but not all that follows the text |
| AOut.RaggedTextOverlaps | usr/src/include/a.out.h:66-73 | a demand-loaded file with one byte of text, a page of data and one symbol, in which byte 8193 is both data and symbol |
| Fonts.IndexInBounds | usr/X386/include/X11/Xlibint.h:399-402 | the index of a character in the rectangle is in the metrics array |
| Fonts.IndexInverse | usr/X386/include/X11/Xlibint.h:399-402 | row and column are quotient and remainder of the index |
| Fonts.IndexInjective | usr/X386/include/X11/Xlibint.h:399-402 | no two characters share an entry |
| Fonts.LookupFinds | usr/X386/include/X11/Xlibint.h:391-406 | the 2D lookup gives the entry in the array whose quotient and remainder are row and column, the common metrics if there is no array, and the default exactly for a character that does not exist |
| Fonts.Lookup1DFinds | usr/X386/include/X11/Xlibint.h:369-380 | the 1D lookup gives the entry as far from the start as the column is from the first one, likewise |
| Fonts.DefaultsFind | usr/X386/include/X11/Xlibint.h:382-413 | the default lookups find the default character, as a row and a column and as a column of the first row |
| Fonts.MissingIsAllZero | usr/X386/include/X11/Xlibint.h:358-360 | a character counts as missing exactly when all its metrics are zero |
| Fonts.LookupsAgree | usr/X386/include/X11/Xlibint.h:369-406 | the 1D lookup is the 2D lookup in the first row, which on a font with one row is the only one |
| Fonts.NullOnlyWithoutDefault | usr/X386/include/X11/Xlibint.h:391-413 | a lookup with the default character gives null exactly when neither character exists |
| Fonts.NullOnlyWithoutDefault1D | usr/X386/include/X11/Xlibint.h:369-383 | a 1D lookup with the default character gives null exactly when neither character exists in the first row |
| Fonts.DefaultsAgreeExactlyWhen | usr/X386/include/X11/Xlibint.h:382-413 | on a font with one row the two default lookups agree exactly when the default character exists both as a column and as a row and a column, or neither way, and with metrics per character is below 256 if it exists |
| Fonts.DefaultsAgreeInRowZero | usr/X386/include/X11/Xlibint.h:382-413 | they agree on every font of the one row 0 with byte columns |
| Fonts.DefaultsDifferElsewhere | usr/X386/include/X11/Xlibint.h:382-413 | they differ on every font of one row whose default character exists in that row while its high byte names another |
| Fonts.DefaultsDifferInRowOne | usr/X386/include/X11/Xlibint.h:382-413 | there is such a font, of the one row 1 |
| Bits.MaskIsModulus | usr/local/include/bfd.h:269-270 | masking with a power of two is a remainder, and with its complement rounding down, also for negative numbers |
| Bits.RoundUpIsLeastMultiple | usr/local/include/obstack.h:394-396 | the alignment idiom yields the least multiple that is not below its argument |

## Left out

- Negative lengths given to obstack_blank, which shrink the growing object, and address arithmetic that wraps around.
- The prev and limit fields inside chunk headers: the chain is a sequence, and no operation of the model can store into a header.
- obstack_object_size, obstack_room, obstack_base, obstack_next_free and the unchecked fast macros: plain field expressions.
- The 64-bit alignment and the MUSTCOPY variants of the packetising macros.
- Answers of `_read` that are longer than the buffer: the model cuts them, where a device would overrun it.
- What follows once bufptr has left the buffer: the run of the model ends there.
- Values of X pad bytes and of request bytes that nobody stores: they are whatever was in the buffer.
- fflush of all streams at once, ungetc and its separate buffer, fseek, setvbuf on a stream in use, and the flush of all other line-buffered streams before a read.
- The stdio buffer is a sequence that stores replace, not an array: the buffer is made on first use, and aliasing of a buffer given by the user is not captured.
- Float rounding in tuner.c, its prompts, and its vertical half.
- Overflow of C ints other than where it is written out.
- XStream.NextWord: states the pad length, not the pad values, which _XSend and the buffer choose.
- Everything that is only declared in the headers under usr/X386/include and usr/local/include, and the rest of the system.
