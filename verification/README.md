# peek-readable: the buffering engine, in Dafny

This project models the core of peek-readable, a reader that lets a caller
**peek** at bytes of a stream before **reading** them. The model is a
sequential state machine over byte sequences. It covers:

- **The engine** (`lib/AbstractStreamReader.ts`):
  - a peek stack of byte slices (`readFromPeekBuffer`, `peek`, `read`);
  - a loop that pulls from the source until the request is satisfied, the
    stream ends, or the reader is interrupted (`readRemainderFromStream`);
  - both sit over the abstract low-level `readFromStream`.
- **Three low-level adapters** behind that primitive:
  - `lib/WebStreamDefaultReader.ts` owns chunks and keeps the unread tail of
    the last one;
  - `lib/WebStreamByobReader.ts` makes one borrowed-buffer read per call;
  - `lib/StreamReader.ts` reads a Node.js Readable and keeps one deferred
    read, driven by 'readable', 'end', 'error', 'close' and `abort()`.
- **The selector** `makeWebStreamReader` (`lib/WebStreamReaderFactory.ts`).
- **Two older versions of the same contract**:
  - `src/index.ts` keeps peeked slices at the front of an array, reads
    recursively, and turns end-of-stream in the recursion into a partial read;
  - `lib/WebStreamReader.ts` keeps peeked slices in a FIFO queue and serves a
    read from that queue alone whenever it is non-empty.

How the model is built:

- **Reader state.** A reader is one immutable record
  (`ReaderState.Reader`). It holds the base fields (`endOfStream`,
  `interrupted`, `peekQueue`) and an `Adapter` variant that carries the
  subclass's fields. Each operation returns an `Outcome`:
  - `Delivered(bytes, next)` — the bytes returned; their count is the number
    the source returns;
  - `Failed(error, next)` — the call throws;
  - `Suspended(next)` — the source sends no further event.

  The state comes back in every case: bytes taken before a throw are lost,
  and flags set before a throw stay set.
- **Sources are scripts.**
  - A default handle is the list of results its `read()` calls settle with.
  - A BYOB handle is the queue of chunks in the byte stream.
  - A Node Readable is its buffered bytes, an EOF flag, and the events that
    happen while a read waits.
- **Content functions** give the bytes the reader can still return, in order.
  Most contracts are stated through them:
  - `Content`: peeked bytes first, then the source;
  - `Pending` and `StreamContent`: nothing once end-of-stream or an
    interrupt is flagged.

## Model

| member | source | states |
|---|---|---|
| PeekStack.TakeFromStack | lib/AbstractStreamReader.ts:75-93 | Taking from the stack starts with the slice pushed last. It returns min(length, stacked bytes) bytes. Those bytes followed by the remaining stack, top first, are exactly the old stack. |
| PeekStack.PopStep | lib/AbstractStreamReader.ts:80-91 | One pass of the loop keeps what was read, plus what the stack still gives for the rest, equal to the recursive statement's result. |
| PeekStack.ReadFromPeekBuffer | lib/AbstractStreamReader.ts:75-93 | The loop as written pops the top slice, copies min(slice, remaining), and pushes back any unconsumed tail. It conserves the bytes and returns exactly min(length, stacked bytes). It agrees with the recursive statement. |
| PeekStack.TakeAfterPush | lib/AbstractStreamReader.ts:49-53 | After a slice b is pushed, taking m <= \|b\| bytes returns the first m bytes of b. It leaves the rest of b on top of the old stack. |
| Engine.Pull | lib/AbstractStreamReader.ts:116 | Each pull goes to the reader's adapter and logs only requests of its own length. It returns at most that many bytes, from the front of what the source still holds. Zero bytes only at end-of-stream; a failure comes from an interrupt, with AbortError or the source's error. The stack is untouched, flags never go back, and the adapter keeps its kind. |
| Engine.ReadRemainderFromStream | lib/AbstractStreamReader.ts:95-114 | Every pull asks for 1 byte to 1 MiB. The total is at most the initial remaining count, and the bytes returned are the front of the stream content. A short total means end-of-stream. An interrupted reader fails with AbortError before any pull while bytes are still wanted. |
| Engine.RemainderDone | lib/AbstractStreamReader.ts:100 | With nothing wanted, or at end-of-stream, the loop does not run and the result is the bytes gathered so far. |
| Engine.Read | lib/AbstractStreamReader.ts:55-66 | Length 0 returns 0 and changes nothing. Otherwise the bytes returned are the front of everything the reader holds (peeked bytes first), and there are min(length, all of it) of them, at least 1. EndOfStreamError is thrown only when nothing at all is left; any other failure comes from an interrupt. For owned-chunk readers this holds with the corrected owned-chunk pull. |
| Engine.Peek | lib/AbstractStreamReader.ts:49-53 | Returns what `read` returns and pushes those bytes back on top of the stack. Everything the reader holds is unchanged, and the bytes are its front min(length, all) bytes. |
| EngineProperties.ReadServedByStack | lib/AbstractStreamReader.ts:55-93 | A read the stack can cover returns the front of the stack. The source, its request log and both flags are left as they were. |
| EngineProperties.PeekThenRead | lib/AbstractStreamReader.ts:49-53 | After `peek` returned b, a `read` of m <= \|b\| bytes returns the first m bytes of b without reaching the source. |
| EngineProperties.RepeekSeesSamePrefix | lib/AbstractStreamReader.ts:49-53 | A second, shorter peek sees the front of what the first peek saw, and nothing is consumed. |
| EngineProperties.InterruptedReadFails | lib/AbstractStreamReader.ts:100-105 | When interrupted, not at end, and needing more than the stack holds, `read` fails with AbortError. The adapter is untouched, the copied stack bytes are gone, and the reader stays interrupted and not at end, so the next read fails the same way. |
| EngineProperties.AbortedPushReaderFails | lib/StreamReader.ts:86-96 | After `abort()`, a read that needs the source fails with AbortError, and so does the next read of any length. |
| EngineProperties.RemainderLive | lib/AbstractStreamReader.ts:95-114 | Over a reader that is not interrupted and whose Node producer pushes chunks and then EOF, the pull loop always completes, and the reader stays that way. |
| EngineProperties.ReadLive | lib/AbstractStreamReader.ts:60-65 | Over such a reader `read` never hangs. It throws EndOfStreamError exactly when the stack and the source are both empty, and returns bytes otherwise. For owned-chunk readers this holds with the corrected owned-chunk pull. |
| OwnedChunkAdapter.ServeSurplus | lib/WebStreamDefaultReader.ts:21-35 | Copies min(left in the kept chunk, length) bytes from the cursor and advances it. The kept chunk is dropped exactly when it is used up. |
| OwnedChunkAdapter.Pump | lib/WebStreamDefaultReader.ts:38-64 | The chunk loop conserves bytes. It never produces more than asked, and stops short only on done. A kept chunk always has unread bytes after the cursor and never coexists with done. |
| OwnedChunkAdapter.Assemble | lib/WebStreamDefaultReader.ts:18-64 | The kept chunk then the loop. The bytes returned followed by what the reader still holds are what it held before. At most `length` bytes; short only at end-of-stream. |
| OwnedChunkAdapter.ReadFromStream | lib/WebStreamDefaultReader.ts:13-71 | The corrected pull throws EndOfStreamError exactly when entered at end-of-stream, without touching the handle. Otherwise it returns the first min(length, what is left) bytes, 0 only after done. |
| OwnedChunkAdapter.ReadFromStreamAsWritten | lib/WebStreamDefaultReader.ts:66-68 | As written, it also throws when this call saw done before producing a byte. Otherwise it agrees with the corrected pull. |
| OwnedChunkAdapter.Abort | lib/WebStreamDefaultReader.ts:73-75 | Cancels the handle, after which it gives nothing. Only the kept chunk is still served. |
| OwnedChunkAdapter.Close | lib/WebStreamDefaultReader.ts:77-80 | Cancels, then releases the lock. The script is kept. |
| OwnedChunkAdapter.ReadKeepsRemainderInvariant | lib/WebStreamDefaultReader.ts:31-34 | After any pull, a kept chunk has bytes after the cursor and end-of-stream is clear. |
| OwnedChunkAdapter.LongChunkIsKept | lib/WebStreamDefaultReader.ts:50-56 | A chunk longer than needed gives its prefix. The whole chunk is kept with the cursor at the requested length, and the call returns that length. |
| OwnedChunkAdapter.AsWrittenThrowsAfterPeekedBytes | lib/WebStreamDefaultReader.ts:66-68 | After `read(4)` has taken 3 peeked bytes off the stack, leaving it empty, and the handle says done, the as-written pull for the last byte throws while the corrected one returns 0. |
| BorrowedBufferAdapter.ReadFromStream | lib/WebStreamByobReader.ts:10-24 | Exactly one read with a view of exactly `length` bytes. At most `length` bytes, from the front of the stream; 0 only once the stream is done; done sets end-of-stream. Nothing is retained, and only the end flag changes. |
| PushAdapter.Construct | lib/StreamReader.ts:25-29 | Refuses a source without `read` or `once`. Otherwise it gives a reader with an empty slot, an empty stack, clear flags and exactly the stream's bytes. |
| PushAdapter.OnEnd | lib/StreamReader.ts:30-35 | 'end' sets end-of-stream and resolves a waiting deferred with 0. The slot is not cleared, and an already settled deferred keeps its settlement. |
| PushAdapter.Reject | lib/StreamReader.ts:86-92 | Sets `interrupted`, rejects a waiting deferred with the error, and clears the slot. A settled deferred ignores it. |
| PushAdapter.Abort | lib/StreamReader.ts:94-96 | A waiting deferred is rejected with AbortError, the slot is cleared and `interrupted` is set. Afterwards the source gives nothing to reads. |
| PushAdapter.Close | lib/StreamReader.ts:98-100 | `close` is `abort`, so a waiting deferred is rejected with AbortError. |
| PushAdapter.ReadDeferred | lib/StreamReader.ts:73-84 | Drains the deferred's length. On data it returns 1 to length bytes from the front of the buffer and clears the slot; on no data the deferred stays. |
| PushAdapter.Await | lib/StreamReader.ts:30-37 | Stepped through the events, a waiting read settles with bytes from the front of the stream, at most its length (0 only at 'end'). Or it fails from an interrupt with the source's error or AbortError, the slot cleared. Or it stays waiting with its deferred when no event comes. |
| PushAdapter.ReadableStep | lib/StreamReader.ts:73-84 | One 'readable' drain takes bytes from the front of what the stream can still give, at most the wanted length and short only when nothing more can come. With no data the read keeps waiting over the same bytes. |
| PushAdapter.ReadableOutcome | lib/StreamReader.ts:63-84 | After a pushed chunk or EOF, the 'readable' continuation either settles the read as its wait promises, or leaves it waiting over the same bytes with one more logged request. |
| PushAdapter.ChainOutcome | lib/StreamReader.ts:80-82 | Re-registering for the next 'readable' loses nothing: whatever the continued wait promises, the original wait promises too. |
| PushAdapter.ReadFromStream | lib/StreamReader.ts:47-67 | Data from the non-blocking drain is returned at once and no deferred is created. Otherwise exactly one deferred for `length` bytes waits in the slot. Every request asks for `length`. |
| PushAdapter.OrderlyAwaitDelivers | lib/StreamReader.ts:30-35 | If the producer pushes chunks and then EOF, a waiting read always settles with bytes, or with 0 at 'end'. |
| PushAdapter.OrderlyPullDelivers | lib/StreamReader.ts:47-67 | Every pull over such a producer delivers, and the producer stays of that kind. |
| PushAdapter.ErrorPassesThrough | lib/StreamReader.ts:36 | An 'error' while a read waits rejects it with the stream's own error, unchanged, and clears the slot. |
| PushAdapter.AbortWhileWaiting | lib/StreamReader.ts:37 | 'close', or `abort()` while a read waits, rejects that read with AbortError instead of leaving it hanging. |
| PushAdapter.AbortWhileSuspended | lib/StreamReader.ts:47-67 | A pull that drained nothing, before EOF, and then sees `abort()` fails with AbortError. |
| Factory.MakeWebStreamReader | lib/WebStreamReaderFactory.ts:7-14 | One `getReader` call in BYOB mode. A default handle gives the owned-chunk adapter; any other handle gives the borrowed-buffer adapter. The new reader holds exactly the stream's bytes. |
| Factory.SelectionIgnoresHistory | lib/WebStreamReaderFactory.ts:7-14 | The reader depends on the handle kind and the stream's bytes only. |
| LegacyStreamReader.Construct | src/index.ts:47-50 | Refuses a non-Readable source. Otherwise it gives a reader holding exactly the stream's bytes. |
| LegacyStreamReader.OnEnd | src/index.ts:51-57 | 'end' sets the end flag, rejects any pending request and clears the slot. |
| LegacyStreamReader.Await | src/index.ts:130-145 | A waiting request settles with the front min(request, left) bytes and clears the slot. Or it is rejected with End-Of-Stream at 'end' when nothing is left. Or it stays pending. |
| LegacyStreamReader.TryRead | src/index.ts:149-159 | Drains the request's length and resolves on data; otherwise it waits for the next 'readable'. |
| LegacyStreamReader.ReadSource | src/index.ts:116-147 | A second request while one is pending trips the assertion, and after 'end' the read is rejected. Otherwise it returns the front min(length, left) bytes, at least 1, or leaves exactly one request pending. |
| LegacyStreamReader.ServeHead | src/index.ts:86-93 | A head slice that covers the request serves it alone, without the source. It returns the slice's first `length` bytes and puts its tail back in front. |
| LegacyStreamReader.PrependPromise | src/index.ts:94-103 | The head slice in front of the recursive read keeps the read's promise: the front bytes of everything left, and End-Of-Stream in the recursion becomes a partial read. |
| LegacyStreamReader.Read | src/index.ts:82-107 | Length 0 returns 0. A head slice that covers the request serves it without the source. Otherwise the bytes returned are the front min(length, all) bytes, with a partial read when the stream ends. End-Of-Stream is thrown only when nothing is left. |
| LegacyStreamReader.OrderlyAwaitSettles | src/index.ts:130-159 | If the producer pushes chunks and then EOF, a pending request always settles. |
| LegacyStreamReader.OrderlyReadSettles | src/index.ts:82-122 | Over such a producer a read settles with bytes whenever any are left. It throws End-Of-Stream when nothing is left and nothing is peeked. |
| LegacyStreamReader.PeekAsWrittenKeeps | src/index.ts:68-73 | As written, `peek` puts back slice(offset, bytesRead). That is the first bytesRead - offset bytes read, or nothing once offset >= bytesRead. |
| LegacyStreamReader.Peek | src/index.ts:68-73 | The corrected `peek` puts the bytes read back at the front, so everything the reader holds is unchanged. |
| LegacyStreamReader.AsWrittenAgreesAtOffsetZero | src/index.ts:70 | At offset 0 the as-written `peek` equals the corrected one. |
| LegacyStreamReader.PeekThenRead | src/index.ts:68-93 | After the corrected `peek`, a read of m <= peeked bytes returns their first m without the source, at any offset. |
| LegacyStreamReader.AsWrittenPeekLosesBytes | src/index.ts:70 | Peek 2 bytes at offset 2 over 7, 8, 9. As written, the next 1-byte read returns 9; with the fix it returns 7. |
| LegacyWebReader.Construct | lib/WebStreamReader.ts:16-18 | A fresh reader holds exactly the stream's bytes. |
| LegacyWebReader.TakeFromQueue | lib/WebStreamReader.ts:31-43 | Taking from the FIFO queue starts at the front slice. It returns min(length, queued bytes) bytes, and those bytes followed by the new queue are the old queue. |
| LegacyWebReader.DrainStep | lib/WebStreamReader.ts:33-41 | One pass of the loop keeps what was read plus what the queue still gives equal to the recursive statement's result. |
| LegacyWebReader.DrainQueue | lib/WebStreamReader.ts:32-42 | The loop as written conserves bytes, returns min(length, queued) bytes, and agrees with the recursive statement. |
| LegacyWebReader.Read | lib/WebStreamReader.ts:26-57 | Length 0 returns 0. With anything queued only the queue serves, min(length, queued) bytes, and the source is untouched. Otherwise exactly one BYOB read of `length` bytes, with done throwing EndOfStreamError. The bytes are always the front of what the reader holds. |
| LegacyWebReader.PeekAsWritten | lib/WebStreamReader.ts:20-24 | As written, the bytes read are appended behind whatever the read left queued. If the read drained the queue, nothing is consumed. |
| LegacyWebReader.Peek | lib/WebStreamReader.ts:20-24 | The corrected `peek` puts the bytes at the front, so nothing is consumed. |
| LegacyWebReader.PeekThenRead | lib/WebStreamReader.ts:20-43 | After the corrected `peek`, a read of m <= peeked bytes returns their first m without the source. |
| LegacyWebReader.RepeekSeesSamePrefix | lib/WebStreamReader.ts:20-43 | Overlapping corrected peeks agree. |
| LegacyWebReader.AsWrittenSinglePeekThenRead | lib/WebStreamReader.ts:20-43 | Even as written, one peek from an empty queue followed by a read of m <= peeked bytes returns the same front bytes. |
| LegacyWebReader.AsWrittenRepeekReordersBytes | lib/WebStreamReader.ts:22 | Over 1, 2, 3, 4: peek 3, peek 1, then read 1. As written the read returns 2; with the fix it returns 1. |
| Scenarios.FrontBytes | lib/AbstractStreamReader.ts:55-66 | On a live reader with bytes left, `read` returns the front min(length, all) bytes, leaves the rest, and stays live. |
| Scenarios.PeterReads | test/test.ts:13-42 | Over any chunking of "\x05peter": read 1 gives 5, read 5 gives "peter", read 1 throws EndOfStreamError. |
| Scenarios.PeterPeeks | test/test.ts:151-191 | Peek 1 gives 5. Then read 1 gives 5, and read 6 gives "\x05peter". |
| Scenarios.DisjointReads | test/test.ts:74-147 | Over any chunking of repeated 1, 2, 3, 4, each 4-byte read returns 1, 2, 3, 4. |
| Scenarios.DisjointChunks | test/test.ts:127-147 | The same for a reader built on any such producer. |
| Scenarios.CorrectedReadKeepsPeekedBytes | lib/AbstractStreamReader.ts:60-61 | With the corrected pull, 3 peeked bytes followed by done make `read(4)` return those 3 bytes. |

## Left out

- **Async scheduling.** Promises and real listener registration are not modelled. A pending read is a single-shot slot, and events are explicit steps of a finite script. A read that would continue after the script ends is reported as `Suspended`, and the bytes its outer calls had already taken are not carried along.
- **Concurrent caller reads** (test/test.ts:54-71) depend on Node's event ordering; only sequential calls are modelled. The legacy "Concurrent read operation?" assertion is modelled only for a request left pending by a suspended read.
- **Stream internals.**
  - Node's Readable buffering is reduced to `read(size)`: size bytes if buffered, everything left after EOF, else null. 'end' fires while a read waits once EOF was pushed and the buffer is empty.
  - WHATWG streams are scripts.
  - `cancel()` and `releaseLock()` are flags.
  - `getReader` is a logged call.
- **Buffer aliasing.** `subarray` views are modelled as copied byte sequences. The caller's buffer is modelled only in the legacy `peek`, whose slice depends on the offset.
- **Abort and close of the BYOB adapter.** lib/WebStreamByobReader.ts extends `WebStreamReader`. The lib/WebStreamReader.ts modelled here is the older standalone class, with no `abort` or `close`, so the BYOB adapter's abort and close are not modelled.
- **Errors.** Error classes (Errors.js, EndOfStreamError.js) are tags. A source 'error' carries only a numeric code. Deferred.js is not part of this model; a deferred behaves as a promise's resolve/reject.
- **Legacy error and close events.** src/index.ts registers no 'error' or 'close' listener and has no `abort()`. After such an event the pending request never settles, which is modelled as `Suspended`. A caller abort cannot happen to this reader; in its event script it is treated like 'close'. The process-level throw of an unhandled 'error' is not modelled.
- **Unreachable throws.** The defensive throw at lib/AbstractStreamReader.ts:82 cannot be reached and is not modelled.
- **Other files.** lib/index.ts only re-exports; test/examples.ts does file I/O; test/util.ts is fixtures, used only as the shape of the scripted sources.
- LegacyStreamReader.PeekAsWrittenKeeps: like `PeekAsWritten` it requires the caller's buffer to hold offset + length bytes; Buffer.copy's silent truncation into a shorter buffer is not modelled.
- LegacyStreamReader.Peek: the same buffer-size requirement as the as-written `peek`.
- Engine.Pull: for the owned-chunk adapter the engine uses the corrected `readFromStream` (see Findings); the as-written one is `OwnedChunkAdapter.ReadFromStreamAsWritten`.

## Findings

| source | as written | input that shows it | evidently intended | confidence | as-written member | corrected member |
|---|---|---|---|---|---|---|
| lib/WebStreamDefaultReader.ts:66-68 | `readFromStream` throws EndOfStreamError when this call produced 0 bytes and saw done, even though the base `read` (lib/AbstractStreamReader.ts:60-61) has already taken peeked bytes off the stack for the same request | After a 3-byte chunk was peeked, and the handle then says done, `read(4)` takes 3 bytes off the stack, then the pull throws; the read throws and the 3 bytes are lost | Return 0 and let the base `read` return the 3 bytes (it throws only when the total is 0) | high (not executed) | OwnedChunkAdapter.AsWrittenThrowsAfterPeekedBytes | OwnedChunkAdapter.ReadFromStream |
| src/index.ts:70 | `peek` puts back `buffer.slice(offset, bytesRead)` | Peek 2 bytes into a 4-byte buffer at offset 2 over a source holding 7, 8, 9: an empty slice is put back and the next `read(1)` returns 9 | `buffer.slice(offset, offset + bytesRead)`, so the next read returns 7 | high (not executed) | LegacyStreamReader.AsWrittenPeekLosesBytes | LegacyStreamReader.PeekThenRead |
| lib/WebStreamReader.ts:22 | `peek` appends the bytes read at the end of the FIFO queue, behind the tail the read left queued | Over 1, 2, 3, 4: `peek(3)`, `peek(1)`, then `read(1)` returns 2 although both peeks promised 1 | Put the peeked bytes back at the front (as the stack in lib/AbstractStreamReader.ts does), so overlapping peeks agree | high (not executed) | LegacyWebReader.AsWrittenRepeekReordersBytes | LegacyWebReader.RepeekSeesSamePrefix |
