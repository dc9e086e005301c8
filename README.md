# Resumable file download: chunk store and transfer loop

This project models the core of a browser client that downloads a large file in
pieces and resumes an interrupted download. It is written in Dafny.

Two parts are modelled:

- **The chunk store** of `src/app/util.js`. This is the IndexedDB database
  `FileDownloadDB` (version 1) with one object store, `fileChunks`, keyed by
  `fileName`. Each record holds the byte chunks saved so far for one file, in
  order. The model has the four store operations (length query, append,
  read-all, delete), the "open the database first" rejection each of them makes,
  and the memoised `openIndexedDB` guard.
- **`downloadFile`** of `src/app/Card.js`. It:
  - derives the file name from the URL;
  - asks for `Range: bytes=<stored length>-`;
  - turns away any response that is not a 206 with a `Content-Range`;
  - parses the total size;
  - streams the body into a buffer of at most 1000 fragments, flushing each
    full buffer (and the rest at the end) as one block into the store;
  - reassembles the file, then deletes its record.

  The component's flags and the Download button's `disabled` predicate are
  modelled with it.

How the model is built:

- The store is a class holding a map from file name to record. Its operations
  settle synchronously.
- The transfer loop is a class whose fields are the closure variables of
  `downloadFile`: `buffer` and `downloadedBytes`. The `Uint8Array` that
  `saveBufferedChunksToDB` fills is a local array of `AccumulateChunks`, as it is
  local to that function in the source. The loop carries ghost state: the fragments received
  so far and the number of full batches flushed. Its invariant is that the bytes
  stored at the start, followed by the fragments received, equal the bytes stored
  now, followed by the buffer.
- The network is a parameter. `DownloadFile` takes the server as a function from
  (URL, `Range` value) to a `Reply`. A `Reply` is a `fetch` rejection, or a
  status, an optional `Content-Range`, the body's fragments and how the body
  stream ends (`done`, or a read that rejects).
- A whole attempt is also written as a function of the store and the reply,
  `Attempt`. The theorem about resuming is stated over a run of attempts for one
  file name. Suppose the server keeps serving one fixed file under that name and
  answers each request with the range it asked for. Then every delivered artifact
  is exactly that file, however often the download was interrupted. The client
  checks neither condition itself (see the notes at the end).

The JavaScript built-ins that `downloadFile` relies on are modelled in
`jstext.dfy`:

- `split` with a one-character separator;
- `parseInt` without a radix: leading white space, sign, the `0x` prefix and NaN;
- the decimal text a template literal gives a non-negative integer.

Files:

- `wrappers.dfy`: `Option`, `Result`, `Outcome`.
- `bytes.dfy`: `byte`, `Chunk`, `TotalLength` (the `reduce` over chunk lengths)
  and `Concat`.
- `jstext.dfy`: the string and number built-ins.
- `chunkstore.dfy`: `util.js`.
- `transfer.dfy`: the request, the response checks and the transfer loop of
  `downloadFile`.
- `card.dfy`: the component, `downloadFile` end to end, and the resume theorems.

## Model

| member | source | states |
|---|---|---|
| `ChunkStore.Database.constructor` | src/app/util.js:10-21 | `open("FileDownloadDB", 1)` and the upgrade create one object store, `fileChunks`. A newly created database (the upgrade path) is empty; a reopened one keeps the records of earlier page loads, which resuming across reloads relies on. Every record sits under its own `fileName` key path. |
| `ChunkStore.Database.Get` | src/app/util.js:80-86 | `get(key)` finds a record exactly when the key is present. On a valid store the record found carries `key` as its `fileName`, which is why `put(data)` writes the updated record back under the same key. |
| `ChunkStore.Database.Put` | src/app/util.js:86 | `put` stores the record under its `fileName`; nothing else changes. |
| `ChunkStore.Database.Delete` | src/app/util.js:143 | `delete` removes the key and leaves every other record; deleting an absent key succeeds. |
| `ChunkStore.ExistingFileLength` | src/app/util.js:33-66 | Rejects with "Please open the database first." without a database. Otherwise it is the sum of the stored chunk lengths, which is the length of their concatenation, and 0 when there is no record. |
| `ChunkStore.SaveChunk` | src/app/util.js:68-96 | Rejects without a database. Otherwise it creates `{fileName, chunks: []}` if needed, pushes the chunk last, and puts the record back. The stored bytes become the old bytes followed by the chunk, and the key path invariant is kept. |
| `ChunkStore.AppendAddsLastChunk` | src/app/util.js:80-86 | An append to an absent record creates `{fileName, chunks: [chunk]}`. Otherwise the chunk is added after the earlier, unchanged chunks. Either way the length query grows by exactly the chunk's length and every other record is unchanged. |
| `ChunkStore.CombineChunks` | src/app/util.js:98-129 | Rejects without a database, and with "No data exists." when there is no record. Otherwise it is the stored chunks concatenated in insertion order, whose length is what the length query reports. |
| `ChunkStore.DeleteChunks` | src/app/util.js:131-150 | Rejects without a database. Otherwise the record is gone afterwards: the length query gives 0, read-all fails with "No data exists.", and other records are untouched. |
| `ChunkStore.WithChunksBytes` | src/app/util.js:80-86 | Appending a sequence of blocks adds their bytes after the stored bytes. The file has a record afterwards exactly when it had one or a block was added, and no other record moves. |
| `ChunkStore.WithChunksAppends` | src/app/util.js:80-86 | Appending blocks one at a time gives the same store as appending them together. |
| `ChunkStore.Connector.OpenIndexedDB` | src/app/util.js:4-31 | The first call issues one open request and keeps its outcome. Every later call returns that same outcome, a failed open included, without issuing another request. |
| `Bytes.ConcatLength` | src/app/util.js:53 | The sum of the chunk lengths (`reduce`) is the length of the concatenated chunks. |
| `Bytes.ConcatSplit` | src/app/util.js:117 | Concatenating two runs of chunks is concatenating their concatenations. |
| `JsText.Split` | src/app/Card.js:63 | `split` returns at least one piece, and no piece contains the separator. |
| `JsText.JoinSplit` | src/app/Card.js:63 | `split` loses nothing: joining the pieces with the separator gives the string back. |
| `JsText.LastPieceIsSuffix` | src/app/Card.js:63 | The piece `pop` returns is the longest suffix without the separator; unless it is the whole string, a separator comes right before it. |
| `JsText.SplitJoin` | src/app/Card.js:87 | Splitting A, then the separator, then B gives A's pieces followed by B's pieces. |
| `JsText.SplitAfterSeparator` | src/app/Card.js:87 | Text A, then the separator, then text B without the separator, splits as A's pieces followed by B. |
| `JsText.TrimStart` | src/app/Card.js:87 | `parseInt` skips exactly the leading white space: what it drops is white space, and what is left does not start with white space. |
| `JsText.LeadingDigits` | src/app/Card.js:87 | `parseInt` reads the longest prefix of digits of the radix, and stops at the first non-digit. |
| `JsText.NatToString` | src/app/Card.js:71 | `${start}` is one or more decimal digits, with no leading zero unless it is "0". |
| `JsText.DecimalRoundTrip` | src/app/Card.js:71 | Reading the decimal text of a number back gives the number. |
| `JsText.ParseInt` | src/app/Card.js:87 | `parseInt` of text that is empty or only white space is NaN (`None`). A negative result comes only from a leading `-` after the white space. |
| `JsText.ParseIntNeedsDigit` | src/app/Card.js:87 | `parseInt` gives a number only when the text holds a digit of the radix it reads: a decimal digit, or a hexadecimal digit right after `0x` or `0X` (`ReadableDigitAt`), so text such as `a` is NaN. |
| `JsText.ParseIntOfNatToString` | src/app/Card.js:87 | `parseInt` of the decimal text of `n`, followed by anything that is not a digit, `x` or `X`, is `n`. |
| `Transfer.FileNameOf` | src/app/Card.js:63 | The file name is the suffix of `fileUrl` after its last `/` (all of it when there is none), so it contains no `/`. |
| `Transfer.RequestUrlNamesFile` | src/app/Card.js:64 | `RequestUrl`, the request URL, starts with `BACKEND_BASE_URL` followed by the download endpoint's path and `?fileUrl=`, and ends with the text of `fileUrl`, inserted as it is. |
| `Transfer.RangeHeader` | src/app/Card.js:71 | The `Range` value is `bytes=`, then the offset's digits, then `-`. |
| `Transfer.RangeHeaderRequestsStart` | src/app/Card.js:68-71 | A server reading the `Range` value sent for the offset resumes at exactly that offset. |
| `Transfer.CheckResponse` | src/app/Card.js:76-85 | A response is accepted exactly when it is ok, its status is 206 and it has a non-empty `Content-Range`. Any other status fails with "Failed to download file."; a 206 without the header fails with the `Content-Range` message. |
| `Transfer.TotalBytes` | src/app/Card.js:87 | `parseInt(contentRange.split("/")[1])` is NaN (`None`) when the header has no `/`. The general case is `TotalAfterFirstSlash`. |
| `Transfer.TotalAfterFirstSlash` | src/app/Card.js:87 | For any header with a `/`, the total is `parseInt` of the text between the first `/` and the next one (or the end): `bytes 0-99/*` gives NaN, `bytes */1000` gives 1000. |
| `Transfer.TotalBytesOfContentRange` | src/app/Card.js:87 | The total parsed from `bytes a-b/t` is `t`. |
| `Transfer.FullBatchesBytes` | src/app/Card.js:126-129 | The blocks flushed at the limit hold exactly the fragments of the full batches, in order. |
| `Transfer.BatchesBytes` | src/app/Card.js:113-129 | The blocks stored by a completed stream, the full batches and then the rest, hold exactly the body's fragments in order. There are none only for an empty body. |
| `Transfer.FlushedBytes` | src/app/Card.js:115-129 | A stream that breaks keeps the full batches flushed before the break. These are the first `n div 1000 * 1000` fragments, a prefix of what was read, and there are none when fewer than 1000 fragments arrived. |
| `Transfer.ReceiveKeepsBytes` | src/app/Card.js:123 | Pushing a fragment keeps the invariant: the start bytes followed by the received fragments equal the stored bytes followed by the buffer. |
| `Transfer.SetAt` | src/app/Card.js:103 | `accumulativeChunk.set(chunk, offset)` writes the chunk at the offset and changes nothing else in the array. |
| `Transfer.AccumulateChunks` | src/app/Card.js:98-105 | The block built from the buffer is the fragments concatenated in order, and its length is the sum of their lengths. |
| `Transfer.TransferSession.constructor` | src/app/Card.js:87-92 | The session starts with an empty buffer, `downloadedBytes == start`, and `start` equal to the stored length. |
| `Transfer.TransferSession.SaveBufferedChunksToDB` | src/app/Card.js:94-110 | A non-empty buffer becomes exactly one block, the in-order concatenation of the fragments, appended to the file's record. The buffer is then cleared. An empty buffer changes nothing. The bytes invariant is kept. |
| `Transfer.TransferSession.Receive` | src/app/Card.js:123-124 | The fragment joins the buffer and the received fragments, and `downloadedBytes` grows by its length. |
| `Transfer.TransferSession.FlushFullBuffer` | src/app/Card.js:126-129 | A buffer at the limit is flushed as the next full batch and cleared. |
| `Transfer.TransferSession.OnFragment` | src/app/Card.js:123-129 | After each fragment the buffer holds fewer than 1000 fragments, and `downloadedBytes` is `start` plus the lengths of all fragments read. |
| `Transfer.TransferSession.ProcessStream` | src/app/Card.js:112-142 | When the stream is done, the buffer is empty and the store holds the starting records with every batch of the body appended. When a read rejects, it fails with that error and the store holds only the batches flushed before. Either way `downloadedBytes` is `start` plus the total fragment length. |
| `DownloadCard.Attempt` | src/app/Card.js:66-164 | One attempt as a function of the store and the reply. It reaches reassembly (`setIsWaiting(true)`) exactly when the response is accepted and its stream completes. A delivery is under the attempt's file name and leaves no record for it. No other file's record changes. The lemmas below state what it stores and delivers. |
| `DownloadCard.RejectedReplyChangesNothing` | src/app/Card.js:69-85 | A `fetch` rejection, a status other than 206, or a missing `Content-Range` fails with its message. The store is unchanged and the file is not reassembled. |
| `DownloadCard.CompletedStreamStoresBody` | src/app/Card.js:112-129 | A completed stream leaves the stored bytes followed by every fragment of the body, and touches no other file. |
| `DownloadCard.BrokenStreamKeepsFlushed` | src/app/Card.js:115-129 | A broken stream leaves the stored bytes followed by the fragments of the full batches only. |
| `DownloadCard.AcceptedReplyStoresBody` | src/app/Card.js:87-162 | For an accepted reply with a completed stream, the artifact is the old bytes followed by the whole body, and the record is deleted afterwards. Only an empty body for a file with no record fails, with "No data exists.". For a broken stream, it fails with the read's error and keeps the flushed batches. |
| `DownloadCard.FailedAttemptNeverShortens` | src/app/Card.js:57-175 | Whatever the server sends, a failed attempt never shortens the stored bytes, so the resume offset never decreases. A delivered file has no record afterwards. |
| `DownloadCard.AttemptKeepsPrefix` | src/app/Card.js:66-164 | If the stored bytes are a prefix of the server's file and the server answers the `Range` honestly, they still are afterwards. A delivered artifact is the whole file, and a failure keeps at least what was stored. |
| `DownloadCard.Run` | src/app/Card.js:57-175 | Attempts one after another give one result per reply and leave every other file's record as it was. |
| `DownloadCard.SharedNameMixesFiles` | src/app/Card.js:63-68 | `x/f` and `y/f` share the record `f`. With `[9]` left by one, a 206 with body `[2]` for the other delivers `[9, 2]`, bytes of two files. |
| `DownloadCard.ResentFileIsNotHonest` | src/app/Card.js:69-87 | Once some bytes are stored, a completed 206 that carries the whole file again is not an honest answer to the `Range` sent. |
| `DownloadCard.IgnoredRangeIsNotHonest` | src/app/Card.js:69-87 | With `[9]` stored of the file `[9, 2]`, a server that ignores `Range: bytes=1-` and resends `[9, 2]` fails `Honest`. |
| `DownloadCard.IgnoredRangeDuplicatesBytes` | src/app/Card.js:69-162 | For that reply the client delivers `[9, 9, 2]`, because it never compares `Content-Range` with the offset it asked for. |
| `DownloadCard.ResumingDeliversTheFile` | src/app/Card.js:57-175 | Over any run of interrupted and resumed attempts for one file name, made one after another, against a server that keeps serving one file and sends the range asked for, every delivered artifact equals that file, and what stays stored is a prefix of it. |
| `DownloadCard.Card.constructor` | src/app/Card.js:11-18 | The hooks start `false` and `null`. |
| `DownloadCard.Card.DownloadDisabled` | src/app/Card.js:179 | The button is disabled when a download runs, reassembly is waiting, or the completion message shows. Its behaviour is stated by `DownloadFile`: disabled after a delivery, enabled again after a failure that did not reach reassembly. |
| `DownloadCard.Card.Fail` | src/app/Card.js:165-168 | A caught error's message becomes `errorMessage`. |
| `DownloadCard.Card.Reassemble` | src/app/Card.js:148-162 | Sets `isWaiting`. With a record, it delivers the stored bytes, sets `isFileBuilt` and deletes the record. Without one, it fails with "No data exists." and leaves the store alone. |
| `DownloadCard.Card.StreamAndReassemble` | src/app/Card.js:87-162 | After an accepted response, the store, the result and `isWaiting` are what `Attempt` gives. |
| `DownloadCard.Card.HandleReply` | src/app/Card.js:69-162 | For any reply, the result, the store and `isWaiting` follow `Attempt`. `isFileBuilt` is set exactly on delivery, and a failure's message is shown. |
| `DownloadCard.Card.DownloadFile` | src/app/Card.js:57-179 | Without a database it fails with "Please open the database first.". Otherwise it requests `bytes=<exactly the stored length>-` from the download endpoint and does what `Attempt` says. Afterwards `isDownloading` is false, `isFileBuilt` is set exactly on delivery, a failure's message is in `errorMessage`, and after a delivery the button is disabled. A failure that leaves `isWaiting` as it was re-enables a button that was enabled before, so the user can retry. |

## Left out

- IndexedDB `onerror` callbacks (src/app/util.js:26, 63, 89, 93, 126, 147) are not modelled. These are failures inside the browser engine, and `saveChunkToIndexedDB` and the other operations always succeed on an open database here.
- IndexedDB transactions, asynchronous request callbacks and `onupgradeneeded` are not modelled: every operation settles at once. `Connector.OpenIndexedDB` takes the outcome the open request would have as a parameter. An open that settles through `onupgradeneeded` and then again through `onsuccess` resolves once, which the memoised value already reflects.
- React state setters are modelled as immediate field writes. Re-rendering, the context provider (`IDBProvider.js`, `Providers.js`), `layout.js` and `page.js` (reading the file list with `fs`) are not part of this model.
- The 10 s and 30 s timers (src/app/Card.js:20-55) are presentation timing. `isDownloadCompleted` is therefore never set by the model: `DownloadFile` leaves it unchanged.
- The progress percentage, speed and remaining-time arithmetic (src/app/Card.js:131-140, 146-147) are floating point and only feed the display. `downloadedBytes` and `totalBytes` are kept as integers. The overstated speed on resumed downloads, computed from the cumulative `downloadedBytes`, is therefore not modelled.
- `AbortController` (src/app/Card.js:60, 73, 171) is not modelled: aborting after the attempt has settled has no effect on the modelled state. A cancelled read in the middle of the stream is a body stream that ends `Broken`.
- The `Blob`, `createObjectURL` and anchor-click delivery (src/app/Card.js:151-159) are the hand-off of the artifact to the user. `Delivered` carries the bytes and the name instead.
- Downloads are modelled one at a time: `DownloadFile` is atomic and `Run` is sequential. Each card has its own `isDownloading` (src/app/Card.js:12) and the page renders one card per file, so two cards can download at the same time. When their URLs share a last segment (src/app/Card.js:63), their 1000-fragment flushes (src/app/util.js:77-86) interleave in one record, even when the server serves the same file under both URLs. The first card to finish then delivers a mix and deletes the record (src/app/Card.js:162). `ResumingDeliversTheFile` does not cover such runs.
- The un-awaited `deleteChunksFromIndexedDB` (src/app/Card.js:162) is taken to complete right after reassembly. An interleaving with a later attempt is not modelled.
- `fetch` is the `server` parameter. The text of a `fetch` or stream-read rejection is carried in the reply, not derived.
- `BACKEND_BASE_URL` comes from `src/app/settings.js`, which is not part of this model. It is the card's `backendBaseUrl` field.
- `TransferSession.totalBytes` is parsed and kept but constrains nothing, because in the source it feeds only the progress display.
- Number-to-text conversion is modelled for non-negative integers only. Stored lengths are always such integers; exponent notation from 1e21 upward is not modelled.
- `parseInt` is modelled on integers without precision loss. The rounding of very long digit strings to a double and the `-0` result are not modelled.
- Strings are sequences of Unicode scalar values, not UTF-16 code units. This matters only for `split` and `parseInt` on text outside the Basic Multilingual Plane, which never contains `/`, digits or the white space `parseInt` skips.

## Notes on the source's behaviour

- The code checks for a 206 status and for a non-empty `Content-Range`. It does not check that the total after `/` parses. A header without `/`, or without digits after it, gives a NaN total and the download proceeds (`Transfer.TotalBytes` is `None`).
- A 206 with an empty body for a file that has no record sets `isWaiting`, then fails with "No data exists.". `isWaiting` is never cleared in that case, so the Download button stays disabled (`DownloadCard.Card.Reassemble`).
- `errorMessage` is never cleared by a later successful attempt (`DownloadCard.Card.DownloadFile` leaves it as it was on delivery).
- The store is keyed by the last segment of the URL (src/app/Card.js:63, used at 68, 107, 149 and 162). Two cards whose URLs end in the same name share one record. A download of one resumes from the bytes the other left, and delivers a mix of both files (`DownloadCard.SharedNameMixesFiles`).
- The client never compares the first byte position in `Content-Range` with the offset it requested (src/app/Card.js:81-87). A server that ignores `Range` makes it store and deliver bytes twice (`DownloadCard.IgnoredRangeDuplicatesBytes`). The resume theorems therefore assume an honest server (`DownloadCard.Honest`).
- `fileUrl` is put into the request URL without `encodeURIComponent` (src/app/Card.js:64). For a name containing `&`, `#`, `+` or `%xx`, the server receives a different path than the one the record is keyed by (src/app/Card.js:63). With `files/a&b.bin` the server reads `fileUrl=files/a`. With `files/a#1.bin`, `#1.bin` is a fragment and is never sent. Either way the record is still keyed `a&b.bin` or `a#1.bin` (`Transfer.RequestUrlNamesFile` states only the text of the URL).
- A buffer that has not reached 1000 fragments when a read rejects is discarded. The next attempt resumes after the last full batch (`Transfer.FlushedBytes`).
- `isFileBuilt` is never reset (src/app/Card.js:20-37). A second delivery on the same card sets it to `true` again, which does not re-run the effect that clears `isWaiting`, so `isWaiting` stays true and the button stays disabled for good.
- A record can hold the whole file without the file having been delivered: a stream that breaks right after a multiple of 1000 fragments that cover the file, or a page closed between the last flush and reassembly. Every later attempt then sends `bytes=<size>-`. A server following section 4.4 of RFC 7233 answers 416, the attempt fails with "Failed to download file.", the store is unchanged, and this repeats on every retry (`Transfer.CheckResponse`, `DownloadCard.RejectedReplyChangesNothing`).
