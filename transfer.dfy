/** The resumable transfer engine inside `downloadFile` of `src/app/Card.js`:
    the file name, the request it sends, the checks on the response, and the
    loop that batches the received fragments into blocks for the chunk store. */
module Transfer {
  import opened Wrappers
  import opened Bytes
  import opened JsText
  import opened ChunkStore

  /** `bufferLimit`: the number of fragments held in memory before a flush. */
  const BufferLimit: nat := 1000

  const BadStatusMessage := "Failed to download file."
  const NoContentRangeMessage := "Failed to download due to not having Content-Range header."

  // ---------------------------------------------------------------------------
  // Request
  // ---------------------------------------------------------------------------

  /** `fileUrl.split("/").pop()`: the text after the last `/` of the URL, or the
      whole URL when it has no `/`. */
  function FileNameOf(fileUrl: string): (name: string)
    ensures '/' !in name
    ensures |name| <= |fileUrl| && fileUrl[|fileUrl| - |name|..] == name
    ensures |name| < |fileUrl| ==> fileUrl[|fileUrl| - |name| - 1] == '/'
  {
    LastPieceIsSuffix(fileUrl, '/');
    var parts := Split(fileUrl, '/');
    parts[|parts| - 1]
  }

  /** The URL of the backend's download endpoint for `fileUrl`. */
  function RequestUrl(backendBaseUrl: string, fileUrl: string): string
  {
    backendBaseUrl + "/api/FileDownload/download?fileUrl=" + fileUrl
  }

  /** The request goes to the backend: the URL starts with the backend's base URL
      and ends with the text of `fileUrl`, inserted without URL encoding. */
  lemma RequestUrlNamesFile(backendBaseUrl: string, fileUrl: string)
    ensures var url := RequestUrl(backendBaseUrl, fileUrl);
            && backendBaseUrl <= url
            && |url| >= |fileUrl| && url[|url| - |fileUrl|..] == fileUrl
  {
  }

  /** How a server reads the first byte wanted from a `Range: bytes=<start>-` value. */
  function RequestedStart(rangeHeader: string): Option<int>
  {
    if |rangeHeader| >= 6 && rangeHeader[..6] == "bytes=" then ParseInt(rangeHeader[6..]) else None
  }

  /** The `Range` header value `bytes=${start}-`: everything from `start` on. */
  function RangeHeader(start: nat): (h: string)
    ensures |h| > 6 && h[..6] == "bytes=" && h[|h| - 1] == '-'
  {
    var h := "bytes=" + NatToString(start) + "-";
    assert h[..6] == "bytes=";
    h
  }

  /** A server reading the `Range` header sent for `start` resumes at exactly
      `start`. */
  lemma RangeHeaderRequestsStart(start: nat)
    ensures RequestedStart(RangeHeader(start)) == Some(start)
  {
    var digits := NatToString(start);
    var h := RangeHeader(start);
    assert h[6..] == digits + "-";
    ParseIntOfNatToString(start, "-");
  }

  // ---------------------------------------------------------------------------
  // Response
  // ---------------------------------------------------------------------------

  /** `res.ok`: a 2xx status. */
  predicate ResponseOk(status: int)
  {
    200 <= status <= 299
  }

  /** The checks before the body is read: the status must be ok and 206, and a
      non-empty `Content-Range` must be present; the result is that header, or the
      message of the error thrown. */
  function CheckResponse(status: int, contentRange: Option<string>): (r: Result<string, string>)
    ensures r.Success? <==> status == 206 && contentRange.Some? && contentRange.value != ""
    ensures r.Success? ==> r.value == contentRange.value
    ensures r.Failure? && status != 206 ==> r.error == BadStatusMessage
    ensures r.Failure? && status == 206 ==> r.error == NoContentRangeMessage
  {
    if !ResponseOk(status) || status != 206 then Failure(BadStatusMessage)
    else if contentRange.None? || contentRange.value == "" then Failure(NoContentRangeMessage)
    else Success(contentRange.value)
  }

  /** `parseInt(contentRange.split("/")[1])`: `None` (NaN) when there is no `/`
      or no digits follow it. */
  function TotalBytes(contentRange: string): (total: Option<int>)
    ensures '/' !in contentRange ==> total == None
  {
    var parts := Split(contentRange, '/');
    assert '/' !in contentRange ==> parts == [contentRange] by {
      if '/' !in contentRange {
        SplitWithoutSeparator(contentRange, '/');
      }
    }
    if |parts| >= 2 then ParseInt(parts[1]) else None
  }

  /** The total is `parseInt` of the text between the first `/` and the next one
      (or the end): `bytes 0-99/*` gives NaN, `bytes */1000` gives 1000. */
  lemma TotalAfterFirstSlash(a: string, b: string)
    requires '/' !in a
    ensures TotalBytes(a + ['/'] + b) == ParseInt(Split(b, '/')[0])
  {
    SplitJoin(a, '/', b);
    SplitWithoutSeparator(a, '/');
  }

  /** The value of a `Content-Range` header as a server writes it. */
  function ContentRangeHeader(first: nat, last: nat, total: nat): string
  {
    "bytes " + NatToString(first) + "-" + NatToString(last) + "/" + NatToString(total)
  }

  /** The total size parsed from a well-formed `Content-Range` is the total the
      server wrote after the `/`. */
  lemma TotalBytesOfContentRange(first: nat, last: nat, total: nat)
    ensures TotalBytes(ContentRangeHeader(first, last, total)) == Some(total)
  {
    var range := "bytes " + NatToString(first) + "-" + NatToString(last);
    var digits := NatToString(total);
    assert ContentRangeHeader(first, last, total) == range + ['/'] + digits;
    assert '/' !in range by {
      forall i | 0 <= i < |range| ensures range[i] != '/' {
        if i >= 6 + |NatToString(first)| + 1 {
          assert range[i] == NatToString(last)[i - 7 - |NatToString(first)|];
        } else if i >= 6 + |NatToString(first)| {
        } else if i >= 6 {
          assert range[i] == NatToString(first)[i - 6];
        }
      }
    }
    assert '/' !in digits by {
      forall i | 0 <= i < |digits| ensures digits[i] != '/' {
        assert IsRadixDigit(digits[i], 10);
      }
    }
    SplitAfterSeparator(range, '/', digits);
    SplitWithoutSeparator(range, '/');
    assert digits + [] == digits;
    ParseIntOfNatToString(total, []);
  }

  // ---------------------------------------------------------------------------
  // Batching: which blocks the loop hands to the chunk store
  // ---------------------------------------------------------------------------

  /** The first `m` full batches of `BufferLimit` fragments, each concatenated into
      one block. */
  function FullBatches(fragments: seq<Chunk>, m: nat): (blocks: seq<Chunk>)
    requires m * 1000 <= |fragments|
    ensures |blocks| == m
  {
    if m == 0 then []
    else FullBatches(fragments, m - 1) + [Concat(fragments[(m - 1) * 1000..m * 1000])]
  }

  /** The blocks flushed while the fragments are read, before the stream ends:
      one per full batch. */
  function Flushed(fragments: seq<Chunk>): seq<Chunk>
  {
    FullBatches(fragments, |fragments| / 1000)
  }

  /** The blocks stored by a stream that ends normally after `fragments`: the full
      batches, then the rest of the fragments as one last block if any remain. */
  function Batches(fragments: seq<Chunk>): seq<Chunk>
  {
    var m := |fragments| / 1000;
    if m * 1000 == |fragments| then FullBatches(fragments, m)
    else FullBatches(fragments, m) + [Concat(fragments[m * 1000..])]
  }

  /** Extending a slice by one element. */
  lemma SliceSnoc<T>(s: seq<T>, lo: nat, hi: nat)
    requires lo <= hi < |s|
    ensures s[lo..hi] + [s[hi]] == s[lo..hi + 1]
  {
  }

  /** Reading more fragments leaves the full batches already cut unchanged. */
  lemma {:induction false} FullBatchesExtend(fragments: seq<Chunk>, value: Chunk, m: nat)
    requires m * 1000 <= |fragments|
    ensures FullBatches(fragments + [value], m) == FullBatches(fragments, m)
  {
    if m > 0 {
      FullBatchesExtend(fragments, value, m - 1);
      assert (fragments + [value])[(m - 1) * 1000..m * 1000] == fragments[(m - 1) * 1000..m * 1000];
    }
  }

  /** The full batches hold exactly the fragments they cover, in order. */
  lemma {:induction false} FullBatchesBytes(fragments: seq<Chunk>, m: nat)
    requires m * 1000 <= |fragments|
    ensures Concat(FullBatches(fragments, m)) == Concat(fragments[..m * 1000])
  {
    if m > 0 {
      var n := (m - 1) * 1000;
      FullBatchesBytes(fragments, m - 1);
      ConcatSnoc(FullBatches(fragments, m - 1), Concat(fragments[n..n + 1000]));
      assert fragments[..n + 1000] == fragments[..n] + fragments[n..n + 1000];
      ConcatSplit(fragments[..n], fragments[n..n + 1000]);
    } else {
      assert fragments[..0] == [];
    }
  }

  /** Batching never loses, duplicates or reorders a byte: the stored blocks
      together are the fragments together. */
  lemma BatchesBytes(fragments: seq<Chunk>)
    ensures Concat(Batches(fragments)) == Concat(fragments)
    ensures Batches(fragments) == [] <==> fragments == []
  {
    var m := |fragments| / 1000;
    FullBatchesBytes(fragments, m);
    if m * 1000 != |fragments| {
      ConcatSnoc(FullBatches(fragments, m), Concat(fragments[m * 1000..]));
      assert fragments == fragments[..m * 1000] + fragments[m * 1000..];
      ConcatSplit(fragments[..m * 1000], fragments[m * 1000..]);
    } else {
      assert fragments[..m * 1000] == fragments;
    }
  }

  /** A stream cut short keeps exactly the batches flushed before the cut: the
      first `|fragments| / 1000 * 1000` fragments, a prefix of what was read. */
  lemma FlushedBytes(fragments: seq<Chunk>)
    ensures Concat(Flushed(fragments)) == Concat(fragments[..|fragments| / 1000 * 1000])
    ensures Concat(Flushed(fragments)) <= Concat(fragments)
    ensures Flushed(fragments) == [] <==> |fragments| < BufferLimit
  {
    FullBatchesBytes(fragments, |fragments| / 1000);
    ConcatPrefix(fragments, |fragments| / 1000 * 1000);
  }

  /** A flush at the limit stores the next full batch: when the buffer holds the
      `BufferLimit` fragments after `m` full batches, appending it as one block to
      a store holding `m` full batches leaves it holding `m + 1`, with no fragment
      left over. */
  lemma NextFullBatch(records: Records, fileName: string, fragments: seq<Chunk>, m: nat, buffer: seq<Chunk>,
                       before: Records, after: Records)
    requires m * 1000 + |buffer| == |fragments| && |buffer| == BufferLimit
    requires buffer == fragments[m * 1000..]
    requires before == WithChunks(records, fileName, FullBatches(fragments, m))
    requires after == WithChunk(before, fileName, Concat(buffer))
    ensures (m + 1) * 1000 == |fragments| && fragments[(m + 1) * 1000..] == []
    ensures after == WithChunks(records, fileName, FullBatches(fragments, m + 1))
  {
    assert fragments[m * 1000..(m + 1) * 1000] == buffer;
    assert FullBatches(fragments, m + 1) == FullBatches(fragments, m) + [Concat(buffer)];
    WithChunksAppends(records, fileName, FullBatches(fragments, m), Concat(buffer));
  }

  /** At the end of the stream, after `m` full batches with the rest of the
      fragments in the buffer: the full batches are what `Flushed` says, and
      flushing the buffer leaves the store holding what `Batches` says. */
  lemma FinishBatches(records: Records, fileName: string, fragments: seq<Chunk>, m: nat, buffer: seq<Chunk>)
    requires m * 1000 + |buffer| == |fragments| && |buffer| < BufferLimit
    requires buffer == fragments[m * 1000..]
    ensures FullBatches(fragments, m) == Flushed(fragments)
    ensures buffer == [] ==> WithChunks(records, fileName, FullBatches(fragments, m))
                             == WithChunks(records, fileName, Batches(fragments))
    ensures buffer != [] ==> WithChunk(WithChunks(records, fileName, FullBatches(fragments, m)), fileName, Concat(buffer))
                             == WithChunks(records, fileName, Batches(fragments))
  {
    assert |fragments| / 1000 == m;
    WithChunksAppends(records, fileName, FullBatches(fragments, m), Concat(buffer));
  }

  // ---------------------------------------------------------------------------
  // The transfer loop
  // ---------------------------------------------------------------------------

  /** How the response body stream ends after its fragments: `done`, or a read
      that rejects (connection lost, request aborted) with an error message. */
  datatype StreamEnd = Done | Broken(message: string)

  /** Receiving a fragment into the buffer keeps the bytes invariant: what was
      stored at the start followed by what was received equals what is stored
      now followed by what is buffered. */
  lemma ReceiveKeepsBytes(initial: seq<byte>, received: seq<Chunk>, stored: seq<byte>, buffer: seq<Chunk>, value: Chunk)
    requires initial + Concat(received) == stored + Concat(buffer)
    ensures initial + Concat(received + [value]) == stored + Concat(buffer + [value])
  {
    ConcatSnoc(received, value);
    ConcatSnoc(buffer, value);
    AppendAssoc(initial, Concat(received), value);
    AppendAssoc(stored, Concat(buffer), value);
  }

  /** Receiving a fragment into the buffer keeps the batches: it joins the
      fragments after the last full batch, and the full batches stay as they were. */
  lemma ReceiveKeepsBatches(received: seq<Chunk>, m: nat, buffer: seq<Chunk>, value: Chunk)
    requires m * 1000 + |buffer| == |received| && buffer == received[m * 1000..]
    ensures buffer + [value] == (received + [value])[m * 1000..]
    ensures FullBatches(received + [value], m) == FullBatches(received, m)
  {
    FullBatchesExtend(received, value, m);
    SliceSnoc(received + [value], m * 1000, |received|);
  }

  /** `accumulativeChunk.set(chunk, offset)` on a `Uint8Array`. */
  method SetAt(target: array<byte>, chunk: Chunk, offset: nat)
    requires offset + |chunk| <= target.Length
    modifies target
    ensures target[..] == old(target[..offset]) + chunk + old(target[offset + |chunk|..])
  {
    var j := 0;
    while j < |chunk|
      invariant 0 <= j <= |chunk|
      invariant target[..offset] == old(target[..offset])
      invariant target[offset..offset + j] == chunk[..j]
      invariant target[offset + |chunk|..] == old(target[offset + |chunk|..])
    {
      target[offset + j] := chunk[j];
      j := j + 1;
    }
    assert target[..] == target[..offset] + target[offset..offset + |chunk|] + target[offset + |chunk|..];
  }

  /** The body of `saveBufferedChunksToDB` before the store call: a `Uint8Array`
      of the summed length, filled chunk after chunk at a running offset. */
  method AccumulateChunks(buffer: seq<Chunk>) returns (block: Chunk)
    ensures block == Concat(buffer)
    ensures |block| == TotalLength(buffer)
  {
    var accumulativeLength := TotalLength(buffer);
    var accumulativeChunk := new byte[accumulativeLength];
    var offset := 0;
    var i := 0;
    ConcatLength(buffer);
    while i < |buffer|
      invariant 0 <= i <= |buffer|
      invariant offset == |Concat(buffer[..i])|
      invariant Concat(buffer[..i]) <= Concat(buffer)
      invariant accumulativeChunk.Length == |Concat(buffer)|
      invariant accumulativeChunk[..offset] == Concat(buffer[..i])
    {
      var chunk := buffer[i];
      ConcatSnoc(buffer[..i], chunk);
      assert buffer[..i + 1] == buffer[..i] + [chunk];
      ConcatPrefix(buffer, i + 1);
      SetAt(accumulativeChunk, chunk, offset);
      assert accumulativeChunk[..offset + |chunk|] == Concat(buffer[..i]) + chunk;
      offset := offset + |chunk|;
      i := i + 1;
    }
    assert buffer[..i] == buffer;
    block := accumulativeChunk[..];
  }

  /** The state of one download attempt after the response has been accepted. */
  class TransferSession {
    const db: Database
    const fileName: string
    /** The stored length the request resumed from. */
    const start: nat
    /** The total size from `Content-Range` (`None` for NaN); it feeds only the
        progress display. */
    const totalBytes: Option<int>
    /** The fragments read but not yet flushed. */
    var buffer: seq<Chunk>
    var downloadedBytes: nat
    /** The object store when the attempt began, and the bytes it held for the file. */
    ghost const records0: Records
    ghost const initialBytes: seq<byte>
    /** The fragments read so far in this attempt, and how many full batches of
        them have been flushed. */
    ghost var received: seq<Chunk>
    ghost var flushes: nat

    /** `downloadedBytes` counts everything received, and the bytes stored at the
        start followed by the fragments received equal the bytes stored now
        followed by the buffer. */
    ghost predicate Consistent()
      reads this, db
    {
      && db.Valid()
      && initialBytes == StoredBytes(records0, fileName)
      && |initialBytes| == start
      && downloadedBytes == start + TotalLength(received)
      && initialBytes + Concat(received) == StoredBytes(db.records, fileName) + Concat(buffer)
    }

    /** The buffer holds the fragments after the last full batch, and the store
        holds the starting records with the full batches appended. */
    ghost predicate Batched()
      reads this, db
    {
      && flushes * 1000 + |buffer| == |received|
      && buffer == received[flushes * 1000..]
      && db.records == WithChunks(records0, fileName, FullBatches(received, flushes))
    }

    /** The state between two reads: fewer than `BufferLimit` fragments wait. */
    ghost predicate Valid()
      reads this, db
    {
      Consistent() && Batched() && |buffer| < BufferLimit
    }

    constructor (db: Database, fileName: string, start: nat, totalBytes: Option<int>)
      requires db.Valid() && start == |StoredBytes(db.records, fileName)|
      ensures Valid()
      ensures this.db == db && this.fileName == fileName && this.start == start && this.totalBytes == totalBytes
      ensures buffer == [] && received == [] && downloadedBytes == start
      ensures records0 == db.records
    {
      this.db := db;
      this.fileName := fileName;
      this.start := start;
      this.totalBytes := totalBytes;
      buffer := [];
      downloadedBytes := start;
      records0 := db.records;
      initialBytes := StoredBytes(db.records, fileName);
      received := [];
      flushes := 0;
    }

    /** `saveBufferedChunksToDB()`: a non-empty buffer becomes one block appended to
        the file's record, and the buffer is cleared; an empty buffer changes nothing. */
    method SaveBufferedChunksToDB()
      requires Consistent()
      modifies this`buffer, db
      ensures Consistent() && buffer == []
      ensures old(buffer) == [] ==> db.records == old(db.records)
      ensures old(buffer) != [] ==> db.records == WithChunk(old(db.records), fileName, Concat(old(buffer)))
      ensures StoredBytes(db.records, fileName) == old(StoredBytes(db.records, fileName)) + Concat(old(buffer))
    {
      if |buffer| > 0 {
        var accumulativeChunk := AccumulateChunks(buffer);
        var _ := SaveChunk(db, fileName, accumulativeChunk);
        buffer := [];
      }
    }

    /** `buffer.push(value); downloadedBytes += value.length`. */
    method Receive(value: Chunk)
      requires Valid()
      modifies this`buffer, this`downloadedBytes, this`received
      ensures Consistent() && Batched() && |buffer| <= BufferLimit
      ensures buffer == old(buffer) + [value] && received == old(received) + [value]
      ensures downloadedBytes == old(downloadedBytes) + |value|
    {
      ReceiveKeepsBytes(initialBytes, received, StoredBytes(db.records, fileName), buffer, value);
      ReceiveKeepsBatches(received, flushes, buffer, value);
      TotalLengthSnoc(received, value);
      buffer := buffer + [value];
      downloadedBytes := downloadedBytes + |value|;
      received := received + [value];
      assert flushes * 1000 + |buffer| == |received|;
      assert buffer == received[flushes * 1000..];
      assert db.records == WithChunks(records0, fileName, FullBatches(received, flushes));
    }

    /** The flush when the buffer has reached `BufferLimit`: the next full batch
        goes to the store. */
    method FlushFullBuffer()
      requires Consistent() && Batched() && |buffer| == BufferLimit
      modifies this`buffer, this`flushes, db
      ensures Valid() && buffer == []
      ensures received == old(received) && downloadedBytes == old(downloadedBytes)
    {
      ghost var m := flushes;
      ghost var batch := buffer;
      ghost var before := db.records;
      SaveBufferedChunksToDB();
      NextFullBatch(records0, fileName, received, m, batch, before, db.records);
      flushes := m + 1;
    }

    /** One pass of the loop after a fragment `value` is read: receive it, and
        flush when the buffer reaches `BufferLimit`. */
    method OnFragment(value: Chunk)
      requires Valid()
      modifies this`buffer, this`downloadedBytes, this`received, this`flushes, db
      ensures Valid()
      ensures received == old(received) + [value]
      ensures downloadedBytes == old(downloadedBytes) + |value|
    {
      Receive(value);
      if |buffer| >= BufferLimit {
        FlushFullBuffer();
      }
    }

    /** `processStream()` over a body of `stream` fragments ending as `ending`. On
        `done` the store holds the starting records with `Batches(stream)` appended
        for the file; when a read rejects, only the batches flushed before it. */
    method ProcessStream(stream: seq<Chunk>, ending: StreamEnd) returns (r: Outcome<string>)
      requires Valid() && received == []
      modifies this, db
      ensures Consistent() && received == stream
      ensures downloadedBytes == start + TotalLength(stream)
      ensures ending.Done? ==> r == Pass && buffer == []
                               && db.records == WithChunks(records0, fileName, Batches(stream))
      ensures ending.Broken? ==> r == Fail(ending.message)
                                 && db.records == WithChunks(records0, fileName, Flushed(stream))
    {
      var i := 0;
      while true
        invariant 0 <= i <= |stream|
        invariant Valid() && received == stream[..i]
        decreases |stream| - i
      {
        if i == |stream| {
          assert received == stream;
          FinishBatches(records0, fileName, stream, flushes, buffer);
          if ending.Broken? {
            return Fail(ending.message);
          }
          SaveBufferedChunksToDB();
          return Pass;
        }
        var value := stream[i];
        SliceSnoc(stream, 0, i);
        OnFragment(value);
        i := i + 1;
      }
    }
  }
}
