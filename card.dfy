/** The `Card` component of `src/app/Card.js`: its state flags, the Download
    button, and `downloadFile`, one download attempt that resumes from the bytes
    already in the chunk store. The attempt is also written as a function of the
    store and the server's reply, `Attempt`, and the theorems about resuming are
    stated over it. */
module DownloadCard {
  import opened Wrappers
  import opened Bytes
  import opened JsText
  import opened ChunkStore
  import opened Transfer

  /** What `fetch` gives back: a rejection with its message, or a response with its
      status, its `Content-Range` header (`None` when absent), the fragments its
      body stream delivers and how that stream ends. */
  datatype Reply =
    | NetworkError(message: string)
    | Response(status: int, contentRange: Option<string>, body: seq<Chunk>, ending: StreamEnd)

  /** How an attempt ends: the reassembled file handed to the browser under its
      name, or the message shown in red. */
  datatype AttemptResult =
    | Delivered(fileName: string, artifact: seq<byte>)
    | Failed(message: string)

  /** The result of an attempt, the object store after it, and whether it got as
      far as reassembling the file (`setIsWaiting(true)`). */
  datatype AttemptState = AttemptState(result: AttemptResult, records: Records, reassembled: bool)

  /** One attempt for `fileName` against an open store holding `records`, given the
      reply to its request. A rejected reply leaves the store alone; a body stream
      that breaks leaves the batches flushed before the break; a completed stream
      stores every batch, and the file is then read back and its record deleted. */
  function Attempt(records: Records, fileName: string, reply: Reply): (a: AttemptState)
    ensures a.reassembled <==> reply.Response? && CheckResponse(reply.status, reply.contentRange).Success?
                               && reply.ending.Done?
    ensures a.result.Delivered? ==> a.reassembled && a.result.fileName == fileName && fileName !in a.records
    ensures a.records - {fileName} == records - {fileName}
  {
    match reply
    case NetworkError(message) => AttemptState(Failed(message), records, false)
    case Response(status, contentRange, body, ending) =>
      match CheckResponse(status, contentRange)
      case Failure(message) => AttemptState(Failed(message), records, false)
      case Success(_) =>
        match ending
        case Broken(message) =>
          WithChunksBytes(records, fileName, Flushed(body));
          AttemptState(Failed(message), WithChunks(records, fileName, Flushed(body)), false)
        case Done =>
          var stored := WithChunks(records, fileName, Batches(body));
          WithChunksBytes(records, fileName, Batches(body));
          assert (stored - {fileName}) - {fileName} == stored - {fileName};
          if fileName in stored then
            AttemptState(Delivered(fileName, StoredBytes(stored, fileName)), stored - {fileName}, true)
          else
            AttemptState(Failed(Message(NoData)), stored, true)
  }

  /** A reply turned away before its body is read changes nothing in the store:
      the attempt fails with the `fetch` error, "Failed to download file." for a
      status other than 206 (2xx or not), or the `Content-Range` message. */
  lemma RejectedReplyChangesNothing(records: Records, fileName: string, reply: Reply)
    requires reply.Response? ==> CheckResponse(reply.status, reply.contentRange).Failure?
    ensures var a := Attempt(records, fileName, reply);
            && a.records == records && !a.reassembled && a.result.Failed?
            && (reply.NetworkError? ==> a.result.message == reply.message)
            && (reply.Response? && reply.status != 206 ==> a.result.message == BadStatusMessage)
            && (reply.Response? && reply.status == 206 ==> a.result.message == NoContentRangeMessage)
  {
  }

  /** A completed stream appends every fragment of the body after the bytes
      already stored; the file has a record afterwards unless it had none and the
      body was empty, in which case nothing changed. */
  lemma CompletedStreamStoresBody(records: Records, fileName: string, body: seq<Chunk>)
    ensures var stored := WithChunks(records, fileName, Batches(body));
            && StoredBytes(stored, fileName) == StoredBytes(records, fileName) + Concat(body)
            && (fileName in stored <==> fileName in records || body != [])
            && (fileName !in stored ==> stored == records)
            && stored - {fileName} == records - {fileName}
  {
    BatchesBytes(body);
    WithChunksBytes(records, fileName, Batches(body));
  }

  /** A stream that breaks keeps the bytes stored before followed by the full
      batches flushed before the break. */
  lemma BrokenStreamKeepsFlushed(records: Records, fileName: string, body: seq<Chunk>)
    ensures var kept := WithChunks(records, fileName, Flushed(body));
            && StoredBytes(kept, fileName) == StoredBytes(records, fileName) + Concat(body[..|body| / 1000 * 1000])
            && kept - {fileName} == records - {fileName}
  {
    FlushedBytes(body);
    WithChunksBytes(records, fileName, Flushed(body));
  }

  /** An accepted reply. When its stream completes, the file reassembled is the
      bytes stored before followed by every fragment of the body, and its record
      is gone afterwards; only a body with no fragments for a file with no record
      fails, with "No data exists.". When its stream breaks, the store keeps the
      bytes stored before followed by the fragments of the full batches flushed
      before the break. Other files are never touched. */
  lemma AcceptedReplyStoresBody(records: Records, fileName: string, reply: Reply)
    requires reply.Response? && CheckResponse(reply.status, reply.contentRange).Success?
    ensures var a := Attempt(records, fileName, reply);
            && a.reassembled == reply.ending.Done?
            && a.records - {fileName} == records - {fileName}
            && (reply.ending.Done? ==>
                  && (a.result.Delivered? <==> fileName in records || reply.body != [])
                  && (a.result.Delivered? ==>
                        && a.result == Delivered(fileName, StoredBytes(records, fileName) + Concat(reply.body))
                        && fileName !in a.records)
                  && (a.result.Failed? ==> a.result.message == Message(NoData) && a.records == records))
            && (reply.ending.Broken? ==>
                  && a.result == Failed(reply.ending.message)
                  && StoredBytes(a.records, fileName)
                     == StoredBytes(records, fileName) + Concat(reply.body[..|reply.body| / 1000 * 1000]))
  {
    if reply.ending.Done? {
      CompletedStreamStoresBody(records, fileName, reply.body);
      var stored := WithChunks(records, fileName, Batches(reply.body));
      assert (stored - {fileName}) - {fileName} == stored - {fileName};
    } else {
      BrokenStreamKeepsFlushed(records, fileName, reply.body);
    }
  }

  /** Whatever the server sends, an attempt that fails never shortens what is
      stored for the file, so the next attempt resumes at the same offset or a
      later one; only a delivered file loses its record. */
  lemma FailedAttemptNeverShortens(records: Records, fileName: string, reply: Reply)
    ensures var a := Attempt(records, fileName, reply);
            && (a.result.Failed? ==> StoredBytes(records, fileName) <= StoredBytes(a.records, fileName))
            && (a.result.Delivered? ==> fileName !in a.records)
  {
    if reply.Response? && CheckResponse(reply.status, reply.contentRange).Success? {
      AcceptedReplyStoresBody(records, fileName, reply);
    } else {
      RejectedReplyChangesNothing(records, fileName, reply);
    }
  }

  // ---------------------------------------------------------------------------
  // Resuming against a server that serves one fixed file
  // ---------------------------------------------------------------------------

  /** A reply that a server holding `content` may give to a request carrying the
      `Range` value `rangeHeader`: when the reply is accepted, the range asked for
      starts inside the file, and the body is the rest of the file from there, or
      a prefix of that rest when the stream breaks. */
  predicate Honest(content: seq<byte>, rangeHeader: string, reply: Reply)
  {
    reply.Response? && CheckResponse(reply.status, reply.contentRange).Success? ==>
      match RequestedStart(rangeHeader)
      case None => false
      case Some(s) =>
        && 0 <= s <= |content|
        && (reply.ending.Done? ==> Concat(reply.body) == content[s..])
        && (reply.ending.Broken? ==> Concat(reply.body) <= content[s..])
  }

  /** The `Range` value an attempt sends when `records` is the store. */
  function RangeFor(records: Records, fileName: string): string
  {
    RangeHeader(|StoredBytes(records, fileName)|)
  }

  /** Bytes that continue a prefix of `content` where it stops keep it a prefix. */
  lemma PrefixExtends(before: seq<byte>, more: seq<byte>, content: seq<byte>)
    requires before <= content && more <= content[|before|..]
    ensures before + more <= content
    ensures more == content[|before|..] ==> before + more == content
  {
  }

  /** A completed stream that carries the rest of the file after the bytes stored
      leaves exactly the file stored. */
  lemma CompletedStreamCompletesFile(records: Records, fileName: string, content: seq<byte>, body: seq<Chunk>)
    requires StoredBytes(records, fileName) <= content
    requires Concat(body) == content[|StoredBytes(records, fileName)|..]
    ensures var stored := WithChunks(records, fileName, Batches(body));
            && StoredBytes(stored, fileName) == content
            && (fileName !in stored ==> stored == records)
            && stored - {fileName} == records - {fileName}
  {
    CompletedStreamStoresBody(records, fileName, body);
    PrefixExtends(StoredBytes(records, fileName), Concat(body), content);
  }

  /** A stream that breaks, having carried part of the rest of the file, leaves a
      longer or equal prefix of the file stored. */
  lemma BrokenStreamKeepsPrefix(records: Records, fileName: string, content: seq<byte>, body: seq<Chunk>)
    requires StoredBytes(records, fileName) <= content
    requires Concat(body) <= content[|StoredBytes(records, fileName)|..]
    ensures var kept := WithChunks(records, fileName, Flushed(body));
            && StoredBytes(records, fileName) <= StoredBytes(kept, fileName) <= content
            && kept - {fileName} == records - {fileName}
  {
    BrokenStreamKeepsFlushed(records, fileName, body);
    FlushedBytes(body);
    PrefixExtends(StoredBytes(records, fileName), Concat(body[..|body| / 1000 * 1000]), content);
  }

  /** Resuming never loses, duplicates or reorders a byte: when what is stored for
      the file is a prefix of the file the server holds, after an attempt with an
      honest reply it still is, a delivered file is exactly the server's file, a
      failed attempt never shortens what is stored, and other files stay as they
      were. */
  lemma AttemptKeepsPrefix(records: Records, fileName: string, content: seq<byte>, reply: Reply)
    requires StoredBytes(records, fileName) <= content
    requires Honest(content, RangeFor(records, fileName), reply)
    ensures var a := Attempt(records, fileName, reply);
            && StoredBytes(a.records, fileName) <= content
            && (a.result.Delivered? ==> a.result.artifact == content && StoredBytes(a.records, fileName) == [])
            && (a.result.Failed? ==> StoredBytes(records, fileName) <= StoredBytes(a.records, fileName))
            && a.records - {fileName} == records - {fileName}
  {
    var before := StoredBytes(records, fileName);
    if reply.Response? && CheckResponse(reply.status, reply.contentRange).Success? {
      RangeHeaderRequestsStart(|before|);
      if reply.ending.Done? {
        CompletedStreamCompletesFile(records, fileName, content, reply.body);
        var stored := WithChunks(records, fileName, Batches(reply.body));
        assert (stored - {fileName}) - {fileName} == stored - {fileName};
      } else {
        BrokenStreamKeepsPrefix(records, fileName, content, reply.body);
      }
    } else {
      RejectedReplyChangesNothing(records, fileName, reply);
    }
  }

  /** Attempts one after another, each with its reply: the results in order and
      the store after the last, in which no other file's record has changed. */
  function Run(records: Records, fileName: string, replies: seq<Reply>): (r: (seq<AttemptResult>, Records))
    ensures |r.0| == |replies|
    ensures r.1 - {fileName} == records - {fileName}
    decreases |replies|
  {
    if replies == [] then ([], records)
    else
      var a := Attempt(records, fileName, replies[0]);
      var rest := Run(a.records, fileName, replies[1..]);
      ([a.result] + rest.0, rest.1)
  }

  /** Every reply in the run is honest for the request its attempt sends. */
  predicate HonestRun(records: Records, fileName: string, content: seq<byte>, replies: seq<Reply>)
    decreases |replies|
  {
    replies != [] ==>
      && Honest(content, RangeFor(records, fileName), replies[0])
      && HonestRun(Attempt(records, fileName, replies[0]).records, fileName, content, replies[1..])
  }

  /** Every file delivered among `results` is `content`. */
  predicate OnlyDelivers(results: seq<AttemptResult>, content: seq<byte>)
  {
    forall i :: 0 <= i < |results| && results[i].Delivered? ==> results[i].artifact == content
  }

  lemma OnlyDeliversCons(result: AttemptResult, rest: seq<AttemptResult>, content: seq<byte>)
    requires result.Delivered? ==> result.artifact == content
    requires OnlyDelivers(rest, content)
    ensures OnlyDelivers([result] + rest, content)
  {
    forall i | 0 <= i < |rest| + 1 && ([result] + rest)[i].Delivered?
      ensures ([result] + rest)[i].artifact == content
    {
      if i > 0 {
        assert ([result] + rest)[i] == rest[i - 1];
      }
    }
  }

  /** However many times a download is interrupted and resumed, one attempt after
      another, every file delivered is exactly the file on the server, and what
      stays stored for it is a prefix of that file. This holds for attempts that
      all use one file name and never overlap, against a server that keeps
      serving one file under it and answers each request with the range it asked
      for (`HonestRun`): the client itself never compares the first byte of
      `Content-Range` with the offset it asked for, and keys the store by the last
      segment of the URL only. */
  lemma {:induction false} ResumingDeliversTheFile(records: Records, fileName: string, content: seq<byte>, replies: seq<Reply>)
    requires StoredBytes(records, fileName) <= content
    requires HonestRun(records, fileName, content, replies)
    ensures var r := Run(records, fileName, replies);
            && OnlyDelivers(r.0, content)
            && StoredBytes(r.1, fileName) <= content
    decreases |replies|
  {
    if replies != [] {
      var a := Attempt(records, fileName, replies[0]);
      AttemptKeepsPrefix(records, fileName, content, replies[0]);
      ResumingDeliversTheFile(a.records, fileName, content, replies[1..]);
      var rest := Run(a.records, fileName, replies[1..]);
      OnlyDeliversCons(a.result, rest.0, content);
    }
  }

  /** The store is keyed by the last segment of the URL only: two cards for
      different URLs that end in the same name share one record, so a download of
      one resumes from the bytes the other left, and the file delivered holds
      bytes of both. */
  lemma SharedNameMixesFiles()
    ensures FileNameOf("x/f") == FileNameOf("y/f") == "f"
    ensures var leftByOther := map["f" := FileRecord("f", [[9]])];
            var reply := Response(206, Some("bytes 1-1/2"), [[2]], Done);
            Attempt(leftByOther, FileNameOf("y/f"), reply).result == Delivered("f", [9, 2])
  {
    SameLastSegment();
    var nine: Chunk := [9];
    var two: Chunk := [2];
    var records := map["f" := FileRecord("f", [nine])];
    var reply := Response(206, Some("bytes 1-1/2"), [two], Done);
    assert CheckResponse(206, Some("bytes 1-1/2")).Success?;
    AcceptedReplyStoresBody(records, "f", reply);
    SingleChunk(nine);
    SingleChunk(two);
    assert StoredBytes(records, "f") == nine;
    var a := Attempt(records, "f", reply);
    assert a.result == Delivered("f", nine + two);
    var delivered := nine + two;
    assert |delivered| == 2 && delivered[0] == 9 && delivered[1] == 2;
    assert delivered == [9, 2];
  }

  /** The URLs `x/f` and `y/f` give the same file name. */
  lemma SameLastSegment()
    ensures FileNameOf("x/f") == FileNameOf("y/f") == "f"
  {
    SplitWithoutSeparator("x", '/');
    SplitWithoutSeparator("y", '/');
    SplitWithoutSeparator("f", '/');
    assert "x/f" == "x" + ['/'] + "f";
    assert "y/f" == "y" + ['/'] + "f";
    SplitAfterSeparator("x", '/', "f");
    SplitAfterSeparator("y", '/', "f");
  }

  /** The bytes of one chunk alone are that chunk. */
  lemma SingleChunk(c: Chunk)
    ensures Concat([c]) == c
  {
    assert [c][..0] == [];
  }

  /** A server that ignores the `Range` asked for and sends the whole file again
      is not honest. */
  lemma IgnoredRangeIsNotHonest()
    ensures var content: seq<byte> := [9, 2];
            var records := map["f" := FileRecord("f", [[9]])];
            var reply := Response(206, Some("bytes 0-1/2"), [[9, 2]], Done);
            && StoredBytes(records, "f") <= content
            && !Honest(content, RangeFor(records, "f"), reply)
  {
    var nine: Chunk := [9];
    var content: Chunk := [9, 2];
    var records := map["f" := FileRecord("f", [nine])];
    var reply := Response(206, Some("bytes 0-1/2"), [content], Done);
    SingleChunk(nine);
    SingleChunk(content);
    assert StoredBytes(records, "f") == nine && nine <= content;
    assert CheckResponse(206, Some("bytes 0-1/2")).Success?;
    ResentFileIsNotHonest(content, records, "f", reply);
  }

  /** Resuming from a server that ignores the `Range` asked for delivers the
      stored bytes twice: nothing on the client's side catches this. */
  lemma IgnoredRangeDuplicatesBytes()
    ensures var records := map["f" := FileRecord("f", [[9]])];
            var reply := Response(206, Some("bytes 0-1/2"), [[9, 2]], Done);
            Attempt(records, "f", reply).result == Delivered("f", [9, 9, 2])
  {
    var nine: Chunk := [9];
    var content: Chunk := [9, 2];
    var records := map["f" := FileRecord("f", [nine])];
    var reply := Response(206, Some("bytes 0-1/2"), [content], Done);
    SingleChunk(nine);
    SingleChunk(content);
    assert StoredBytes(records, "f") == nine;
    assert CheckResponse(206, Some("bytes 0-1/2")).Success?;
    AcceptedReplyStoresBody(records, "f", reply);
    var a := Attempt(records, "f", reply);
    assert a.result == Delivered("f", nine + content);
    var delivered := nine + content;
    assert |delivered| == 3 && delivered[0] == 9 && delivered[1] == 9 && delivered[2] == 2;
    assert delivered == [9, 9, 2];
  }

  /** Once some bytes are stored, a completed reply that carries the whole file
      again is not an honest answer to the `Range` sent. */
  lemma ResentFileIsNotHonest(content: seq<byte>, records: Records, fileName: string, reply: Reply)
    requires reply.Response? && CheckResponse(reply.status, reply.contentRange).Success?
    requires reply.ending.Done? && Concat(reply.body) == content
    requires 0 < |StoredBytes(records, fileName)| <= |content|
    ensures !Honest(content, RangeFor(records, fileName), reply)
  {
    RangeHeaderRequestsStart(|StoredBytes(records, fileName)|);
    assert |content[|StoredBytes(records, fileName)|..]| < |content|;
  }

  // ---------------------------------------------------------------------------
  // The component
  // ---------------------------------------------------------------------------

  /** One `Card`: the file it offers, the database from the context, and the state
      hooks that `downloadFile` sets. */
  class Card {
    const db: Database?
    const fileUrl: string
    /** `BACKEND_BASE_URL` of `src/app/settings.js`. */
    const backendBaseUrl: string
    var isDownloading: bool
    var errorMessage: Option<string>
    var isWaiting: bool
    var isFileBuilt: bool
    var isDownloadCompleted: bool

    /** The initial state of the hooks. */
    constructor (db: Database?, fileUrl: string, backendBaseUrl: string)
      ensures this.db == db && this.fileUrl == fileUrl && this.backendBaseUrl == backendBaseUrl
      ensures !isDownloading && errorMessage == None && !isWaiting && !isFileBuilt && !isDownloadCompleted
    {
      this.db := db;
      this.fileUrl := fileUrl;
      this.backendBaseUrl := backendBaseUrl;
      isDownloading := false;
      errorMessage := None;
      isWaiting := false;
      isFileBuilt := false;
      isDownloadCompleted := false;
    }

    /** The `disabled` attribute of the Download button. */
    predicate DownloadDisabled()
      reads this
    {
      isDownloading || isWaiting || isDownloadCompleted
    }

    /** Records a failure: `setErrorMessage(err.message)` in the `catch`. */
    method Fail(message: string) returns (outcome: AttemptResult)
      modifies this`errorMessage
      ensures outcome == Failed(message) && errorMessage == Some(message)
    {
      errorMessage := Some(message);
      outcome := Failed(message);
    }

    /** The end of `downloadFile` once the stream is done: `setIsWaiting(true)`,
        read the file back, `setIsFileBuilt(true)`, and delete its record. A file
        with no record fails with "No data exists." and leaves the store alone. */
    method Reassemble(fileName: string) returns (outcome: AttemptResult)
      requires db != null && db.Valid()
      modifies this`errorMessage, this`isWaiting, this`isFileBuilt, db
      ensures db.Valid() && isWaiting
      ensures fileName in old(db.records) ==>
                && outcome == Delivered(fileName, old(StoredBytes(db.records, fileName)))
                && db.records == old(db.records) - {fileName}
                && isFileBuilt && errorMessage == old(errorMessage)
      ensures fileName !in old(db.records) ==>
                && outcome == Failed(Message(NoData)) && db.records == old(db.records)
                && isFileBuilt == old(isFileBuilt) && errorMessage == Some(Message(NoData))
    {
      isWaiting := true;
      var blob := CombineChunks(db, fileName);
      if blob.Failure? {
        outcome := Fail(Message(blob.error));
        return;
      }
      isFileBuilt := true;
      var _ := DeleteChunks(db, fileName);
      outcome := Delivered(fileName, blob.value);
    }

    /** The part of `downloadFile` after the response has been accepted: stream the
        body into the store, then reassemble the file and delete its record. */
    method StreamAndReassemble(fileName: string, start: nat, contentRange: string, body: seq<Chunk>, ending: StreamEnd)
      returns (outcome: AttemptResult)
      requires db != null && db.Valid() && start == |StoredBytes(db.records, fileName)|
      requires contentRange != ""
      modifies this`errorMessage, this`isWaiting, this`isFileBuilt, db
      ensures db.Valid()
      ensures var a := Attempt(old(db.records), fileName, Response(206, Some(contentRange), body, ending));
              && outcome == a.result && db.records == a.records
              && isWaiting == (old(isWaiting) || a.reassembled)
      ensures isFileBuilt == (old(isFileBuilt) || outcome.Delivered?)
      ensures outcome.Failed? ==> errorMessage == Some(outcome.message)
      ensures outcome.Delivered? ==> errorMessage == old(errorMessage)
    {
      var session := new TransferSession(db, fileName, start, TotalBytes(contentRange));
      var streamed := session.ProcessStream(body, ending);
      if streamed.Fail? {
        outcome := Fail(streamed.error);
        return;
      }
      outcome := Reassemble(fileName);
    }

    /** What `downloadFile` does with the reply: turn it away, or stream the body
        into the store and reassemble the file. */
    method HandleReply(fileName: string, start: nat, reply: Reply) returns (outcome: AttemptResult)
      requires db != null && db.Valid() && start == |StoredBytes(db.records, fileName)|
      modifies this`errorMessage, this`isWaiting, this`isFileBuilt, db
      ensures db.Valid()
      ensures var a := Attempt(old(db.records), fileName, reply);
              && outcome == a.result && db.records == a.records
              && isWaiting == (old(isWaiting) || a.reassembled)
      ensures isFileBuilt == (old(isFileBuilt) || outcome.Delivered?)
      ensures outcome.Failed? ==> errorMessage == Some(outcome.message)
      ensures outcome.Delivered? ==> errorMessage == old(errorMessage) && isWaiting
    {
      match reply {
        case NetworkError(message) =>
          outcome := Fail(message);
        case Response(status, contentRange, body, ending) =>
          var checked := CheckResponse(status, contentRange);
          if checked.Failure? {
            outcome := Fail(checked.error);
          } else {
            outcome := StreamAndReassemble(fileName, start, checked.value, body, ending);
          }
      }
    }

    /** `downloadFile()`: one attempt, resumed from the bytes stored for the file's
        name. The request asks for the range from exactly the stored length; the
        attempt then does what `Attempt` says with the server's reply. Without a
        database nothing is requested. Afterwards the button is enabled again
        unless the file was reassembled. */
    method DownloadFile(server: (string, string) -> Reply) returns (outcome: AttemptResult)
      requires db != null ==> db.Valid()
      modifies this`isDownloading, this`errorMessage, this`isWaiting, this`isFileBuilt, db
      ensures !isDownloading && isDownloadCompleted == old(isDownloadCompleted)
      ensures db == null ==> outcome == Failed(Message(NotOpen))
                             && isWaiting == old(isWaiting) && isFileBuilt == old(isFileBuilt)
      ensures db != null ==>
                var fileName := FileNameOf(fileUrl);
                var a := Attempt(old(db.records), fileName,
                                 server(RequestUrl(backendBaseUrl, fileUrl), old(RangeFor(db.records, fileName))));
                && db.Valid()
                && outcome == a.result && db.records == a.records
                && isWaiting == (old(isWaiting) || a.reassembled)
      ensures isFileBuilt == (old(isFileBuilt) || outcome.Delivered?)
      ensures outcome.Failed? ==> errorMessage == Some(outcome.message)
      ensures outcome.Delivered? ==> errorMessage == old(errorMessage) && DownloadDisabled()
      ensures outcome.Failed? && isWaiting == old(isWaiting) && !old(DownloadDisabled()) ==> !DownloadDisabled()
    {
      isDownloading := true;
      var fileName := FileNameOf(fileUrl);
      var url := RequestUrl(backendBaseUrl, fileUrl);
      var length := ExistingFileLength(db, fileName);
      if length.Failure? {
        outcome := Fail(Message(length.error));
      } else {
        ghost var records0 := db.records;
        assert records0 == old(db.records);
        var rangeHeader := RangeHeader(length.value);
        assert rangeHeader == RangeFor(records0, fileName);
        var reply := server(url, rangeHeader);
        outcome := HandleReply(fileName, length.value, reply);
        ghost var a := Attempt(records0, fileName, reply);
        assert outcome == a.result && db.records == a.records;
      }
      isDownloading := false;
    }
  }
}
