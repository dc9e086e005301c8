/** The chunk store of `src/app/util.js`: the IndexedDB database "FileDownloadDB"
    (version 1) with one object store, "fileChunks", whose key path is `fileName`.
    Each record holds the ordered list of byte chunks saved so far for one file.
    The object store is kept as a map from file name to record; every operation
    settles synchronously instead of through request callbacks. */
module ChunkStore {
  import opened Wrappers
  import opened Bytes

  const DatabaseName := "FileDownloadDB"
  const DatabaseVersion := 1
  const ObjectStoreName := "fileChunks"

  /** A stored record `{fileName, chunks}`. */
  datatype FileRecord = FileRecord(fileName: string, chunks: seq<Chunk>)

  /** The contents of the "fileChunks" object store, by key. */
  type Records = map<string, FileRecord>

  /** The key path of the object store: each record lives under its own `fileName`. */
  ghost predicate KeyedByFileName(records: Records)
  {
    forall k :: k in records ==> records[k].fileName == k
  }

  /** The reasons a store operation rejects. */
  datatype StoreError = NotOpen | NoData

  /** The `message` of the `Error` each rejection carries. */
  function Message(e: StoreError): string
  {
    match e
    case NotOpen => "Please open the database first."
    case NoData => "No data exists."
  }

  /** The chunks stored for `fileName`; none when there is no record. */
  function ChunksOf(records: Records, fileName: string): seq<Chunk>
  {
    if fileName in records then records[fileName].chunks else []
  }

  /** The bytes stored for `fileName`, in the order they were saved. */
  function StoredBytes(records: Records, fileName: string): seq<byte>
  {
    Concat(ChunksOf(records, fileName))
  }

  /** The object store after one chunk is appended to the record of `fileName`,
      the record being created when there is none. */
  function WithChunk(records: Records, fileName: string, chunk: Chunk): Records
  {
    records[fileName := FileRecord(fileName, ChunksOf(records, fileName) + [chunk])]
  }

  /** The object store after the blocks are appended one by one to the record of
      `fileName`; appending nothing leaves it as it is, even without a record. */
  function WithChunks(records: Records, fileName: string, blocks: seq<Chunk>): Records
  {
    if blocks == [] then records
    else records[fileName := FileRecord(fileName, ChunksOf(records, fileName) + blocks)]
  }

  /** The IndexedDB database holding the "fileChunks" object store. */
  class Database {
    /** The name and version passed to `indexedDB.open`, and the object stores that
        exist once `onupgradeneeded` has run. */
    const name: string
    const version: nat
    const objectStoreNames: set<string>
    var records: Records

    ghost predicate Valid()
      reads this
    {
      KeyedByFileName(records)
    }

    /** The open request that creates the database: `onupgradeneeded` creates the
        empty object store. */
    constructor ()
      ensures name == DatabaseName && version == DatabaseVersion
      ensures objectStoreNames == {ObjectStoreName}
      ensures Valid() && records == map[]
    {
      name := DatabaseName;
      version := DatabaseVersion;
      objectStoreNames := {ObjectStoreName};
      records := map[];
    }

    /** `objectStore.get(key)`: the record, or `undefined` (`None`). */
    function Get(key: string): (r: Option<FileRecord>)
      reads this
      ensures r.Some? <==> key in records
      ensures Valid() && r.Some? ==> r.value.fileName == key
    {
      if key in records then Some(records[key]) else None
    }

    /** `objectStore.put(record)`: stores the record under its key path. */
    method Put(record: FileRecord)
      modifies this
      ensures records == old(records)[record.fileName := record]
    {
      records := records[record.fileName := record];
    }

    /** `objectStore.delete(key)`; deleting an absent key succeeds too. */
    method Delete(key: string)
      modifies this
      ensures records == old(records) - {key}
    {
      records := records - {key};
    }
  }

  /** `getExistingFileLength(db, fileName)`: the number of bytes already stored for
      the file, 0 when there is no record; rejects when `db` is not set. */
  function ExistingFileLength(db: Database?, fileName: string): (r: Result<nat, StoreError>)
    reads db
    ensures db == null ==> r == Failure(NotOpen)
    ensures db != null ==> r == Success(|StoredBytes(db.records, fileName)|)
    ensures db != null && fileName !in db.records ==> r == Success(0)
  {
    if db == null then Failure(NotOpen)
    else
      match db.Get(fileName)
      case Some(data) =>
        ConcatLength(data.chunks);
        Success(TotalLength(data.chunks))
      case None => Success(0)
  }

  /** `saveChunkToIndexedDB(db, fileName, chunk)`: reads the record (or starts
      `{fileName, chunks: []}`), pushes `chunk` and puts the record back. */
  method SaveChunk(db: Database?, fileName: string, chunk: Chunk) returns (r: Outcome<StoreError>)
    requires db != null ==> db.Valid()
    modifies db
    ensures db == null ==> r == Fail(NotOpen)
    ensures db != null ==> r == Pass && db.Valid()
    ensures db != null ==> db.records == WithChunk(old(db.records), fileName, chunk)
    ensures db != null ==> StoredBytes(db.records, fileName) == old(StoredBytes(db.records, fileName)) + chunk
  {
    if db == null {
      return Fail(NotOpen);
    }
    var data := match db.Get(fileName)
      case Some(d) => d
      case None => FileRecord(fileName, []);
    data := data.(chunks := data.chunks + [chunk]);
    db.Put(data);
    ConcatSnoc(ChunksOf(old(db.records), fileName), chunk);
    r := Pass;
  }

  /** `combineChunksFromIndexedDB(db, fileName)`: the stored chunks as one blob, in
      the order they were saved; rejects with "No data exists." without a record. */
  function CombineChunks(db: Database?, fileName: string): (r: Result<seq<byte>, StoreError>)
    reads db
    ensures db == null ==> r == Failure(NotOpen)
    ensures db != null && fileName !in db.records ==> r == Failure(NoData)
    ensures db != null && fileName in db.records ==> r == Success(StoredBytes(db.records, fileName))
    ensures r.Success? ==> ExistingFileLength(db, fileName) == Success(|r.value|)
  {
    if db == null then Failure(NotOpen)
    else
      match db.Get(fileName)
      case Some(data) => Success(Concat(data.chunks))
      case None => Failure(NoData)
  }

  /** `deleteChunksFromIndexedDB(db, fileName)`: afterwards the file has no record,
      so its length is 0 and combining it fails; other records stay as they were. */
  method DeleteChunks(db: Database?, fileName: string) returns (r: Outcome<StoreError>)
    requires db != null ==> db.Valid()
    modifies db
    ensures db == null ==> r == Fail(NotOpen)
    ensures db != null ==> r == Pass && db.Valid() && db.records == old(db.records) - {fileName}
    ensures db != null ==> ExistingFileLength(db, fileName) == Success(0)
    ensures db != null ==> CombineChunks(db, fileName) == Failure(NoData)
  {
    if db == null {
      return Fail(NotOpen);
    }
    db.Delete(fileName);
    r := Pass;
  }

  /** Appending creates `{fileName, chunks: [chunk]}` when there is no record and
      otherwise adds `chunk` after the chunks already there; the stored length
      grows by exactly `|chunk|` and every other record is left alone. */
  lemma AppendAddsLastChunk(records: Records, fileName: string, chunk: Chunk)
    ensures var after := WithChunk(records, fileName, chunk);
            && (fileName !in records ==> after[fileName] == FileRecord(fileName, [chunk]))
            && ChunksOf(after, fileName) == ChunksOf(records, fileName) + [chunk]
            && |StoredBytes(after, fileName)| == |StoredBytes(records, fileName)| + |chunk|
            && after - {fileName} == records - {fileName}
  {
    ConcatSnoc(ChunksOf(records, fileName), chunk);
  }

  /** Appending a batch of blocks adds their bytes after the stored ones; the file
      has a record afterwards when it had one or the batch is not empty, and no
      other record changes. */
  lemma WithChunksBytes(records: Records, fileName: string, blocks: seq<Chunk>)
    ensures var after := WithChunks(records, fileName, blocks);
            && StoredBytes(after, fileName) == StoredBytes(records, fileName) + Concat(blocks)
            && (fileName in after <==> fileName in records || blocks != [])
            && after - {fileName} == records - {fileName}
  {
    ConcatSplit(ChunksOf(records, fileName), blocks);
    if blocks == [] {
      assert ChunksOf(records, fileName) + blocks == ChunksOf(records, fileName);
    }
  }

  /** Appending blocks one by one gives the same store as appending them together. */
  lemma WithChunksAppends(records: Records, fileName: string, blocks: seq<Chunk>, block: Chunk)
    ensures WithChunk(WithChunks(records, fileName, blocks), fileName, block)
            == WithChunks(records, fileName, blocks + [block])
  {
    if blocks == [] {
      assert blocks + [block] == [block];
    }
    assert ChunksOf(records, fileName) + blocks + [block] == ChunksOf(records, fileName) + (blocks + [block]);
  }

  /** The outcome of the browser's open request: the database, or the error it
      failed with. */
  datatype OpenResult = Opened(db: Database) | OpenFailed(message: string)

  /** The module-level `dbPromise` of `openIndexedDB`: set by the first call and
      returned by every later call. */
  class Connector {
    var dbPromise: Option<OpenResult>
    /** How many open requests have been issued. */
    ghost var openRequests: nat

    constructor ()
      ensures dbPromise == None && openRequests == 0
    {
      dbPromise := None;
      openRequests := 0;
    }

    /** `openIndexedDB()`. `request` is what an open request would settle to if
        one were issued now. A settled promise, rejected ones included, is kept
        and returned again without opening a second time. */
    method OpenIndexedDB(request: OpenResult) returns (p: OpenResult)
      modifies this
      ensures old(dbPromise).Some? ==> p == old(dbPromise).value && openRequests == old(openRequests)
      ensures old(dbPromise).None? ==> p == request && openRequests == old(openRequests) + 1
      ensures dbPromise == Some(p)
    {
      if dbPromise.Some? {
        return dbPromise.value;
      }
      dbPromise := Some(request);
      openRequests := openRequests + 1;
      p := request;
    }
  }
}
