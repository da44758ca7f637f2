/** The file registry service: reassembles uploads, skips what it already has, and serves downloads in chunks. */
module FileRegistry {
  import opened Runs
  import opened Wrappers
  import opened Bytes
  import opened KeyOrder
  import opened ImageStore
  import opened ImageTransfer

  datatype Code = InvalidArgument | AlreadyExists | NotFound | Internal | StreamBroken

  datatype ImageEvent = Uploaded(imageId: string) | Removed(imageId: string)

  datatype VmImage = VmImage(imageId: string, hash: string, size: nat)

  const CHUNK_SIZE: nat := 1024 * 1024

  // ---- What an upload does to the store ----

  /**
    Where an upload fails: creating the temporary file, writing a chunk to it, closing or hashing it, looking up the
    recorded hash, opening it again, storing, or answering the client.
   */
  datatype UploadFault =
    | NoFault
    | TempFailed
    | ChunkFailed(at: nat)
    | HashFailed
    | LookupFailed
    | ReopenFailed
    | StoreFailed(fault: StoreFault)
    | ReplyFailed

  /** The recorded hash of the image is that of the content. */
  predicate Known(disk: Disk, id: string, data: seq<byte>) {
    id in disk.db && disk.db[id].hash == disk.contentHash(data)
  }

  /** The upload gets to storing the data. A failed lookup counts as an unknown image. */
  predicate Reaches(disk: Disk, id: string, data: seq<byte>, fault: UploadFault) {
    !fault.HashFailed? && !fault.ReopenFailed? && (fault.LookupFailed? || !Known(disk, id, data))
  }

  function StoreFaultOf(fault: UploadFault): StoreFault {
    if fault.StoreFailed? then fault.fault else StoresFine
  }

  /** The store after all chunks were received. */
  function AfterUpload(disk: Disk, id: string, data: seq<byte>, fault: UploadFault): Disk {
    if Reaches(disk, id, data, fault) then disk.Stored(id, data, StoreFaultOf(fault)) else disk
  }

  /** What the client is told then, if not success. */
  function UploadError(disk: Disk, id: string, data: seq<byte>, fault: UploadFault): Option<Code> {
    if fault.HashFailed? then Some(Internal)
    else if fault.ReopenFailed? && !Known(disk, id, data) then Some(Internal)
    else if Reaches(disk, id, data, fault) && !StoreFaultOf(fault).StoresFine? then Some(Internal)
    else if fault.ReplyFailed? then Some(StreamBroken)
    else None
  }

  function UploadNews(disk: Disk, id: string, data: seq<byte>, fault: UploadFault): seq<ImageEvent> {
    if Reaches(disk, id, data, fault) && StoreFaultOf(fault).StoresFine? then [Uploaded(id)] else []
  }

  /**
    What a received upload comes to: which outcomes are a success, what is announced, and what is stored. It is skipped
    if the lookup works and finds the content's hash; it succeeds if nothing that is then still to be done fails.
   */
  lemma ReceivedUpload(disk: Disk, id: string, data: seq<byte>, fault: UploadFault)
    requires disk.Valid()
    ensures
      var skipped := !fault.LookupFailed? && id in disk.db && disk.db[id].hash == disk.contentHash(data);
      var stored := !skipped && !fault.HashFailed? && !fault.ReopenFailed?
                    && (fault.StoreFailed? ==> fault.fault == StoresFine);
      && (UploadError(disk, id, data, fault) == None <==>
          !fault.HashFailed? && !fault.ReplyFailed? && (skipped || stored))
      && (UploadError(disk, id, data, fault) == Some(StreamBroken) <==> fault.ReplyFailed?)
      && (UploadError(disk, id, data, fault) in {None, Some(StreamBroken), Some(Internal)})
      && UploadNews(disk, id, data, fault) == (if stored then [Uploaded(id)] else [])
      && (stored ==> AfterUpload(disk, id, data, fault).Contents() == disk.Contents()[id := data])
      && (skipped || fault.HashFailed? || fault.ReopenFailed? ==> AfterUpload(disk, id, data, fault) == disk)
  {
    StoredFine(disk, id, data);
    hide Disk.Valid, Disk.Contents, Disk.Stored;
  }

  /**
    An upload, however it ends, leaves the images as they were exactly if it is skipped or fails before storing, if
    storing fails before the file is touched or for an unknown id, or if the bytes it leaves are the old ones.
   */
  lemma UploadKeepsImages(disk: Disk, id: string, data: seq<byte>, fault: UploadFault)
    requires disk.Valid()
    ensures AfterUpload(disk, id, data, fault).Valid()
    ensures AfterUpload(disk, id, data, fault).Contents() == disk.Contents()
       <==> || !Reaches(disk, id, data, fault)
            || (!StoreFaultOf(fault).StoresFine? && (StoreFaultOf(fault).CreateFails? || id !in disk.db))
            || (id in disk.Contents() && disk.Contents()[id] == Left(data, StoreFaultOf(fault)))
  {
    if Reaches(disk, id, data, fault) {
      if StoreFaultOf(fault).StoresFine? {
        StoredFine(disk, id, data);
        assert disk.Contents()[id := data][id] == data;
        assert id in disk.Contents() && disk.Contents()[id] == data ==> disk.Contents()[id := data] == disk.Contents();
      } else {
        FailedStoreKeepsImages(disk, id, data, StoreFaultOf(fault));
      }
    }
  }

  /** The upload overwrites a known image in part or in full, fails, and what is left does not fit the old record. */
  predicate Damages(disk: Disk, id: string, data: seq<byte>, fault: UploadFault) {
    && Reaches(disk, id, data, fault)
    && (StoreFaultOf(fault).CopyFails? || StoreFaultOf(fault).RecordFails?)
    && id in disk.db && !disk.Fits(id, Left(data, StoreFaultOf(fault)))
  }

  lemma UploadKeepsIntact(disk: Disk, id: string, data: seq<byte>, fault: UploadFault)
    requires disk.Valid() && disk.AllIntact()
    ensures AfterUpload(disk, id, data, fault).AllIntact() <==> !Damages(disk, id, data, fault)
  {
    if Reaches(disk, id, data, fault) {
      if StoreFaultOf(fault).StoresFine? {
        StoredFineIntact(disk, id, data);
      } else {
        FailedStoreKeepsIntact(disk, id, data, StoreFaultOf(fault));
      }
    }
  }

  /**
    A later upload without faults repairs a damaged image, and
    stores its bytes, exactly unless their hash is the recorded one.
   */
  lemma RepairedExactly(disk: Disk, id: string, data: seq<byte>)
    requires disk.Valid()
    ensures
      var after := AfterUpload(disk, id, data, NoFault);
      && (after.Intact(id) <==> !Known(disk, id, data) || disk.Intact(id))
      && (id in after.Contents() && after.Contents()[id] == data
          <==> !Known(disk, id, data) || (id in disk.Contents() && disk.Contents()[id] == data))
  {
    StoredFine(disk, id, data);
  }

  /**
    After an overwrite that failed in its copy, uploading the old bytes again is skipped: the store keeps the copied
    part, which is what the image is then read as.
   */
  lemma OldBytesAreSkipped(disk: Disk, id: string, data: seq<byte>, kept: nat)
    requires disk.Valid() && disk.AllIntact() && id in disk.Contents() && !Known(disk, id, data)
    ensures
      var damaged := AfterUpload(disk, id, data, StoreFailed(CopyFails(kept)));
      var again := AfterUpload(damaged, id, disk.Contents()[id], NoFault);
      && UploadError(disk, id, data, StoreFailed(CopyFails(kept))) == Some(Internal)
      && UploadError(damaged, id, disk.Contents()[id], NoFault) == None
      && again == damaged
      && id in again.Contents() && again.Contents()[id] == Left(data, CopyFails(kept))
      && (again.Intact(id) <==> disk.Fits(id, Left(data, CopyFails(kept))))
  {
    assert disk.Intact(id);
    FailedStoreKeepsImages(disk, id, data, CopyFails(kept));
  }

  /** Unless two different contents have the same hash, an upload stores exactly the uploaded bytes, skipped or not. */
  lemma UploadStoresOrCollides(disk: Disk, id: string, data: seq<byte>)
    requires disk.Valid() && disk.AllIntact()
    ensures
      var images, after := disk.Contents(), AfterUpload(disk, id, data, NoFault).Contents();
      && id in after
      && (after == images[id := data] <==>
          !(id in images && images[id] != data && disk.contentHash(images[id]) == disk.contentHash(data)))
  {
    assert id in disk.db ==> disk.Intact(id);
    RepairedExactly(disk, id, data);
    if Known(disk, id, data) {
      assert disk.Contents()[id] == data ==> disk.Contents()[id := data] == disk.Contents();
      assert disk.Contents()[id := data][id] == data;
    } else {
      StoredFine(disk, id, data);
    }
  }

  /** What a download returns after an upload without faults: what is stored then, if the upload is skipped. */
  ghost function ServedAfter(disk: Disk, id: string, data: seq<byte>): Result<seq<byte>, Code> {
    if !Known(disk, id, data) then Ok(data)
    else if id in disk.Contents() then Ok(disk.Contents()[id])
    else Err(Internal)
  }

  lemma UploadServes(disk: Disk, id: string, data: seq<byte>)
    requires disk.Valid()
    ensures
      var after := AfterUpload(disk, id, data, NoFault);
      && UploadError(disk, id, data, NoFault) == None && id in after.db
      && (if id in after.Contents() then Ok(after.Contents()[id]) else Err(Internal)) == ServedAfter(disk, id, data)
  {
    StoredFine(disk, id, data);
  }

  /** With all records true that is the uploaded data, exactly unless two different contents have the same hash. */
  lemma ServedUnlessCollision(disk: Disk, id: string, data: seq<byte>)
    requires disk.AllIntact()
    ensures
      var images, served := disk.Contents(), ServedAfter(disk, id, data);
      && served.Ok?
      && (served.value == data <==>
          !(id in images && images[id] != data && disk.contentHash(images[id]) == disk.contentHash(data)))
  {
    assert id in disk.db ==> disk.Intact(id);
  }

  // ---- Sequences of operations ----

  datatype ImageOp =
    | UploadOp(id: string, data: seq<byte>, fault: UploadFault)
    | RemoveOp(id: string, removeFault: RemoveFault)

  function Perform(disk: Disk, op: ImageOp): Disk {
    match op
    case UploadOp(id, data, fault) => AfterUpload(disk, id, data, fault)
    case RemoveOp(id, fault) => disk.Removed(id, fault)
  }

  function PerformAll(disk: Disk, ops: seq<ImageOp>): Disk {
    Fold(Perform, disk, ops)
  }

  /** The operation makes a record untrue: known from the store before it and from where it fails. */
  predicate Harmful(disk: Disk, op: ImageOp) {
    match op
    case UploadOp(id, data, fault) => Damages(disk, id, data, fault)
    case RemoveOp(id, fault) => fault.ForgetFails? && id in disk.db
  }

  lemma PerformKeepsIntact(disk: Disk, op: ImageOp)
    requires disk.Valid()
    ensures Perform(disk, op).Valid()
    ensures disk.AllIntact() ==> (Perform(disk, op).AllIntact() <==> !Harmful(disk, op))
  {
    match op
    case UploadOp(id, data, fault) =>
      UploadKeepsImages(disk, id, data, fault);
      if disk.AllIntact() {
        UploadKeepsIntact(disk, id, data, fault);
      }
    case RemoveOp(id, fault) =>
      if !fault.LookupFails? && !(fault.UnlinkFails? && id in disk.db) {
        RemovedImages(disk, id, fault);
      }
      if disk.AllIntact() {
        RemovedKeepsIntact(disk, id, fault);
      }
  }

  /** After the first `n` operations every record is true. */
  ghost predicate IntactAfter(disk: Disk, ops: seq<ImageOp>, n: nat)
    requires n <= |ops|
  {
    PerformAll(disk, ops[..n]).Valid() && PerformAll(disk, ops[..n]).AllIntact()
  }

  ghost predicate HarmfulAt(disk: Disk, ops: seq<ImageOp>, n: nat)
    requires n < |ops|
  {
    Harmful(PerformAll(disk, ops[..n]), ops[n])
  }

  lemma IntactStep(disk: Disk, ops: seq<ImageOp>, n: nat)
    requires n < |ops| && IntactAfter(disk, ops, n)
    ensures IntactAfter(disk, ops, n + 1) <==> !HarmfulAt(disk, ops, n)
  {
    assert ops[..n + 1][..n] == ops[..n];
    PerformKeepsIntact(PerformAll(disk, ops[..n]), ops[n]);
  }

  /** Over every sequence of operations, records describe their files throughout exactly if no operation is harmful. */
  lemma {:induction false} IntactThroughout(disk: Disk, ops: seq<ImageOp>, n: nat)
    requires disk.Valid() && disk.AllIntact() && n <= |ops|
    ensures (forall i | 0 <= i <= n :: IntactAfter(disk, ops, i)) <==>
            (forall i | 0 <= i < n :: !HarmfulAt(disk, ops, i))
  {
    assert IntactAfter(disk, ops, 0);
    hide IntactAfter, HarmfulAt;
    if n > 0 {
      IntactThroughout(disk, ops, n - 1);
      if IntactAfter(disk, ops, n - 1) {
        IntactStep(disk, ops, n - 1);
      }
    }
  }

  // ---- The service ----

  /** Where a download fails: looking the image up, a read, or a send, counted from zero. */
  datatype ServeFault = ServesFine | LookupBreaks | ReadBreaks(turn: nat) | SendBreaks(turn: nat)

  function ServeResult(fault: ServeFault, sent: nat, all: bool): Result<(), Code> {
    if fault == ReadBreaks(sent) || (fault == SendBreaks(sent) && !all) then Err(Internal) else Ok(())
  }

  /** What the client is told when an upload ends before its last chunk is in the temporary file. */
  function EarlyError(requests: seq<UploadRequest>, complete: bool, fault: UploadFault,
                      temp: set<string>): Option<Code> {
    if requests == [] then Some(if complete then InvalidArgument else StreamBroken)
    else if requests[0].imageId == "" then Some(InvalidArgument)
    else if requests[0].imageId in temp then Some(AlreadyExists)
    else if fault.TempFailed? || (fault.ChunkFailed? && fault.at < |requests|) then Some(Internal)
    else if !complete then Some(StreamBroken)
    else None
  }

  /** An upload is received exactly if it is named, the first of its name, complete, and written without a failure. */
  lemma EarlyErrors(requests: seq<UploadRequest>, complete: bool, fault: UploadFault, temp: set<string>)
    ensures
      var named := requests != [] && requests[0].imageId != "";
      var written := !fault.TempFailed? && !(fault.ChunkFailed? && fault.at < |requests|);
      var error := EarlyError(requests, complete, fault, temp);
      && (error == None <==> complete && named && requests[0].imageId !in temp && written)
      && (error == Some(InvalidArgument) <==> if requests == [] then complete else !named)
      && (error == Some(AlreadyExists) <==> named && requests[0].imageId in temp)
      && (error == Some(Internal) <==> named && requests[0].imageId !in temp && !written)
      && error != Some(Code.NotFound)
  {
  }

  class Registry {
    const storage: LocalFilesystemBackend
    var temp: map<string, seq<byte>>   // files in the temporary directory
    var events: seq<ImageEvent>

    constructor (storage: LocalFilesystemBackend)
      ensures this.storage == storage && temp == map[] && events == []
    {
      this.storage, temp, events := storage, map[], [];
    }

    /** Receives an upload; `complete` tells whether the stream ended properly. */
    method UploadImage(requests: seq<UploadRequest>, complete: bool, fault: UploadFault)
      returns (r: Result<string, Code>)
      requires storage.Valid()
      modifies this, storage
      ensures storage.Valid() && temp == old(temp)
      ensures
        var early := EarlyError(requests, complete, fault, old(temp.Keys));
        if early.Some? then
          r == Err(early.value) && storage.OnDisk() == old(storage.OnDisk()) && events == old(events)
        else
          var id, data, disk := requests[0].imageId, Join(Chunks(requests)), old(storage.OnDisk());
          && storage.OnDisk() == AfterUpload(disk, id, data, fault)
          && events == old(events) + UploadNews(disk, id, data, fault)
          && r == match UploadError(disk, id, data, fault)
                  case Some(code) => Err(code)
                  case None => Ok(id)
    {
      var file: Option<seq<byte>> := None;
      var fileId := "";
      for i := 0 to |requests|
        modifies this`temp
        invariant file.None? <==> i == 0
        invariant i == 0 ==> temp == old(temp)
        invariant i > 0 ==>
            && requests[0].imageId == fileId && fileId != "" && fileId !in old(temp)
            && !fault.TempFailed? && !(fault.ChunkFailed? && fault.at < i)
            && file == Some(Join(Chunks(requests[..i])))
            && temp == old(temp)[fileId := file.value]
      {
        if file.None? {
          if requests[i].imageId == "" {
            return Err(InvalidArgument);
          }
          fileId := requests[i].imageId;
          if fileId in temp {
            return Err(AlreadyExists);
          }
          if fault.TempFailed? {
            return Err(Internal);
          }
          file := Some([]);
          temp := temp[fileId := []];
          assert Chunks(requests[..0]) == [];
        }
        if fault == ChunkFailed(i) {
          // here and below, the deferred cleanup of the temporary file
          temp := temp - {fileId};
          assert temp == old(temp);
          return Err(Internal);
        }
        assert requests[..i + 1] == requests[..i] + [requests[i]];
        MoreSent(requests[..i], requests[i]);
        file := Some(file.value + requests[i].chunk);
        temp := temp[fileId := file.value];
      }
      assert requests[..|requests|] == requests;
      var data := if file.Some? then file.value else [];
      if file.Some? {
        temp := temp - {fileId};
        assert temp == old(temp);
      }
      if !complete {
        return Err(StreamBroken);
      }
      if file.None? {
        return Err(InvalidArgument);
      }
      var error := FinishUpload(fileId, data, fault);
      r := match error
        case Some(code) => Err(code)
        case None => Ok(fileId);
    }

    /** Stores the received data, unless the recorded hash says that it is there already. */
    method FinishUpload(fileId: string, data: seq<byte>, fault: UploadFault) returns (error: Option<Code>)
      requires storage.Valid()
      modifies this`events, storage
      ensures storage.Valid() && storage.OnDisk() == AfterUpload(old(storage.OnDisk()), fileId, data, fault)
      ensures error == UploadError(old(storage.OnDisk()), fileId, data, fault)
      ensures events == old(events) + UploadNews(old(storage.OnDisk()), fileId, data, fault)
    {
      if fault.HashFailed? {
        return Some(Internal);
      }
      var contentHash := storage.contentHash(data);
      var existing := storage.GetMetadata(fileId);
      if !fault.LookupFailed? && existing.Ok? && existing.value.hash == contentHash {
        return if fault.ReplyFailed? then Some(StreamBroken) else None;
      }
      if fault.ReopenFailed? {
        return Some(Internal);
      }
      var stored := storage.Store(fileId, data, StoreFaultOf(fault));
      if stored.Err? {
        return Some(Internal);
      }
      events := events + [Uploaded(fileId)];
      return if fault.ReplyFailed? then Some(StreamBroken) else None;
    }

    /** Reads an open file to its end and sends what each read returns. */
    static method SendFile(file: seq<byte>, sizes: nat -> nat, fault: ServeFault)
      returns (r: Result<(), Code>, sent: seq<seq<byte>>)
      ensures forall chunk <- sent :: 0 < |chunk| <= CHUNK_SIZE
      ensures r == ServeResult(fault, |sent|, Join(sent) == file)
      ensures r == (if fault == ReadBreaks(|sent|) || (fault == SendBreaks(|sent|) && Join(sent) != file)
                    then Err(Internal) else Ok(()))
      ensures Join(sent) <= file
      ensures r.Ok? ==> Join(sent) == file
    {
      sent := [];
      var buffer := new byte[CHUNK_SIZE];
      var position := 0;
      while true
        invariant position <= |file|
        invariant Join(sent) == file[..position]
        invariant forall chunk <- sent :: 0 < |chunk| <= CHUNK_SIZE
        decreases |file| - position
      {
        if fault == ReadBreaks(|sent|) {
          return Err(Internal), sent;
        }
        var n := Read(file, position, buffer, sizes(|sent|));
        if n == 0 {
          break;
        }
        if fault == SendBreaks(|sent|) {
          return Err(Internal), sent;
        }
        var chunk := buffer[..n];
        JoinSnoc(sent, chunk);
        assert file[..position] + chunk == file[..position + n];
        sent := sent + [chunk];
        position := position + n;
      }
      assert file[..|file|] == file;
      r := Ok(());
    }

    /** Serves an image in chunks; `sizes` tells how much each read returns. */
    method DownloadImage(imageId: string, sizes: nat -> nat, fault: ServeFault)
      returns (r: Result<(), Code>, sent: seq<seq<byte>>)
      requires storage.Valid()
      ensures forall chunk <- sent :: 0 < |chunk| <= CHUNK_SIZE
      ensures r == if fault.LookupBreaks? then Err(Internal)
                   else if imageId !in storage.db then Err(Code.NotFound)
                   else if imageId !in storage.Contents() then Err(Internal)
                   else ServeResult(fault, |sent|, Join(sent) == storage.Contents()[imageId])
      ensures imageId in storage.Contents() ==> Join(sent) <= storage.Contents()[imageId]
      ensures r.Ok? ==> Join(sent) == storage.Contents()[imageId]
    {
      sent := [];
      if fault.LookupBreaks? {
        return Err(Internal), [];
      }
      var exists_ := storage.Exists(imageId);
      if !exists_ {
        return Err(Code.NotFound), [];
      }
      var retrieved := storage.Retrieve(imageId);
      if retrieved.Err? {
        return Err(Internal), [];
      }
      r, sent := SendFile(retrieved.value, sizes, fault);
    }

    /** Answers whether the image could be removed, and announces it if so. */
    method RemoveImage(imageId: string, fault: RemoveFault) returns (removed: bool)
      requires storage.Valid()
      modifies this`events, storage
      ensures storage.Valid() && storage.OnDisk() == old(storage.OnDisk()).Removed(imageId, fault)
      ensures removed <==> fault.RemovesFine? || (fault.UnlinkFails? && imageId !in old(storage.db))
      ensures events == old(events) + if removed then [Removed(imageId)] else []
      ensures removed ==> storage.Contents() == old(storage.Contents()) - {imageId} && imageId !in storage.db
    {
      var r := storage.Remove(imageId, fault);
      if r.Err? {
        return false;
      }
      events := events + [Removed(imageId)];
      removed := true;
    }

    /**
      Every recorded image once, in id order, with the recorded hash
      and size, which are those of its file while all records are true.
     */
    method ListImages() returns (images: seq<VmImage>)
      requires storage.Valid()
      ensures forall i, j | 0 <= i < j < |images| :: Below(images[i].imageId, images[j].imageId)
      ensures forall image <- images ::
                image.imageId in storage.db
                && image == VmImage(image.imageId, storage.db[image.imageId].hash, storage.db[image.imageId].size)
      ensures forall id <- storage.db :: exists image <- images :: image.imageId == id
      ensures storage.OnDisk().AllIntact() ==>
                forall image <- images ::
                  && image.imageId in storage.Contents()
                  && image.hash == storage.contentHash(storage.Contents()[image.imageId])
                  && image.size == |storage.Contents()[image.imageId]|
    {
      var ids := storage.List();
      images := [];
      for i := 0 to |ids|
        invariant |images| == i
        invariant forall j | 0 <= j < i ::
            images[j] == VmImage(ids[j], storage.db[ids[j]].hash, storage.db[ids[j]].size)
      {
        var metadata := storage.GetMetadata(ids[i]);
        images := images + [VmImage(metadata.value.imageId, metadata.value.hash, metadata.value.size)];
      }
      forall id <- storage.db
        ensures exists image <- images :: image.imageId == id
      {
        var i :| 0 <= i < |ids| && ids[i] == id;
        assert images[i] in images;
      }
      if storage.OnDisk().AllIntact() {
        assert forall id <- storage.db :: storage.OnDisk().Intact(id);
      }
    }

    /**
      Uploading a file and downloading it again without faults, with any chunking on either side. An upload that is
      skipped serves what is stored; with all records true that is the file, exactly unless hashes collide.
     */
    method RoundTrip(name: string, data: seq<byte>, sizes: nat -> nat, serves: nat -> nat)
      returns (r: Result<seq<byte>, Code>)
      requires storage.Valid() && name != "" && name !in temp && data != []
      modifies this, storage
      ensures storage.Valid()
      ensures r == ServedAfter(old(storage.OnDisk()), name, data)
      ensures old(storage.OnDisk()).AllIntact() ==>
                && r.Ok?
                && (r.value == data <==>
                    !(name in old(storage.Contents()) && old(storage.Contents())[name] != data
                      && storage.contentHash(old(storage.Contents())[name]) == storage.contentHash(data)))
    {
      ghost var disk := storage.OnDisk();
      UploadServes(disk, name, data);
      if disk.AllIntact() {
        ServedUnlessCollision(disk, name, data);
      }
      hide *;
      Push(name, data, sizes);
      r := Fetch(name, serves);
    }

    /** The client's upload, received by the service. */
    method Push(name: string, data: seq<byte>, sizes: nat -> nat)
      requires storage.Valid() && name != "" && name !in temp && data != []
      modifies this, storage
      ensures storage.Valid() && storage.OnDisk() == AfterUpload(old(storage.OnDisk()), name, data, NoFault)
    {
      hide Disk.Valid, AfterUpload, UploadError, UploadNews;
      var _, requests := Upload(name, data, sizes, SendsFine);
      assert requests != [] && requests[0] in requests;
      var _ := UploadImage(requests, true, NoFault);
    }

    /** The service's download, received by the client. */
    method Fetch(name: string, serves: nat -> nat) returns (r: Result<seq<byte>, Code>)
      requires storage.Valid() && name in storage.db
      ensures r == if name in storage.Contents() then Ok(storage.Contents()[name]) else Err(Internal)
    {
      hide Disk.Valid;
      var served, chunks := DownloadImage(name, serves, ServesFine);
      if served.Err? {
        return Err(served.error);
      }
      var _, received := Download(chunks, ReceivesFine);
      r := Ok(received.value);
    }
  }
}
