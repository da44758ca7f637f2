/** The local image store: a file per image, named by a hash of the image id, and a metadata record per image id. */
module ImageStore {
  import opened Wrappers
  import opened Bytes
  import opened KeyOrder

  datatype Metadata = Metadata(imageId: string, hash: string, fileKey: string, size: nat)

  datatype StoreError = NotFound | FileMissing | Failed

  /** Where storing an image fails: creating the file, copying after so many bytes, or the metadata transaction. */
  datatype StoreFault = StoresFine | CreateFails | CopyFails(kept: nat) | RecordFails

  /** Where removing an image fails: looking it up, deleting its file, or deleting its record. */
  datatype RemoveFault = RemovesFine | LookupFails | UnlinkFails | ForgetFails

  type Images = map<string, seq<byte>>

  ghost predicate Injective(f: string -> string) {
    forall a, b :: f(a) == f(b) ==> a == b
  }

  /** What a copy that fails leaves in the file. */
  function Left(data: seq<byte>, fault: StoreFault): seq<byte> {
    if fault.CopyFails? && fault.kept <= |data| then data[..fault.kept] else data
  }

  /** The files and the metadata records, with the hashes of contents and of image ids. */
  datatype Disk = Disk(files: map<string, seq<byte>>, db: map<string, Metadata>, contentHash: seq<byte> -> string,
                       keyHash: string -> string)
  {
    /** Each record carries its own id and file name. File names are taken not to collide. */
    ghost predicate Valid() {
      Injective(keyHash) && forall id | id in db :: db[id].imageId == id && db[id].fileKey == keyHash(id)
    }

    /** A content with this hash and size is what the image's record says. */
    predicate Fits(id: string, data: seq<byte>) {
      id in db && contentHash(data) == db[id].hash && |data| == db[id].size
    }

    /** The record of this image matches its file in hash and size. */
    predicate Intact(id: string) {
      id in db && keyHash(id) in files && Fits(id, files[keyHash(id)])
    }

    ghost predicate AllIntact() {
      forall id | id in db :: Intact(id)
    }

    /** What the recorded images are read as. */
    ghost function Contents(): Images {
      map id | id in db && keyHash(id) in files :: files[keyHash(id)]
    }

    /** Storing truncates and writes the file first and then the record. */
    function Stored(id: string, data: seq<byte>, fault: StoreFault): Disk {
      if fault.CreateFails? then this
      else
        var wrote := this.(files := files[keyHash(id) := Left(data, fault)]);
        if fault.StoresFine? then wrote.(db := db[id := Metadata(id, contentHash(data), keyHash(id), |data|)])
        else wrote
    }

    function Removed(id: string, fault: RemoveFault): Disk {
      if fault.LookupFails? || (fault.UnlinkFails? && id in db) then this
      else
        var unlinked := this.(files := if id in db then files - {db[id].fileKey} else files);
        if fault.ForgetFails? then unlinked else unlinked.(db := db - {id})
    }
  }

  lemma OtherFile(disk: Disk, id: string, other: string)
    requires disk.Valid() && other != id
    ensures disk.keyHash(other) != disk.keyHash(id)
  {
  }

  /** Storing leaves every other image as it is, in any outcome. */
  lemma StoredOthers(disk: Disk, id: string, data: seq<byte>, fault: StoreFault, other: string)
    requires disk.Valid() && other != id
    ensures
      var next := disk.Stored(id, data, fault);
      && (other in next.db <==> other in disk.db) && (next.Intact(other) <==> disk.Intact(other))
      && (other in next.Contents() <==> other in disk.Contents())
      && (other in disk.Contents() ==> next.Contents()[other] == disk.Contents()[other])
  {
    OtherFile(disk, id, other);
  }

  /** A completed store replaces that image and describes it. */
  lemma StoredFine(disk: Disk, id: string, data: seq<byte>)
    requires disk.Valid()
    ensures disk.Stored(id, data, StoresFine).Valid() && disk.Stored(id, data, StoresFine).Intact(id)
    ensures disk.Stored(id, data, StoresFine).Contents() == disk.Contents()[id := data]
  {
    var next := disk.Stored(id, data, StoresFine);
    assert id in next.Contents() && next.Contents()[id] == data;
    forall other | other != id
      ensures other in next.Contents() <==> other in disk.Contents()
      ensures other in disk.Contents() ==> next.Contents()[other] == disk.Contents()[other]
    {
      StoredOthers(disk, id, data, StoresFine, other);
    }
    hide *;
  }

  lemma StoredFineIntact(disk: Disk, id: string, data: seq<byte>)
    requires disk.Valid() && disk.AllIntact()
    ensures disk.Stored(id, data, StoresFine).AllIntact()
  {
    var next := disk.Stored(id, data, StoresFine);
    StoredFine(disk, id, data);
    forall other | other in next.db && other != id
      ensures next.Intact(other)
    {
      StoredOthers(disk, id, data, StoresFine, other);
    }
  }

  /**
    A store that fails leaves all images as they were exactly if no file
    was touched, the id was unknown, or the bytes left are the old ones.
   */
  lemma FailedStoreKeepsImages(disk: Disk, id: string, data: seq<byte>, fault: StoreFault)
    requires disk.Valid() && !fault.StoresFine?
    ensures disk.Stored(id, data, fault).Valid() && disk.Stored(id, data, fault).db == disk.db
    ensures disk.Stored(id, data, fault).Contents() == disk.Contents()
       <==> fault.CreateFails? || id !in disk.db || (id in disk.Contents() && disk.Contents()[id] == Left(data, fault))
  {
    var next := disk.Stored(id, data, fault);
    forall other | other != id
      ensures other in next.Contents() <==> other in disk.Contents()
      ensures other in disk.Contents() ==> next.Contents()[other] == disk.Contents()[other]
    {
      StoredOthers(disk, id, data, fault, other);
    }
    if !fault.CreateFails? && id in disk.db {
      assert next.Contents()[id] == Left(data, fault);
    }
  }

  /**
    A store that fails leaves every record true exactly if no file was
    touched, the id was unknown, or the bytes left fit the old record.
   */
  lemma FailedStoreKeepsIntact(disk: Disk, id: string, data: seq<byte>, fault: StoreFault)
    requires disk.Valid() && disk.AllIntact() && !fault.StoresFine?
    ensures disk.Stored(id, data, fault).AllIntact()
       <==> fault.CreateFails? || id !in disk.db || disk.Fits(id, Left(data, fault))
  {
    var next := disk.Stored(id, data, fault);
    forall other | other in disk.db && other != id
      ensures next.Intact(other)
    {
      StoredOthers(disk, id, data, fault, other);
    }
    if !fault.CreateFails? && id in disk.db {
      assert next.Intact(id) <==> disk.Fits(id, Left(data, fault));
    }
  }

  lemma RemovedOthers(disk: Disk, id: string, fault: RemoveFault, other: string)
    requires disk.Valid() && other != id
    ensures
      var next := disk.Removed(id, fault);
      && (other in next.db <==> other in disk.db) && (next.Intact(other) <==> disk.Intact(other))
      && (other in next.Contents() <==> other in disk.Contents())
      && (other in disk.Contents() ==> next.Contents()[other] == disk.Contents()[other])
  {
    OtherFile(disk, id, other);
  }

  /**
    A removal that gets past its file leaves the other images,
    and the image is no longer read, even if its record stays.
   */
  lemma RemovedImages(disk: Disk, id: string, fault: RemoveFault)
    requires disk.Valid() && !fault.LookupFails? && !(fault.UnlinkFails? && id in disk.db)
    ensures disk.Removed(id, fault).Valid()
    ensures disk.Removed(id, fault).Contents() == disk.Contents() - {id}
  {
    var next := disk.Removed(id, fault);
    forall other | other != id
      ensures other in next.Contents() <==> other in disk.Contents()
      ensures other in disk.Contents() ==> next.Contents()[other] == disk.Contents()[other]
    {
      RemovedOthers(disk, id, fault, other);
    }
    assert id !in next.Contents();
  }

  /** Every record stays true exactly unless a known image's record outlives its file. */
  lemma RemovedKeepsIntact(disk: Disk, id: string, fault: RemoveFault)
    requires disk.Valid() && disk.AllIntact()
    ensures disk.Removed(id, fault).AllIntact() <==> !(fault.ForgetFails? && id in disk.db)
  {
    var next := disk.Removed(id, fault);
    forall other | other in disk.db && other != id
      ensures next.Intact(other)
    {
      RemovedOthers(disk, id, fault, other);
    }
    if fault.ForgetFails? && id in disk.db {
      assert !next.Intact(id);
    }
  }

  class LocalFilesystemBackend {
    const contentHash: seq<byte> -> string  // SHA-256 of a file
    const keyHash: string -> string         // SHA-256 of an image id
    var files: map<string, seq<byte>>
    var db: map<string, Metadata>

    ghost function OnDisk(): Disk
      reads this
    {
      Disk(files, db, contentHash, keyHash)
    }

    ghost predicate Valid()
      reads this
    {
      OnDisk().Valid()
    }

    ghost function Contents(): Images
      reads this
    {
      OnDisk().Contents()
    }

    constructor (contentHash: seq<byte> -> string, keyHash: string -> string)
      requires Injective(keyHash)
      ensures this.contentHash == contentHash && this.keyHash == keyHash
      ensures Valid() && files == map[] && db == map[]
    {
      this.contentHash, this.keyHash := contentHash, keyHash;
      files, db := map[], map[];
    }

    /** Stores an image. When it fails, the file may be overwritten in part while the old record stays. */
    method Store(imageId: string, data: seq<byte>, fault: StoreFault) returns (r: Result<(), StoreError>)
      requires Valid()
      modifies this
      ensures Valid() && OnDisk() == old(OnDisk()).Stored(imageId, data, fault)
      ensures r == if fault.StoresFine? then Ok(()) else Err(Failed)
      ensures r.Ok? ==> Contents() == old(Contents())[imageId := data]
      ensures (fault.CopyFails? || fault.RecordFails?) && imageId in old(db) ==>
                && imageId in Contents()
                && Contents()[imageId] ==
                   if fault.CopyFails? && fault.kept <= |data| then data[..fault.kept] else data
      ensures r.Err? ==>
                (Contents() == old(Contents()) <==>
                 fault.CreateFails? || imageId !in old(db)
                 || (imageId in old(Contents()) && old(Contents())[imageId] == Left(data, fault)))
      ensures r.Err? && old(OnDisk()).AllIntact() ==>
                (OnDisk().AllIntact() <==>
                 fault.CreateFails? || imageId !in old(db)
                 || (contentHash(Left(data, fault)) == old(db)[imageId].hash
                     && |Left(data, fault)| == old(db)[imageId].size))
    {
      if fault.StoresFine? {
        StoredFine(OnDisk(), imageId, data);
      } else {
        FailedStoreKeepsImages(OnDisk(), imageId, data, fault);
        if OnDisk().AllIntact() {
          FailedStoreKeepsIntact(OnDisk(), imageId, data, fault);
        }
      }
      var fileKey := keyHash(imageId);
      if fault.CreateFails? {
        return Err(Failed);
      }
      files := files[fileKey := Left(data, fault)];
      if fault.CopyFails? {
        return Err(Failed);
      }
      var metadata := Metadata(imageId, contentHash(data), fileKey, |data|);
      if fault.RecordFails? {
        return Err(Failed);
      }
      db := db[imageId := metadata];
      r := Ok(());
    }

    method Retrieve(imageId: string) returns (r: Result<seq<byte>, StoreError>)
      requires Valid()
      ensures r == if imageId !in db then Err(NotFound)
                   else if imageId !in Contents() then Err(FileMissing)
                   else Ok(Contents()[imageId])
    {
      if imageId !in db {
        return Err(NotFound);
      }
      if db[imageId].fileKey !in files {
        return Err(FileMissing);
      }
      r := Ok(files[db[imageId].fileKey]);
    }

    /** Removing an unknown image succeeds and changes nothing. */
    method Remove(imageId: string, fault: RemoveFault) returns (r: Result<(), StoreError>)
      requires Valid()
      modifies this
      ensures Valid() && OnDisk() == old(OnDisk()).Removed(imageId, fault)
      ensures r == if fault.LookupFails? || fault.ForgetFails?
                      || (fault.UnlinkFails? && imageId in old(db)) then Err(Failed) else Ok(())
      ensures r.Ok? ==> Contents() == old(Contents()) - {imageId} && imageId !in db
      ensures r.Err? && !fault.ForgetFails? ==> OnDisk() == old(OnDisk())
      ensures fault.ForgetFails? ==> Contents() == old(Contents()) - {imageId} && db == old(db)
    {
      if !fault.LookupFails? && !(fault.UnlinkFails? && imageId in db) {
        RemovedImages(OnDisk(), imageId, fault);
      }
      if fault.LookupFails? {
        return Err(Failed);
      }
      if imageId in db {
        if fault.UnlinkFails? {
          return Err(Failed);
        }
        files := files - {db[imageId].fileKey};
      }
      if fault.ForgetFails? {
        return Err(Failed);
      }
      db := db - {imageId};
      r := Ok(());
    }

    method Exists(imageId: string) returns (exists_: bool)
      ensures exists_ <==> imageId in db
    {
      exists_ := imageId in db;
    }

    method GetMetadata(imageId: string) returns (r: Result<Metadata, StoreError>)
      requires Valid()
      ensures r == if imageId in db then Ok(db[imageId]) else Err(NotFound)
      ensures r.Ok? && OnDisk().AllIntact() ==>
                && imageId in Contents()
                && r.value == Metadata(imageId, contentHash(Contents()[imageId]), keyHash(imageId),
                                       |Contents()[imageId]|)
    {
      if imageId !in db {
        return Err(NotFound);
      }
      assert OnDisk().AllIntact() ==> OnDisk().Intact(imageId);
      r := Ok(db[imageId]);
    }

    /** All image ids in key order. */
    method List() returns (ids: seq<string>)
      ensures Ascending(ids)
      ensures forall id :: id in ids <==> id in db
    {
      ids := [];
      ghost var bound, strict := "", false;
      var it := FirstFrom(db.Keys, "", false);
      while it.Some?
        invariant AtIterator(db.Keys, bound, strict, it)
        invariant forall id :: id in ids <==> id in db && !From(bound, strict, id)
        invariant Ascending(ids)
        decreases set k <- db.Keys | From(bound, strict, k)
      {
        var key := it.value;
        StepPasses(db.Keys, bound, strict, key);
        forall id <- ids
          ensures Below(id, key)
        {
          Passed(bound, strict, id, key);
        }
        ids := ids + [key];
        bound, strict := key, true;
        it := FirstFrom(db.Keys, key, true);
      }
    }
  }
}
