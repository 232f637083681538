/** The file system blob store (internal/blob/fs.go). */
module BlobStore {
  import opened Strings
  import opened Base64
  import opened Streams

  type Key = Text

  /** What the backend reports about an object. */
  datatype Object = Object(key: Key, sha256: Key, size: int)

  datatype StoreError = BadKey | IOFailed | ReadFailed(err: ReadError) | WrongSize | WrongDigest | PublishedUncertain

  datatype Result<T> = Done(value: T) | Failed(error: StoreError)

  /** Which of the file system operations of one call fail. */
  datatype Trouble = Trouble(prepare: bool, stat: bool, touch: bool, restat: bool, create: bool, write: bool, flush: bool,
                             rename: bool, conflictStat: bool, dirSync: bool)

  const NoTrouble := Trouble(false, false, false, false, false, false, false, false, false, false)

  predicate HexDigit(c: Byte) { '0' <= c <= '9' || 'a' <= c <= 'f' }

  /** Sixty-four lower-case hexadecimal digits. */
  predicate IsKey(key: Key) {
    |key| == 64 && forall i | 0 <= i < |key| :: HexDigit(key[i])
  }

  /** The bytes stored at `key` are what the key addresses, `size` of them. */
  ghost predicate Holds(hash: Bytes -> Key, objects: map<Key, Bytes>, key: Key, size: int) {
    key in objects && hash(objects[key]) == key && |objects[key]| == size
  }

  /** An existing object was accepted in place of a rename that failed, though it had not been seen before. */
  predicate AcceptsConflict(trouble: Trouble, present: bool) {
    present && trouble.stat && trouble.rename && !trouble.conflictStat
  }

  /** Staging a stream goes smoothly. */
  predicate Staged(trouble: Trouble) {
    !trouble.prepare && !trouble.create && !trouble.write && !trouble.flush
  }

  /** The stream is intact and is what the key and the size say. */
  ghost predicate Genuine(hash: Bytes -> Key, script: seq<Event>, key: Key, size: nat, max: nat) {
    var content := Content(script);
    Faults(script) == 0 && |content| <= max && (size > 0 ==> |content| == size) && hash(content) == key
  }

  class FS {
    const hash: Bytes -> Key
    var objects: map<Key, Bytes>

    constructor (hash: Bytes -> Key, objects: map<Key, Bytes>)
      ensures this.hash == hash && this.objects == objects
    {
      this.hash, this.objects := hash, objects;
    }

    /**
     writeObject: stage, verify, rename. Only verified bytes are ever renamed. A
     rename that fails is an error when replacing; otherwise an object that is
     there is taken for the same content.
     */
    method WriteObject(key: Key, r: CountingReader, size: nat, replace: bool, trouble: Trouble) returns (res: Result<Object>)
      requires r.Valid() && r.err.None? && r.passed == []
      modifies this, r, r.src
      ensures r.Valid() && old(Content(r.src.script)) == r.passed + Content(r.src.script)
      ensures res.Done? && !trouble.rename ==>
                && hash(r.passed) == key && (size > 0 ==> |r.passed| == size)
                && objects == old(objects)[key := r.passed]
      ensures res.Done? && trouble.rename ==>
                && hash(r.passed) == key && (size > 0 ==> |r.passed| == size)
                && !replace && !trouble.conflictStat && key in objects && objects == old(objects)
      ensures res.Done? ==> res.value == Object(key, key, |r.passed|)
      ensures res.Failed? && res.error != PublishedUncertain ==> objects == old(objects)
      ensures res.Failed? && res.error.ReadFailed? ==> r.err == Some(res.error.err)
      ensures res == Failed(PublishedUncertain) ==>
                && trouble.dirSync && hash(r.passed) == key && (size > 0 ==> |r.passed| == size)
                && objects == old(objects)[key := r.passed]
      ensures res.Done? || res == Failed(PublishedUncertain) ==> r.err == Some(EndOfFile)
      ensures Staged(trouble) && old(Faults(r.src.script)) == 0 ==> r.err == Some(EndOfFile) || r.err == Some(OverLimit)
      ensures Staged(trouble) && old(Genuine(hash, r.src.script, key, size, r.max)) ==>
                && (res.Done? <==> if trouble.rename then !replace && !trouble.conflictStat && key in old(objects) else !trouble.dirSync)
                && (res == Failed(PublishedUncertain) <==> !trouble.rename && trouble.dirSync)
    {
      if trouble.create {
        return Failed(IOFailed);
      }
      if trouble.write {
        r.CopySome();
        return Failed(IOFailed);
      }
      var out, e := r.CopyAll();
      assert r.passed == out;
      assert e.None? ==> out + Content(r.src.script) == out;
      if e.Some? {
        return Failed(ReadFailed(e.value));
      }
      if trouble.flush {
        return Failed(IOFailed);
      }
      if size > 0 && |out| != size {
        return Failed(WrongSize);
      }
      if hash(out) != key {
        return Failed(WrongDigest);
      }
      if trouble.rename {
        if !replace && !trouble.conflictStat && key in objects {
          return Done(Object(key, key, |out|));
        }
        return Failed(IOFailed);
      }
      objects := objects[key := out];
      if trouble.dirSync {
        return Failed(PublishedUncertain);
      }
      res := Done(Object(key, key, |out|));
    }

    /** Put: an object that is there is not read, not written and not verified, only touched. */
    method Put(key: Key, r: CountingReader, size: nat, trouble: Trouble) returns (res: Result<Object>, ghost dedup: bool)
      requires r.Valid() && r.err.None? && r.passed == []
      modifies this, r, r.src
      ensures r.Valid() && old(Content(r.src.script)) == r.passed + Content(r.src.script)
      ensures dedup ==> r.src.script == old(r.src.script) && r.passed == [] && r.err.None? && objects == old(objects)
      ensures !trouble.stat && key in old(objects) ==> dedup
      ensures IsKey(key) && !trouble.prepare && !trouble.stat && key in old(objects) ==> (res.Done? <==> !trouble.touch && !trouble.restat)
      ensures dedup && res.Done? ==> !trouble.stat && key in objects && res.value == Object(key, key, |objects[key]|)
      ensures !dedup && res.Done? ==>
                && IsKey(key) && hash(r.passed) == key && (size > 0 ==> |r.passed| == size)
                && res.value == Object(key, key, |r.passed|)
                && objects == (if AcceptsConflict(trouble, key in old(objects)) then old(objects) else old(objects)[key := r.passed])
      ensures !dedup && (res.Done? || res == Failed(PublishedUncertain)) ==> r.err == Some(EndOfFile)
      ensures IsKey(key) && Staged(trouble) && old(Faults(r.src.script)) == 0 && key !in old(objects) ==>
                r.err == Some(EndOfFile) || r.err == Some(OverLimit)
      ensures IsKey(key) && Staged(trouble) && old(Genuine(hash, r.src.script, key, size, r.max)) && trouble.stat ==>
                (res.Done? <==> if trouble.rename then !trouble.conflictStat && key in old(objects) else !trouble.dirSync)
      ensures IsKey(key) && Staged(trouble) && old(Genuine(hash, r.src.script, key, size, r.max)) && key !in old(objects) ==>
                (res == Failed(PublishedUncertain) <==> !trouble.rename && trouble.dirSync)
      ensures IsKey(key) && old(Genuine(hash, r.src.script, key, size, r.max)) && trouble == NoTrouble ==> res.Done?
      ensures res.Failed? && res.error != PublishedUncertain ==> objects == old(objects)
      ensures res.Failed? && res.error.ReadFailed? ==> r.err == Some(res.error.err)
      ensures res == Failed(PublishedUncertain) ==>
                && !dedup && trouble.dirSync && hash(r.passed) == key && (size > 0 ==> |r.passed| == size)
                && objects == old(objects)[key := r.passed]
    {
      dedup := true;
      if !IsKey(key) {
        return Failed(BadKey), dedup;
      }
      if trouble.prepare {
        return Failed(IOFailed), dedup;
      }
      if !trouble.stat && key in objects {
        if trouble.touch || trouble.restat {
          return Failed(IOFailed), dedup;
        }
        return Done(Object(key, key, |objects[key]|)), dedup;
      }
      dedup := false;
      res := WriteObject(key, r, size, false, trouble);
    }

    /** Replace: writeObject without the shortcut; a destination known to be wrong is never acknowledged. */
    method Replace(key: Key, r: CountingReader, size: nat, trouble: Trouble) returns (res: Result<Object>)
      requires r.Valid() && r.err.None? && r.passed == []
      modifies this, r, r.src
      ensures r.Valid() && old(Content(r.src.script)) == r.passed + Content(r.src.script)
      ensures res.Done? ==>
                && hash(r.passed) == key && (size > 0 ==> |r.passed| == size) && objects == old(objects)[key := r.passed]
                && res.value == Object(key, key, |r.passed|)
      ensures res.Done? || res == Failed(PublishedUncertain) ==> r.err == Some(EndOfFile)
      ensures IsKey(key) && old(Genuine(hash, r.src.script, key, size, r.max)) && trouble == NoTrouble ==> res.Done?
      ensures IsKey(key) && Staged(trouble) && old(Genuine(hash, r.src.script, key, size, r.max)) ==>
                (res == Failed(PublishedUncertain) <==> !trouble.rename && trouble.dirSync)
      ensures res.Failed? && res.error != PublishedUncertain ==> objects == old(objects)
      ensures res == Failed(PublishedUncertain) ==>
                && trouble.dirSync && hash(r.passed) == key && (size > 0 ==> |r.passed| == size)
                && objects == old(objects)[key := r.passed]
    {
      if !IsKey(key) {
        return Failed(BadKey);
      }
      if trouble.prepare {
        return Failed(IOFailed);
      }
      res := WriteObject(key, r, size, true, trouble);
    }
  }
}
