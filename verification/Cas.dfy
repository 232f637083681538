/** Content-addressed publication over the file system store (internal/cas/cas.go). */
module Cas {
  import opened Strings
  import opened Base64
  import opened Streams
  import opened BlobStore

  datatype CasError =
    | InvalidDigest | SizeMismatch | TooLarge | WrongContent | BackendIntegrity | NoSpool | StagingRefused | SpoolFailed
    | Backend(error: StoreError) | Reading(err: ReadError)

  datatype Publication = Acknowledged(obj: Object) | Rejected(why: CasError)

  /** What goes wrong while one publication runs. */
  datatype Troubles = Troubles(put: Trouble, open: bool, storedFault: Option<nat>, replace: Trouble)

  const Untroubled := Troubles(NoTrouble, false, None, NoTrouble)

  predicate HexAnyCase(c: Byte) { '0' <= c <= '9' || 'a' <= c <= 'f' || 'A' <= c <= 'F' }

  /** validateKey. */
  predicate ValidDigest(key: Key) {
    |key| == 64 && forall i | 0 <= i < |key| :: HexAnyCase(key[i])
  }

  /** A digest is sixty-four hexadecimal digits, in either case. */
  lemma DigestsAre(key: Key)
    ensures ValidDigest(key) <==> |key| == 64 && forall c | c in key :: '0' <= c <= '9' || 'a' <= c <= 'f' || 'A' <= c <= 'F'
    ensures IsKey(key) <==> ValidDigest(key) && Fold(key) == key
  {
    assert forall i | 0 <= i < |key| :: key[i] in key && Fold(key)[i] == LowerByte(key[i]);
  }

  /** Nothing changes at any other key. */
  ghost predicate OnlyAt(key: Key, before: map<Key, Bytes>, after: map<Key, Bytes>) {
    before - {key} == after - {key}
  }

  /** What a failed publication may leave: everything as before, or verified content at the key. */
  ghost predicate Harmless(hash: Bytes -> Key, key: Key, size: int, before: map<Key, Bytes>, after: map<Key, Bytes>) {
    after == before || (OnlyAt(key, before, after) && Holds(hash, after, key, size))
  }

  /** verifyStoredObject: open the object and read all of it through the verifying reader. */
  method VerifyStoredObject(fs: FS, key: Key, size: nat, t: Troubles) returns (ok: bool)
    ensures ok <==> !t.open && t.storedFault.None? && Holds(fs.hash, fs.objects, key, size)
  {
    if t.open || key !in fs.objects {
      return false;
    }
    var stored := fs.objects[key];
    if |stored| != size {
      return false;
    }
    var src := FileReader(stored, t.storedFault);
    var reader := new VerifyingReader(src, fs.hash, key);
    assert reader.seen + Content(src.script) == Content(src.script);
    var n, e := reader.Drain();
    ok := e.None? && n == size;
  }

  /** Everything goes well up to the rename, and the directory sync behind it fails. */
  predicate PublishesUnsynced(trouble: Trouble) {
    Staged(trouble) && !trouble.rename && trouble.dirSync
  }

  /** healStoredObject: replace from the caller's reader, counted and hashed on the way. */
  method HealStoredObject(fs: FS, key: Key, size: nat, r: Source, t: Troubles) returns (res: Publication)
    modifies fs, r
    ensures OnlyAt(key, old(fs.objects), fs.objects)
    ensures res.Acknowledged? ==> Holds(fs.hash, fs.objects, key, size) && res.obj == Object(key, key, size)
    ensures res.Rejected? ==> Harmless(fs.hash, key, size, old(fs.objects), fs.objects)
    ensures res.Rejected? && fs.objects != old(fs.objects) ==> t.replace.dirSync
    ensures IsKey(key) && Genuine(fs.hash, old(r.script), key, size, size) && PublishesUnsynced(t.replace) ==>
              res.Rejected? && fs.objects == old(fs.objects)[key := Content(old(r.script))]
    ensures IsKey(key) && Genuine(fs.hash, old(r.script), key, size, size) && t.replace == NoTrouble ==> res.Acknowledged?
  {
    var cr := new CountingReader(r, size);
    var obj := fs.Replace(key, cr, size, t.replace);
    assert cr.err == Some(EndOfFile) ==> Content(r.script) == [] && cr.passed + [] == cr.passed;
    if cr.err == Some(OverLimit) {
      return Rejected(SizeMismatch);
    }
    if obj.Failed? {
      return Rejected(Backend(obj.error));
    }
    if |cr.passed| != size {
      return Rejected(SizeMismatch);
    }
    if fs.hash(cr.passed) != key {
      return Rejected(WrongContent);
    }
    res := CheckBackendObject(obj.value, key, size);
  }

  /** checkBackendObject. */
  function CheckBackendObject(obj: Object, key: Key, size: nat): (res: Publication)
    ensures res.Acknowledged? <==> obj == Object(key, key, size)
    ensures res.Rejected? ==> res.why == BackendIntegrity
  {
    if obj.key != key || obj.sha256 != key || obj.size != size then Rejected(BackendIntegrity) else Acknowledged(obj)
  }

  /** verifyDedupHit: an object the stream did not prove is verified where it lies, or healed. */
  method VerifyDedupHit(fs: FS, key: Key, size: nat, r: Source, obj: Object, t: Troubles) returns (res: Publication)
    modifies fs, r
    ensures OnlyAt(key, old(fs.objects), fs.objects)
    ensures res.Acknowledged? ==> Holds(fs.hash, fs.objects, key, size) && res.obj == Object(key, key, size)
    ensures res.Rejected? ==> Harmless(fs.hash, key, size, old(fs.objects), fs.objects)
    ensures res.Rejected? && fs.objects != old(fs.objects) ==> t.replace.dirSync
    ensures res.Rejected? ==> res.why == BackendIntegrity
    ensures && IsKey(key) && Genuine(fs.hash, old(r.script), key, size, size) && PublishesUnsynced(t.replace)
            && !Holds(fs.hash, old(fs.objects), key, size)
            ==> res.Rejected? && fs.objects == old(fs.objects)[key := Content(old(r.script))]
    ensures && IsKey(key) && Genuine(fs.hash, old(r.script), key, size, size) && t.replace == NoTrouble
            && (key in old(fs.objects) ==> obj == Object(key, key, |old(fs.objects)[key]|))
            ==> res.Acknowledged?
  {
    var verified := VerifyStoredObject(fs, key, size, t);
    if verified {
      return CheckBackendObject(obj, key, size);
    }
    res := HealStoredObject(fs, key, size, r, t);
    if res.Rejected? {
      res := Rejected(BackendIntegrity);
    }
  }

  /** The one way an unverified object is acknowledged: see PutStream. */
  predicate Unproven(t: Troubles, size: nat, present: bool) {
    size > 0 && AcceptsConflict(t.put, present)
  }

  /**
   The only ways a rejected publication has changed the store: the directory could
   not be synced after verified content was moved into place, or an empty object
   was stored and then not acknowledged.
   */
  predicate Unsynced(t: Troubles, size: int) {
    t.put.dirSync || t.replace.dirSync || size == 0
  }

  /**
   The error a caller can branch on: what an intact stream disagrees in when the
   store has no such object, and that an object which is there could not be proved
   or healed when it has.
   */
  ghost predicate Typed(hash: Bytes -> Key, before: map<Key, Bytes>, content: Bytes, key: Key, size: int, t: Troubles, res: Publication) {
    && (key !in before && Staged(t.put) && |content| != size ==> res == Rejected(SizeMismatch))
    && (key !in before && Staged(t.put) && |content| == size && hash(content) != key ==> res == Rejected(WrongContent))
    && (key in before && t.put == NoTrouble && size > 0 && res.Rejected? ==> res.why == BackendIntegrity)
  }

  /**
   putStream. Acknowledged means stored: the key then holds exactly the advertised
   size and digest, whatever the store held before and whatever fails, except
   when a failed first stat hides an object that was there and the rename over it
   fails too; that object is then acknowledged unread. A rejection leaves the
   store as it was or, in the cases of Unsynced, with verified content at the key.
   No other key changes.
   */
  method PutStream(fs: FS, key: Key, size: nat, r: Source, t: Troubles) returns (res: Publication, ghost read: bool)
    modifies fs, r
    ensures OnlyAt(key, old(fs.objects), fs.objects)
    ensures res.Acknowledged? ==> res.obj == Object(key, key, size)
    ensures res.Acknowledged? ==>
              if Unproven(t, size, key in old(fs.objects)) then fs.objects == old(fs.objects) else Holds(fs.hash, fs.objects, key, size)
    ensures res.Rejected? ==> Harmless(fs.hash, key, size, old(fs.objects), fs.objects)
    ensures res.Rejected? && fs.objects != old(fs.objects) ==> Unsynced(t, size)
    ensures && IsKey(key) && size > 0 && Genuine(fs.hash, old(r.script), key, size, size) && !Holds(fs.hash, old(fs.objects), key, size)
            && (if key in old(fs.objects) then t.put == NoTrouble && PublishesUnsynced(t.replace) else PublishesUnsynced(t.put))
            ==> res.Rejected? && fs.objects == old(fs.objects)[key := Content(old(r.script))]
    ensures read && res.Acknowledged? ==>
              && Content(old(r.script)) != [] && key == fs.hash(Content(old(r.script))) && size == |Content(old(r.script))|
              && (!Unproven(t, size, key in old(fs.objects)) ==> fs.objects == old(fs.objects)[key := Content(old(r.script))])
    ensures read && res.Rejected? ==> res.why == BackendIntegrity
    ensures res.Acknowledged? && size > 0 && key !in old(fs.objects) ==> read
    ensures IsKey(key) && Faults(old(r.script)) == 0 ==> Typed(fs.hash, old(fs.objects), Content(old(r.script)), key, size, t, res)
    ensures IsKey(key) && Genuine(fs.hash, old(r.script), key, size, size) && t == Untroubled ==> res.Acknowledged?
    ensures && IsKey(key) && Genuine(fs.hash, old(r.script), key, size, size)
            && Staged(t.put) && Unproven(t, size, key in old(fs.objects))
            ==> res.Acknowledged?
  {
    read := false;
    var cr := new CountingReader(r, size);
    var obj, dedup := fs.Put(key, cr, size, t.put);
    assert cr.err == Some(EndOfFile) ==> Content(r.script) == [] && cr.passed + [] == cr.passed;
    if obj == Failed(ReadFailed(OverLimit)) || cr.err == Some(OverLimit) {
      return Rejected(SizeMismatch), read;
    }
    if |cr.passed| == size && fs.hash(cr.passed) != key {
      return Rejected(WrongContent), read;
    }
    if obj.Failed? {
      if |cr.passed| < size && cr.err == Some(EndOfFile) {
        return Rejected(SizeMismatch), read;
      }
      return Rejected(Backend(obj.error)), read;
    }
    if |cr.passed| == 0 {
      res := VerifyDedupHit(fs, key, size, r, obj.value, t);
      return;
    }
    if |cr.passed| != size {
      return Rejected(SizeMismatch), read;
    }
    read := true;
    res := CheckBackendObject(obj.value, key, size);
  }

  /** Any other bytes under the digest of `x` are acknowledged as `x` when the first stat and the rename fail. */
  method CorruptObjectAcknowledged(hash: Bytes -> Key, x: Bytes, other: Bytes) returns (res: Publication, fs: FS)
    requires x != [] && IsKey(hash(x)) && hash(other) != hash(x)
    ensures res == Acknowledged(Object(hash(x), hash(x), |x|))
    ensures fs.hash == hash && fs.objects == map[hash(x) := other] && !Holds(hash, fs.objects, hash(x), |x|)
  {
    fs := new FS(hash, map[hash(x) := other]);
    var r := FileReader(x, None);
    ghost var read;
    res, read := PutStream(fs, hash(x), |x|, r, Untroubled.(put := NoTrouble.(stat := true, rename := true)));
  }

  /** A rejected publication that has changed the store: of a new object, and over any other bytes under its digest. */
  method RejectedAndPublished(hash: Bytes -> Key, x: Bytes, other: Option<Bytes>) returns (res: Publication, fs: FS)
    requires x != [] && IsKey(hash(x)) && (other.Some? ==> hash(other.value) != hash(x))
    ensures res.Rejected? && fs.hash == hash && fs.objects == map[hash(x) := x]
  {
    var key, unsynced := hash(x), NoTrouble.(dirSync := true);
    fs := new FS(hash, if other.Some? then map[key := other.value] else map[]);
    var r := FileReader(x, None);
    ghost var read;
    res, read := PutStream(fs, key, |x|, r, if other.Some? then Untroubled.(replace := unsynced) else Untroubled.(put := unsynced));
  }

  /** What every publication promises about `key` and `size`. */
  twostate predicate Kept(fs: FS, key: Key, size: int, res: Publication, unproven: bool, unsynced: bool)
    reads fs
  {
    && OnlyAt(key, old(fs.objects), fs.objects)
    && (res.Acknowledged? ==> res.obj == Object(key, key, size))
    && (res.Acknowledged? ==> if unproven then fs.objects == old(fs.objects) else Holds(fs.hash, fs.objects, key, size))
    && (res.Rejected? ==> Harmless(fs.hash, key, size, old(fs.objects), fs.objects))
    && (res.Rejected? && fs.objects != old(fs.objects) ==> unsynced)
  }

  class CAS {
    const fs: FS
    const maxBlobBytes: int
    const putMemoryBytes: int
    const staging: bool

    constructor (fs: FS, maxBlobBytes: int, putMemoryBytes: int, staging: bool)
      ensures this.fs == fs && this.maxBlobBytes == maxBlobBytes && this.putMemoryBytes == putMemoryBytes && this.staging == staging
    {
      this.fs, this.maxBlobBytes, this.putMemoryBytes, this.staging := fs, maxBlobBytes, putMemoryBytes, staging;
    }

    /** maxBytes: 4 GiB unless configured. */
    function MaxBytes(): (n: nat)
      ensures maxBlobBytes > 0 ==> n == maxBlobBytes
      ensures maxBlobBytes <= 0 ==> n == 4 * 1024 * 1024 * 1024
    {
      if maxBlobBytes <= 0 then 0x1_0000_0000 else maxBlobBytes
    }

    /** putMemoryBytes: 1 MiB unless configured, and never more than an object may have. */
    function MemoryBytes(): (n: nat)
      ensures 0 < n <= MaxBytes()
      ensures 0 < putMemoryBytes <= MaxBytes() ==> n == putMemoryBytes
      ensures putMemoryBytes <= 0 && 1024 * 1024 <= MaxBytes() ==> n == 1024 * 1024
    {
      var mem := if putMemoryBytes <= 0 then 0x10_0000 else putMemoryBytes;
      if mem > MaxBytes() then MaxBytes() else mem
    }

    /**
     What Put accepts, read off the stream: it ends without failure within the
     memory buffer; or what is left behind the byte that overflows the buffer ends
     without failure within the bound and, if it fills it, right there.
     */
    predicate Publishable(script: seq<Event>) {
      match After(script, MemoryBytes() + 1)
      case None => Faults(script) == 0
      case Some(rest) =>
        && MemoryBytes() < MaxBytes() && Faults(rest) == 0 && |Content(script)| <= MaxBytes()
        && (|Content(script)| == MaxBytes() ==> EndsAtBound(rest))
    }

    /** Nothing at all is left at the bound, not even a read without bytes. */
    predicate EndsAtBound(rest: seq<Event>) {
      MemoryBytes() < MaxBytes() && After(rest, MaxBytes() - MemoryBytes() - 1) == Some([])
    }

    /**
     A failing stream is accepted exactly when its one failure is reported together
     with the byte that overflows the buffer, and the rest is in order.
     */
    lemma FailingStreamPublishable(script: seq<Event>)
      requires Faults(script) > 0
      ensures Publishable(script) <==>
              && Faults(script) == 1 && RidesOn(script, MemoryBytes() + 1) && MemoryBytes() < MaxBytes()
              && |Content(script)| <= MaxBytes()
              && (|Content(script)| == MaxBytes() ==> EndsAtBound(After(script, MemoryBytes() + 1).value))
    {
      var n := MemoryBytes() + 1;
      if After(script, n).Some? {
        AfterKeeps(script, n);
      }
    }

    /** Any stream that fits, cut right behind that byte by such a failure, is accepted. */
    lemma SwallowedFaultPublishable(x: Bytes, y: Bytes)
      requires |x| == MemoryBytes() + 1 && |x| + |y| < MaxBytes()
      ensures var script := [Data(x), Fault(true), Data(y)]; Faults(script) == 1 && Content(script) == x + y && Publishable(script)
    {
      var script := [Data(x), Fault(true), Data(y)];
      assert script[1..] == [Fault(true), Data(y)] && script[2..] == [Data(y)] && script[1..][1..] == script[2..] && script[2..][1..] == [];
      assert Content(script[2..]) == y && Content(script[1..]) == y && Faults(script[2..]) == 0 && Faults(script[1..]) == 1;
    }

    /** No stream past the bound is accepted, and every steady one within it is. */
    lemma SteadyStreamPublishable(script: seq<Event>)
      ensures Publishable(script) ==> |Content(script)| <= MaxBytes()
      ensures Steady(script) ==> (Publishable(script) <==> |Content(script)| <= MaxBytes())
    {
      var n := MemoryBytes() + 1;
      if Steady(script) {
        SteadyNeverFails(script);
        SteadyEnds(script);
      }
      if Faults(script) == 0 {
        AfterWithoutFaults(script, n, if n <= MaxBytes() then MaxBytes() - n else 0);
      }
    }

    method PutKnown(digest: Key, size: int, r: Source, t: Troubles) returns (res: Publication)
      modifies fs, r
      ensures Kept(fs, digest, size, res, size > 0 && Unproven(t, size, digest in old(fs.objects)), Unsynced(t, size))
      ensures res.Acknowledged? ==> 0 <= size <= MaxBytes()
      ensures !ValidDigest(digest) || !(0 <= size <= MaxBytes()) ==> res.Rejected? && fs.objects == old(fs.objects)
      ensures !ValidDigest(digest) ==> res == Rejected(InvalidDigest)
      ensures ValidDigest(digest) && size < 0 ==> res == Rejected(SizeMismatch)
      ensures ValidDigest(digest) && size > MaxBytes() ==> res == Rejected(TooLarge)
      ensures 0 <= size <= MaxBytes() && IsKey(digest) && Faults(old(r.script)) == 0 ==>
                Typed(fs.hash, old(fs.objects), Content(old(r.script)), digest, size, t, res)
      ensures && 0 <= size <= MaxBytes() && IsKey(digest) && Genuine(fs.hash, old(r.script), digest, size, size) && t == Untroubled
              ==> res.Acknowledged?
    {
      if !ValidDigest(digest) {
        return Rejected(InvalidDigest);
      }
      if size < 0 {
        return Rejected(SizeMismatch);
      }
      if size > MaxBytes() {
        return Rejected(TooLarge);
      }
      ghost var read;
      res, read := PutStream(fs, digest, size, r, t);
    }

    /** PutFile: a staged file of another length than advertised is refused before anything is read. */
    method PutFile(file: Bytes, readFault: Option<nat>, openFails: bool, digest: Key, size: int, t: Troubles) returns (res: Publication)
      modifies fs
      ensures Kept(fs, digest, size, res, size > 0 && Unproven(t, size, digest in old(fs.objects)), Unsynced(t, size))
      ensures res.Acknowledged? ==> size == |file| <= MaxBytes()
      ensures ValidDigest(digest) && 0 <= size <= MaxBytes() && !openFails && |file| != size ==> res == Rejected(SizeMismatch)
      ensures IsKey(digest) && size == |file| <= MaxBytes() && !openFails && readFault.None? ==>
                Typed(fs.hash, old(fs.objects), file, digest, size, t, res)
      ensures && size == |file| <= MaxBytes() && IsKey(digest) && fs.hash(file) == digest
              && !openFails && readFault.None? && t == Untroubled
              ==> res.Acknowledged?
    {
      if !ValidDigest(digest) {
        return Rejected(InvalidDigest);
      }
      if size < 0 {
        return Rejected(SizeMismatch);
      }
      if size > MaxBytes() {
        return Rejected(TooLarge);
      }
      if openFails {
        return Rejected(SpoolFailed);
      }
      if |file| != size {
        return Rejected(SizeMismatch);
      }
      var r := FileReader(file, readFault);
      ghost var read;
      res, read := PutStream(fs, digest, size, r, t);
    }

    /**
     Put of a stream whose digest nobody knows yet: from memory when it fits,
     through the staging budget otherwise. For every stream and chunking, what is
     published under which digest is the whole stream; nothing is lost or repeated
     where memory ends and the spool begins, and a stream past the bound is never
     published. Neither is one that fails, unless its only failure comes together
     with the very byte that ends the buffering and is not reported again. When
     nothing else goes wrong, exactly the publishable streams are acknowledged.
     */
    method Put(r: Source, budget: bool, spoolFails: bool, openFails: bool, readFault: Option<nat>, t: Troubles) returns (res: Publication)
      modifies fs, r
      ensures var whole := old(Content(r.script));
              Kept(fs, fs.hash(whole), |whole|, res, Unproven(t, |whole|, fs.hash(whole) in old(fs.objects)), Unsynced(t, |whole|))
      ensures res.Acknowledged? ==> Publishable(old(r.script))
      ensures !Publishable(old(r.script)) ==> fs.objects == old(fs.objects)
      ensures && |old(Content(r.script))| > MaxBytes() && Faults(old(r.script)) == 0
              && (MemoryBytes() == MaxBytes() || (staging && budget && !spoolFails))
              ==> res == Rejected(TooLarge)
      ensures MaxBytes() >= |old(Content(r.script))| > MemoryBytes() && Faults(old(r.script)) == 0 && !staging ==> res == Rejected(NoSpool)
      ensures && Publishable(old(r.script)) && IsKey(fs.hash(old(Content(r.script)))) && t == Untroubled
              && (|old(Content(r.script))| <= MemoryBytes() || (staging && budget && !spoolFails && !openFails && readFault.None?))
              ==> res.Acknowledged?
    {
      ghost var whole := Content(r.script);
      var limit, mem := MaxBytes(), MemoryBytes();
      var buf, e := CopyBounded(r, mem);
      ghost var read;
      if e.None? {
        var memory := FileReader(buf, None);
        res, read := PutStream(fs, fs.hash(buf), |buf|, memory, t);
        return;
      }
      if e != Some(OverLimit) || mem >= limit {
        return Rejected(if e == Some(OverLimit) then TooLarge else Reading(e.value));
      }
      AfterKeeps(old(r.script), mem + 1);
      if !staging {
        return Rejected(NoSpool);
      }
      if !budget {
        return Rejected(StagingRefused);
      }
      var file, hashed, tooLarge := SpoolFile(buf, r, limit, spoolFails);
      if tooLarge {
        return Rejected(TooLarge);
      }
      if file.None? || openFails {
        return Rejected(SpoolFailed);
      }
      assert file.value == whole && buf + hashed == whole;
      var spooled := FileReader(file.value, readFault);
      res, read := PutStream(fs, fs.hash(buf + hashed), |file.value|, spooled, t);
    }
  }

  /**
   SpoolFile of what is already in memory followed by the rest of the stream. The
   byte past the limit is read but not written. `hashed` is what was teed off the
   rest while it was spooled.
   */
  method SpoolFile(buf: Bytes, r: Source, limit: nat, fails: bool) returns (file: Option<Bytes>, hashed: Bytes, tooLarge: bool)
    requires |buf| <= limit
    modifies r
    ensures file.Some? ==> !tooLarge && file.value == buf + old(Content(r.script)) && hashed == old(Content(r.script))
    ensures file.Some? <==>
            && !fails && old(Faults(r.script)) == 0 && |buf| + |old(Content(r.script))| <= limit
            && (|buf| + |old(Content(r.script))| == limit ==> After(old(r.script), limit - |buf|) == Some([]))
    ensures tooLarge ==> !fails && |buf| + |old(Content(r.script))| >= limit
    ensures tooLarge ==> var rest := After(old(r.script), limit - |buf|); rest.Some? && rest.value != [] && !rest.value[0].Fault?
    ensures !fails && old(Faults(r.script)) == 0 ==> file.Some? || tooLarge
  {
    var written := buf;
    hashed := [];
    tooLarge := false;
    var last: Option<ReadError> := None;
    while last.None? && |written| < limit
      invariant |written| <= limit && written == buf + hashed
      invariant old(Content(r.script)) == hashed + Content(r.script)
      invariant last.None? ==> Faults(r.script) == old(Faults(r.script))
      invariant last == Some(EndOfFile) ==> old(Faults(r.script)) == 0 && r.script == []
      invariant last in {None, Some(EndOfFile), Some(SourceFailed)} && (last == Some(SourceFailed) ==> old(Faults(r.script)) > 0)
      invariant After(old(r.script), limit - |buf|) == if last.Some? && |written| < limit then None else After(r.script, limit - |written|)
      decreases last.None?, r.Ahead()
    {
      var n :| 0 < n <= limit - |written|;
      var chunk;
      chunk, last := r.Read(n);
      assert old(Content(r.script)) == (hashed + chunk) + Content(r.script);
      assert buf + (hashed + chunk) == written + chunk;
      hashed := hashed + chunk;
      written := written + chunk;
    }
    if fails || (last.Some? && last != Some(EndOfFile)) {
      return None, hashed, false;
    }
    var probe, e := r.Read(1);
    if probe != [] || e.None? {
      return None, hashed, true;
    }
    if e != Some(EndOfFile) {
      return None, hashed, false;
    }
    assert hashed + Content(r.script) == hashed;
    file := Some(written);
  }

  /** A reader on a file, which may fail somewhere. */
  method FileReader(file: Bytes, fault: Option<nat>) returns (r: Source)
    ensures fresh(r) && Content(r.script) == file && (Faults(r.script) == 0 <==> fault.None?)
  {
    if fault.None? {
      r := new Source([Data(file)]);
      assert [Data(file)][1..] == [];
    } else {
      var k := if fault.value < |file| then fault.value else |file|;
      var script := [Data(file[..k]), Fault(false), Data(file[k..])];
      r := new Source(script);
      assert script[1..] == [Fault(false), Data(file[k..])] && script[1..][1..] == [Data(file[k..])] && script[1..][1..][1..] == [];
      assert Content(script[1..][1..]) == file[k..] && Content(script[1..]) == file[k..];
    }
  }
}
