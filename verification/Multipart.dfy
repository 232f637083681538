/** Multipart upload (internal/blob/s3.go). */
module Multipart {
  import opened Strings
  import opened Base64
  import opened Streams

  const MAX_PARTS: nat := 10000
  const ATTEMPTS: nat := 2

  datatype Request = Create | Part(number: nat, bytes: Bytes) | Complete(parts: nat) | Head | Abort
  datatype Completion = Completed | Refused | Lost

  /** What becomes of CompleteMultipartUpload: its answer, whether it is executed when the answer is lost, and the HEAD that follows. */
  datatype Ending = Ending(answer: Completion, executed: bool, headLost: bool) {
    predicate Takes() { answer == Completed || (answer == Lost && executed) }
  }

  /** The parts 1 to `n`, in order. */
  function Assembled(parts: map<nat, Bytes>, n: nat): (r: Bytes) {
    if n == 0 then [] else Assembled(parts, n - 1) + (if n in parts then parts[n] else [])
  }

  lemma {:induction false} AssembledPrefix(a: map<nat, Bytes>, b: map<nat, Bytes>, n: nat)
    requires forall i | 1 <= i <= n :: (i in a <==> i in b) && (i in a ==> a[i] == b[i])
    ensures Assembled(a, n) == Assembled(b, n)
  {
    if n > 0 {
      AssembledPrefix(a, b, n - 1);
    }
  }

  /**
   The endpoint: what it was asked, the parts it has, and the object that is
   visible at the key. `refusals` counts Create and part requests that did not
   succeed, `final` the parts not worth another attempt.
   */
  class Endpoint {
    const ending: Ending
    var log: seq<Request>
    ghost var refusals: nat
    ghost var final: nat
    var parts: map<nat, Bytes>
    var visible: Option<Bytes>

    constructor (ending: Ending, visible: Option<Bytes>)
      ensures this.ending == ending && this.visible == visible && log == [] && parts == map[] && refusals == 0 && final == 0
    {
      this.ending, this.visible, log, parts, refusals, final := ending, visible, [], map[], 0, 0;
    }

    method CreateUpload() returns (ok: bool)
      modifies `log, `refusals
      ensures log == old(log) + [Create]
      ensures refusals == if ok then old(refusals) else old(refusals) + 1
    {
      log := log + [Create];
      ok := *;
      refusals := if ok then refusals else refusals + 1;
    }

    /** One UploadPart request; one that fails may have stored the part all the same. */
    method UploadOnce(number: nat, data: Bytes) returns (ok: bool, retryable: bool)
      modifies `log, `parts, `refusals, `final
      ensures log == old(log) + [Part(number, data)]
      ensures parts == old(parts) || parts == old(parts)[number := data]
      ensures ok ==> parts == old(parts)[number := data]
      ensures final == if ok || retryable then old(final) else old(final) + 1
      ensures refusals == if ok then old(refusals) else old(refusals) + 1
    {
      log := log + [Part(number, data)];
      ok, retryable := *, *;
      var stored: bool := *;
      if ok || stored {
        parts := parts[number := data];
      }
      refusals := if ok then refusals else refusals + 1;
      final := if ok || retryable then final else final + 1;
    }

    /** CompleteMultipartUpload; when the answer is lost the upload may or may not have been completed. */
    method CompleteUpload(n: nat) returns (c: Completion)
      modifies `log, `visible
      ensures log == old(log) + [Complete(n)] && c == ending.answer
      ensures visible == if ending.Takes() then Some(Assembled(parts, n)) else old(visible)
    {
      log := log + [Complete(n)];
      if ending.Takes() {
        visible := Some(Assembled(parts, n));
      }
      c := ending.answer;
    }

    /** HEAD: whether an object of exactly this size is visible, if the answer arrives. */
    method HasSize(size: nat) returns (yes: bool)
      modifies `log
      ensures log == old(log) + [Head]
      ensures yes <==> !ending.headLost && visible.Some? && |visible.value| == size
    {
      log := log + [Head];
      yes := !ending.headLost && visible.Some? && |visible.value| == size;
    }

    method AbortUpload()
      modifies `log
      ensures log == old(log) + [Abort]
    {
      log := log + [Abort];
    }
  }

  /** s3MultipartPartCount. */
  function PartCount(size: int, partSize: nat): (n: nat)
    requires partSize > 0
    ensures n == 0 <==> size <= 0
  {
    if size <= 0 then 0 else 1 + (size - 1) / partSize
  }

  lemma QuotientIs(x: int, d: int, q: int, r: int)
    requires d > 0 && x == q * d + r && 0 <= r < d
    ensures x / d == q
  {
    var p := x / d;
    assert p < q ==> (p + 1) * d <= q * d;
    assert p > q ==> (q + 1) * d <= p * d;
  }

  /** A part fewer for every full part taken away. */
  lemma PartCountPeels(size: nat, partSize: nat)
    requires partSize > 0 && size > 0
    ensures PartCount(size, partSize) == 1 + PartCount(size - (if size < partSize then size else partSize), partSize)
    ensures size <= partSize <==> PartCount(size, partSize) == 1
  {
    var (x, d) := (size - 1, partSize);
    if size <= partSize {
      QuotientIs(x, d, 0, x);
    } else {
      var y := x - d;
      assert x == (y / d + 1) * d + y % d;
      QuotientIs(x, d, y / d + 1, y % d);
      assert y / d >= 0;
    }
  }

  /** The number of parts is the size divided by the part size, rounded up. */
  lemma PartCountIsCeiling(size: nat, partSize: nat)
    requires partSize > 0 && size > 0
    ensures var n := PartCount(size, partSize); (n - 1) * partSize < size <= n * partSize
  {
    var q := (size - 1) / partSize;
    assert size - 1 == q * partSize + (size - 1) % partSize;
    assert (q + 1) * partSize == q * partSize + partSize;
  }

  /** The parts 1 to `n` are there, all full but a non-empty last one when `n` is the last of `parts`. */
  ghost predicate PartSizes(stored: map<nat, Bytes>, n: nat, parts: nat, partSize: nat) {
    forall i | 1 <= i <= n :: i in stored && 0 < |stored[i]| <= partSize && (i < parts ==> |stored[i]| == partSize)
  }

  /**
   io.ReadFull: exactly `n` bytes, or an error, whatever the chunks. An error that
   comes with the last byte is not reported.
   */
  method ReadFull(src: Source, n: nat) returns (buf: Bytes, ok: bool)
    modifies src
    ensures old(Content(src.script)) == buf + Content(src.script) && (ok <==> |buf| == n) && |buf| <= n
    ensures After(old(src.script), n) == if ok then Some(src.script) else None
  {
    buf := [];
    var err: Option<ReadError> := None;
    while |buf| < n && err.None?
      invariant old(Content(src.script)) == buf + Content(src.script) && |buf| <= n
      invariant After(old(src.script), n) == if |buf| < n && err.Some? then None else After(src.script, n - |buf|)
      decreases err.None?, src.Ahead()
    {
      var chunk;
      chunk, err := src.Read(n - |buf|);
      Regroup(buf, chunk, Content(src.script));
      buf := buf + chunk;
    }
    ok := |buf| == n;
  }

  /** uploadMultipartPart: a retryable failure gets one more attempt, with the same bytes. */
  method UploadPart(ep: Endpoint, number: nat, data: Bytes) returns (ok: bool, ghost tried: seq<Request>)
    modifies ep`log, ep`parts, ep`refusals, ep`final
    ensures ep.refusals == old(ep.refusals) + |tried| - (if ok then 1 else 0)
    ensures old(ep.final) <= ep.final <= old(ep.final) + 1
    ensures if ok then ep.final == old(ep.final) else ep.final > old(ep.final) || |tried| == 2
    ensures ep.log == old(ep.log) + tried && 1 <= |tried| <= 2 && forall i | 0 <= i < |tried| :: tried[i] == Part(number, data)
    ensures ep.parts == old(ep.parts) || ep.parts == old(ep.parts)[number := data]
    ensures ok ==> ep.parts == old(ep.parts)[number := data]
  {
    var attempt, retryable := 1, true;
    ok, tried := false, [];
    while attempt <= ATTEMPTS && !ok && retryable
      invariant 1 <= attempt <= ATTEMPTS + 1 && attempt == |tried| + 1 && (attempt == 1 ==> !ok && retryable)
      invariant ep.refusals == old(ep.refusals) + |tried| - (if ok then 1 else 0)
      invariant ep.final == if ok || retryable then old(ep.final) else old(ep.final) + 1
      invariant ep.log == old(ep.log) + tried && forall i | 0 <= i < |tried| :: tried[i] == Part(number, data)
      invariant ep.parts == old(ep.parts) || ep.parts == old(ep.parts)[number := data]
      invariant ok ==> ep.parts == old(ep.parts)[number := data]
    {
      ok, retryable := ep.UploadOnce(number, data);
      tried := tried + [Part(number, data)];
      attempt := attempt + 1;
    }
  }

  /** Requests between creating an upload and aborting it. */
  predicate Working(requests: seq<Request>) {
    forall i | 0 <= i < |requests| :: requests[i] != Create && requests[i] != Abort
  }

  /** The parts sent are parts of an upload of `parts` parts. */
  predicate PartNumbers(requests: seq<Request>, parts: nat) {
    forall i | 0 <= i < |requests| && requests[i].Part? :: 1 <= requests[i].number <= parts
  }

  /** Attempts to send one part. */
  ghost predicate AllPart(tried: seq<Request>, number: nat, data: Bytes) {
    forall i | 0 <= i < |tried| :: tried[i] == Part(number, data)
  }

  /** Requests that send parts of an upload of `parts` parts. */
  ghost predicate PartsOnly(requests: seq<Request>, parts: nat) {
    forall i | 0 <= i < |requests| :: requests[i].Part? && 1 <= requests[i].number <= parts
  }

  lemma PartsOnlyMore(log: seq<Request>, requests: seq<Request>, tried: seq<Request>, number: nat, data: Bytes, parts: nat)
    requires PartsOnly(requests, parts) && 1 <= number <= parts && AllPart(tried, number, data)
    ensures PartsOnly(requests + tried, parts) && log + requests + tried == log + (requests + tried)
  {
  }

  lemma PartNumbersMore(requests: seq<Request>, more: seq<Request>, parts: nat)
    requires PartsOnly(requests, parts) && PartNumbers(more, parts)
    ensures PartNumbers(requests, parts) && PartNumbers(requests + more, parts)
  {
  }

  // ---- What a source must look like ----------------------------------------------------------

  function NextPart(size: nat, partSize: nat): (n: nat) { if size < partSize then size else partSize }

  /** What is left of a source from which `size` bytes were read in full parts, if that works. */
  function AfterParts(script: seq<Event>, size: nat, partSize: nat): (r: Option<seq<Event>>)
    requires partSize > 0
    decreases size
  {
    if size == 0 then Some(script)
    else
      var rest := After(script, NextPart(size, partSize));
      if rest.None? then None else AfterParts(rest.value, size - NextPart(size, partSize), partSize)
  }

  /** Right behind byte number `n` the source ends, stalls or fails. */
  predicate SilentBehind(script: seq<Event>, n: nat) {
    After(script, n).Some? && Silent(After(script, n).value)
  }

  /** A source whose upload is completed. */
  predicate Completes(script: seq<Event>, size: nat, partSize: nat)
    requires partSize > 0
  {
    var rest := AfterParts(script, size, partSize);
    rest.Some? && Silent(rest.value)
  }

  lemma {:induction false} PartsDoNotMatter(script: seq<Event>, size: nat, partSize: nat)
    requires partSize > 0 && Faults(script) == 0
    ensures AfterParts(script, size, partSize) == After(script, size)
    decreases size
  {
    if size > 0 {
      var n := NextPart(size, partSize);
      AfterWithoutFaults(script, n, size - n);
      AfterWithoutFaults(script, size, 0);
      if After(script, n).Some? {
        PartsDoNotMatter(After(script, n).value, size - n, partSize);
      }
    }
  }

  lemma {:induction false} NothingLeftIsSilent(script: seq<Event>)
    requires Content(script) == []
    ensures Silent(script)
  {
  }

  /**
   A source that never fails is completed if and only if it has the declared size,
   or is longer and stalls right behind the last declared byte.
   */
  lemma CompletesExactlyWhen(script: seq<Event>, size: nat, partSize: nat)
    requires partSize > 0 && Faults(script) == 0
    ensures Completes(script, size, partSize) <==>
            || |Content(script)| == size
            || (|Content(script)| > size && SilentBehind(script, size))
  {
    PartsDoNotMatter(script, size, partSize);
    AfterWithoutFaults(script, size, 0);
    if size > 0 && After(script, size).Some? {
      AfterKeeps(script, size);
    }
    if |Content(script)| == size {
      NothingLeftIsSilent(After(script, size).value);
    }
  }

  /** Any source cut in two by a stall, or by a failure, is completed when the first half has the declared size. */
  lemma LongerSourceCompletes(x: Bytes, y: Bytes, cut: Event, partSize: nat)
    requires partSize > 0 && x != [] && y != [] && cut in {Stall, Fault(false)}
    ensures var script := [Data(x), cut, Data(y)]; Content(script) == x + y && Completes(script, |x|, partSize)
  {
    var tail := [cut, Data(y)];
    assert [Data(x), cut, Data(y)][1..] == tail && tail[1..] == [Data(y)] && [Data(y)][1..] == [];
    assert Content([Data(y)]) == y && Content(tail) == y;
    CutCompletes(x, tail, partSize);
  }

  lemma {:induction false} CutCompletes(x: Bytes, tail: seq<Event>, partSize: nat)
    requires partSize > 0 && x != [] && tail != [] && tail[0] in {Stall, Fault(false)}
    ensures AfterParts([Data(x)] + tail, |x|, partSize) == Some(tail)
    decreases |x|
  {
    var n := NextPart(|x|, partSize);
    assert ([Data(x)] + tail)[1..] == tail;
    if n < |x| {
      CutCompletes(x[n..], tail, partSize);
    }
  }

  /** What was sent so far: parts 1 to `k` are the first bytes of the stream, `remaining` are to come. */
  ghost predicate SentTo(stored: map<nat, Bytes>, stream: Bytes, left: Bytes, size: nat, partSize: nat, parts: nat, k: nat, remaining: nat)
    requires partSize > 0
  {
    && remaining <= size && k + PartCount(remaining, partSize) == parts
    && stream == Assembled(stored, k) + left && |Assembled(stored, k)| == size - remaining
    && PartSizes(stored, k, parts, partSize)
  }

  /** The loop of streamMultipartParts with `k` parts of `whole` sent and `script` left of it. */
  ghost predicate Sending(stored: map<nat, Bytes>, hashed: Bytes, whole: seq<Event>, script: seq<Event>,
                          size: nat, partSize: nat, parts: nat, k: nat, remaining: nat)
    requires partSize > 0
  {
    && SentTo(stored, Content(whole), Content(script), size, partSize, parts, k, remaining) && hashed == Assembled(stored, k)
    && AfterParts(whole, size, partSize) == AfterParts(script, remaining, partSize)
  }

  lemma SendingStart(stored: map<nat, Bytes>, whole: seq<Event>, size: nat, partSize: nat)
    requires partSize > 0
    ensures Sending(stored, [], whole, whole, size, partSize, PartCount(size, partSize), 0, size)
  {
    hide AfterParts, Content;
    assert [] + Content(whole) == Content(whole);
  }

  /** While parts are missing so are bytes. */
  lemma SendingSome(stored: map<nat, Bytes>, hashed: Bytes, whole: seq<Event>, script: seq<Event>,
                    size: nat, partSize: nat, parts: nat, k: nat, remaining: nat)
    requires partSize > 0 && Sending(stored, hashed, whole, script, size, partSize, parts, k, remaining)
    ensures k <= parts && remaining <= size && (remaining == 0 <==> k == parts)
  {
    hide Assembled, PartSizes, AfterParts, Content;
  }

  lemma SendingNext(stored: map<nat, Bytes>, hashed: Bytes, whole: seq<Event>, script: seq<Event>, data: Bytes, rest: seq<Event>,
                    size: nat, partSize: nat, parts: nat, k: nat, remaining: nat)
    requires partSize > 0 && remaining > 0 && Sending(stored, hashed, whole, script, size, partSize, parts, k, remaining)
    requires Content(script) == data + Content(rest)
    ensures var n := NextPart(remaining, partSize);
            && (After(script, n).None? ==> AfterParts(whole, size, partSize).None?)
            && (|data| == n && After(script, n) == Some(rest) ==>
                  Sending(stored[k + 1 := data], hashed + data, whole, rest, size, partSize, parts, k + 1, remaining - n))
  {
    hide AfterParts, After, SentTo, Assembled, Content;
    AfterNextPart(script, remaining, partSize);
    if |data| == NextPart(remaining, partSize) {
      SentNext(stored, Content(whole), data, Content(rest), size, partSize, parts, k, remaining);
    }
  }

  lemma AfterNextPart(script: seq<Event>, size: nat, partSize: nat)
    requires partSize > 0 && size > 0
    ensures var (n, rest) := (NextPart(size, partSize), After(script, NextPart(size, partSize)));
            AfterParts(script, size, partSize) == if rest.None? then None else AfterParts(rest.value, size - n, partSize)
  {
  }

  lemma SentNext(before: map<nat, Bytes>, stream: Bytes, data: Bytes, left: Bytes,
                 size: nat, partSize: nat, parts: nat, k: nat, remaining: nat)
    requires partSize > 0 && remaining > 0 && SentTo(before, stream, data + left, size, partSize, parts, k, remaining)
    requires |data| == NextPart(remaining, partSize)
    ensures var after := before[k + 1 := data];
            && SentTo(after, stream, left, size, partSize, parts, k + 1, remaining - |data|)
            && Assembled(after, k + 1) == Assembled(before, k) + data
  {
    PartCountPeels(remaining, partSize);
    hide PartCount;
    AssembledPrefix(before, before[k + 1 := data], k);
    Regroup(Assembled(before, k), data, left);
  }

  lemma SendingDone(stored: map<nat, Bytes>, hashed: Bytes, whole: seq<Event>, script: seq<Event>,
                    size: nat, partSize: nat, parts: nat, remaining: nat)
    requires partSize > 0 && Sending(stored, hashed, whole, script, size, partSize, parts, parts, remaining) && remaining == 0
    ensures AfterParts(whole, size, partSize) == Some(script) && hashed == Assembled(stored, parts) && |hashed| == size
    ensures PartSizes(stored, parts, parts, partSize) && Content(whole) == hashed + Content(script)
  {
    assert AfterParts(script, 0, partSize) == Some(script);
    hide AfterParts, Assembled, PartSizes, Content, PartCount;
  }

  lemma TakePrefix(a: Bytes, b: Bytes)
    ensures (a + b)[..|a|] == a
  {
  }

  datatype Upload = Uploaded(digest: Text) | UploadFailed

  /** One round of the loop of streamMultipartParts: read a part in full and send it. */
  method SendPart(ep: Endpoint, src: Source, part: nat, n: nat) returns (ok: bool, data: Bytes, ghost tried: seq<Request>)
    modifies ep`log, ep`parts, ep`refusals, ep`final, src
    ensures old(Content(src.script)) == data + Content(src.script)
    ensures ep.log == old(ep.log) + tried && AllPart(tried, part, data) && ep.refusals >= old(ep.refusals)
    ensures ok ==> |data| == n && ep.parts == old(ep.parts)[part := data] && After(old(src.script), n) == Some(src.script)
    ensures !ok ==> ep.refusals > old(ep.refusals) || After(old(src.script), n).None?
  {
    data, ok := ReadFull(src, n);
    tried := [];
    if ok {
      ok, tried := UploadPart(ep, part, data);
    }
  }

  /** The loop of streamMultipartParts: read a part, send it, until the declared size has been sent. */
  method SendParts(ep: Endpoint, src: Source, size: nat, partSize: nat, parts: nat)
    returns (ok: bool, hashed: Bytes, ghost requests: seq<Request>)
    requires partSize > 0 && parts == PartCount(size, partSize)
    modifies ep`log, ep`parts, ep`refusals, ep`final, src
    ensures ep.refusals >= old(ep.refusals)
    ensures !ok ==> ep.refusals > old(ep.refusals) || AfterParts(old(src.script), size, partSize).None?
    ensures ok ==> AfterParts(old(src.script), size, partSize) == Some(src.script)
    ensures ep.log == old(ep.log) + requests && PartsOnly(requests, parts)
    ensures ok ==>
              && PartSizes(ep.parts, parts, parts, partSize) && |Assembled(ep.parts, parts)| == size
              && old(Content(src.script)) == Assembled(ep.parts, parts) + Content(src.script) && hashed == Assembled(ep.parts, parts)
  {
    hashed, requests, ok := [], [], true;
    var part, remaining: nat := 1, size;
    SendingStart(ep.parts, src.script, size, partSize);
    assert PartsOnly(requests, parts);
    hide Assembled, PartCount, PartSizes, PartsOnly, AllPart, AfterParts, After, Content, Sending;
    while ok && part <= parts
      invariant part >= 1 && (ok ==> Sending(ep.parts, hashed, old(src.script), src.script, size, partSize, parts, part - 1, remaining))
      invariant !ok ==> ep.refusals > old(ep.refusals) || AfterParts(old(src.script), size, partSize).None?
      invariant ep.log == old(ep.log) + requests && PartsOnly(requests, parts) && ep.refusals >= old(ep.refusals)
      decreases ok, parts - part
    {
      ghost var (stored, script) := (ep.parts, src.script);
      SendingSome(stored, hashed, old(src.script), script, size, partSize, parts, part - 1, remaining);
      var n := NextPart(remaining, partSize);
      ghost var tried;
      var data;
      ok, data, tried := SendPart(ep, src, part, n);
      SendingNext(stored, hashed, old(src.script), script, data, src.script, size, partSize, parts, part - 1, remaining);
      PartsOnlyMore(old(ep.log), requests, tried, part, data, parts);
      hashed, requests := hashed + data, requests + tried;
      remaining, part := remaining - n, part + 1;
    }
    if ok {
      SendingSome(ep.parts, hashed, old(src.script), src.script, size, partSize, parts, part - 1, remaining);
      SendingDone(ep.parts, hashed, old(src.script), src.script, size, partSize, parts, remaining);
    }
  }

  /** The end of streamMultipartParts: complete the upload and, if the answer is lost, look for an object of its size. */
  method Finish(ep: Endpoint, size: nat, parts: nat) returns (done: bool, ghost requests: seq<Request>)
    requires |Assembled(ep.parts, parts)| == size
    modifies ep`log, ep`visible
    ensures ep.log == old(ep.log) + requests && Working(requests) && Complete(parts) in requests && PartNumbers(requests, parts)
    ensures ep.visible == if ep.ending.Takes() then Some(Assembled(ep.parts, parts)) else old(ep.visible)
    ensures done <==> Confirmed(ep.ending, size, old(ep.visible))
    ensures ep.ending.answer == Completed ==> done
    ensures ep.ending.answer == Refused || (ep.ending.answer == Lost && ep.ending.headLost) ==> !done
    ensures ep.ending.answer == Lost && !ep.ending.headLost ==> (done <==> ep.visible.Some? && |ep.visible.value| == size)
  {
    var c := ep.CompleteUpload(parts);
    requests := [Complete(parts)];
    done := c == Completed;
    if c == Lost {
      done := ep.HasSize(size);
      requests := requests + [Head];
    }
  }

  /**
   When the completion counts as done: it is answered, or its answer is lost but
   the HEAD arrives and finds an object of the size, the new one or the one that
   was there before.
   */
  predicate Confirmed(ending: Ending, size: nat, before: Option<Bytes>) {
    || ending.answer == Completed
    || (ending.answer == Lost && !ending.headLost && (ending.executed || (before.Some? && |before.value| == size)))
  }

  /**
   streamMultipartParts. Complete is requested exactly when all parts were taken
   and one more read delivered nothing: never for a source that ends early, and
   for a longer one only if it stalls or fails right at the declared size. An
   object of the declared size after a lost answer counts as the completed one.
   */
  method StreamParts(ep: Endpoint, src: Source, hash: Bytes -> Text, size: nat, partSize: nat)
    returns (r: Upload, ghost requests: seq<Request>)
    requires partSize > 0
    modifies ep, src
    ensures ep.log == old(ep.log) + requests && Working(requests) && ep.refusals >= old(ep.refusals)
    ensures PartNumbers(requests, PartCount(size, partSize))
    ensures var n := PartCount(size, partSize);
            if Complete(n) in requests then
              && Completes(old(src.script), size, partSize) && |old(Content(src.script))| >= size
              && PartSizes(ep.parts, n, n, partSize) && Assembled(ep.parts, n) == old(Content(src.script))[..size]
              && ep.visible == (if ep.ending.Takes() then Some(old(Content(src.script))[..size]) else old(ep.visible))
              && r == if Confirmed(ep.ending, size, old(ep.visible)) then Uploaded(hash(old(Content(src.script))[..size])) else UploadFailed
            else r == UploadFailed && ep.visible == old(ep.visible)
    ensures ep.refusals == old(ep.refusals) && Completes(old(src.script), size, partSize) ==>
              Complete(PartCount(size, partSize)) in requests
  {
    hide Assembled, PartCount, PartSizes, AfterParts;
    var parts := PartCount(size, partSize);
    var ok, hashed;
    ok, hashed, requests := SendParts(ep, src, size, partSize, parts);
    if !ok {
      return UploadFailed, requests;
    }
    TakePrefix(hashed, Content(src.script));
    var extra, outcome := src.Read(1);
    if extra != [] {
      return UploadFailed, requests;
    }

    ghost var last;
    ok, last := Finish(ep, size, parts);
    PartNumbersMore(requests, last, parts);
    requests := requests + last;
    r := if ok then Uploaded(hash(hashed)) else UploadFailed;
  }

  /**
   putMultipart: an impossible upload never starts; after a successful Create the
   requests end in success without an abort, or in exactly one abort.
   */
  method PutMultipart(ep: Endpoint, src: Source, hash: Bytes -> Text, size: nat, partSize: nat)
    returns (r: Upload, ghost requests: seq<Request>, ghost created: bool)
    requires partSize > 0
    modifies ep, src
    ensures PartCount(size, partSize) > 10000 ==> r == UploadFailed && !created && ep.log == old(ep.log)
    ensures PartCount(size, partSize) <= 10000 && !created ==>
              r == UploadFailed && ep.log == old(ep.log) + [Create] && ep.refusals > old(ep.refusals)
    ensures created ==>
              && PartCount(size, partSize) <= 10000 && Working(requests) && PartNumbers(requests, PartCount(size, partSize))
              && ep.log == old(ep.log) + [Create] + requests + (if r.Uploaded? then [] else [Abort])
    ensures var n := PartCount(size, partSize);
            if created && Complete(n) in requests then
              && Completes(old(src.script), size, partSize) && |old(Content(src.script))| >= size
              && PartSizes(ep.parts, n, n, partSize) && Assembled(ep.parts, n) == old(Content(src.script))[..size]
              && ep.visible == (if ep.ending.Takes() then Some(old(Content(src.script))[..size]) else old(ep.visible))
              && r == if Confirmed(ep.ending, size, old(ep.visible)) then Uploaded(hash(old(Content(src.script))[..size])) else UploadFailed
            else r == UploadFailed && ep.visible == old(ep.visible)
    ensures r.Uploaded? ==> ep.visible.Some? && |ep.visible.value| == size && (ep.ending.answer == Completed || ep.ending.answer == Lost)
    ensures PartCount(size, partSize) <= 10000 && ep.refusals == old(ep.refusals) ==>
              created && (Complete(PartCount(size, partSize)) in requests <==> Completes(old(src.script), size, partSize))
  {
    requests, created := [], false;
    var parts := PartCount(size, partSize);
    if parts > MAX_PARTS {
      return UploadFailed, requests, created;
    }
    var ok := ep.CreateUpload();
    if !ok {
      return UploadFailed, requests, created;
    }
    created := true;
    r, requests := StreamParts(ep, src, hash, size, partSize);
    if r == UploadFailed {
      ep.AbortUpload();
    }
  }

  /**
   An older object of the same size is taken for the upload when Complete was not
   executed and its answer was lost: success is reported for bytes that are nowhere.
   */
  method StaleObjectConfirms(x: Bytes, stale: Bytes, hash: Bytes -> Text, partSize: nat) returns (r: Upload, ep: Endpoint)
    requires partSize > 0 && x != [] && |stale| == |x| && PartCount(|x|, partSize) <= 10000
    ensures fresh(ep) && ep.ending == Ending(Lost, false, false) && ep.visible == Some(stale)
    ensures ep.refusals == 0 ==> r == Uploaded(hash(x))
  {
    ep := new Endpoint(Ending(Lost, false, false), Some(stale));
    var src := new Source([Data(x)]);
    assert [Data(x)][1..] == [] && Content([Data(x)]) == x && x[..|x|] == x;
    CompletesExactlyWhen(src.script, |x|, partSize);
    ghost var requests, created;
    r, requests, created := PutMultipart(ep, src, hash, |x|, partSize);
  }
}
