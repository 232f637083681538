/** The bounded, verified stream of a remote cache restore (internal/cache/client.go). */
module RestoreStream {
  import opened Strings
  import opened Base64
  import opened Streams

  /** boundedReadCloser: never more than `max` bytes; a bound that is not positive is no bound. */
  class BoundedReader {
    const src: Source
    const max: int
    var n: nat
    var err: Option<ReadError>

    constructor (src: Source, max: int)
      ensures this.src == src && this.max == max && n == 0 && err.None?
    {
      this.src, this.max, n, err := src, max, 0, None;
    }

    ghost predicate Valid()
      reads this
    {
      max > 0 ==> n <= max
    }

    /** The rest of the source arrives without trouble and fits the bound. */
    ghost predicate Benign()
      reads this, src
    {
      Steady(src.script) && (max > 0 ==> n + |Content(src.script)| <= max)
    }

    /** All bytes that may be delivered have been. */
    predicate AtBound()
      reads this
    {
      max > 0 && n >= max
    }

    /**
     At the bound one probe decides: the end, too much, or nothing at all. Below
     it, an error of the source is handed on but not latched.
     */
    method Read(p: nat) returns (chunk: Bytes, e: Option<ReadError>)
      requires Valid()
      modifies this, src
      ensures Valid() && |chunk| <= p && n == old(n) + |chunk|
      ensures old(err).Some? ==> chunk == [] && e == err == old(err) && src.script == old(src.script)
      ensures old(AtBound()) ==> chunk == [] && e.Some? && err == e
      ensures err != Some(OverLimit) ==> old(Content(src.script)) == chunk + Content(src.script)
      ensures old(err).None? && e == Some(EndOfFile) ==> src.script == []
      ensures old(err).None? && !old(AtBound()) ==> err in {None, Some(NoProgress)} && (err.Some? ==> e == err && chunk == [])
      ensures old(err).None? && !old(AtBound()) && err.None? ==> e in {None, Some(EndOfFile), Some(SourceFailed)}
      ensures old(err).None? && !old(AtBound()) && p > 0 ==> (chunk == [] <==> Silent(old(src.script)))
      ensures p > 0 ==> chunk != [] || e.Some?
      ensures old(err).None? && !old(AtBound()) && p > 0 && old(src.script) != [] && old(src.script)[0].Fault? ==>
                e == Some(SourceFailed) && src.script == old(src.script)[1..]
      ensures e.None? && p > 0 ==> src.Ahead() < old(src.Ahead())
      ensures old(err).None? && old(Benign()) ==> Benign() && e in {None, Some(EndOfFile)} && (err.None? || err == Some(EndOfFile))
    {
      if err.Some? {
        return [], err;
      }
      if Steady(src.script) {
        SteadyNeverFails(src.script);
      }
      if max > 0 && n >= max {
        var probe, outcome := src.Read(1);
        if probe != [] {
          err := Some(OverLimit);
        } else {
          err := if outcome.None? then Some(NoProgress) else outcome;
        }
        return [], err;
      }
      if p == 0 {
        return [], None;
      }
      chunk, e := src.Read(if max > 0 && p > max - n then max - n else p);
      n := n + |chunk|;
      if chunk == [] && e.None? {
        err := Some(NoProgress);
        e := err;
      }
    }
  }

  /** verifyingReadCloser over a bounded reader. */
  class VerifyingReadCloser {
    const r: BoundedReader
    const hash: Bytes -> Text
    const want: Text
    ghost const whole: Bytes
    var seen: Bytes
    var done: bool
    var err: Option<ReadError>

    constructor (r: BoundedReader, hash: Bytes -> Text, want: Text)
      requires r.n == 0 && r.err.None?
      ensures this.r == r && this.hash == hash && this.want == want && whole == Content(r.src.script) && Valid()
      ensures seen == [] && !done && err.None?
    {
      this.r, this.hash, this.want, seen, done, err := r, hash, want, [], false, None;
      whole := Content(r.src.script);
      new;
      assert [] + Content(r.src.script) == Content(r.src.script);
    }

    ghost predicate Valid()
      reads this, r, r.src
    {
      && r.Valid() && r.n == |seen| && (done && err.None? ==> r.src.script == [] && seen == whole && hash(seen) == want)
      && (err.None? && r.err != Some(OverLimit) ==> whole == seen + Content(r.src.script))
      && (r.err == Some(EndOfFile) ==> done) && err != Some(EndOfFile)
    }

    /** Nothing but the same kind of failure, or the end, can follow. */
    predicate Latched()
      reads this, r
    {
      err.Some? || done || r.err.Some?
    }

    /**
     Read. Once latched it delivers nothing and leaves the source alone. Every
     error is latched except a failure of the source below the bound.
     */
    method Read(p: nat) returns (chunk: Bytes, e: Option<ReadError>)
      requires Valid()
      modifies this, r, r.src
      ensures Valid() && |chunk| <= p && seen == old(seen) + chunk
      ensures old(Latched()) ==> chunk == [] && e.Some? && Latched() && r.src.script == old(r.src.script)
      ensures !old(Latched()) && e.Some? ==> (Latched() <==> e != Some(SourceFailed) || old(r.AtBound()))
      ensures e == Some(EndOfFile) <==> done && err.None?
      ensures !old(Latched()) && !old(r.AtBound()) ==> old(Content(r.src.script)) == chunk + Content(r.src.script)
      ensures !old(Latched()) && !old(r.AtBound()) && p > 0 ==> (chunk == [] <==> Silent(old(r.src.script)))
      ensures !old(Latched()) && !old(r.AtBound()) && p > 0 && old(r.src.script) != [] && old(r.src.script)[0].Fault? ==>
                e == Some(SourceFailed) && r.src.script == old(r.src.script)[1..]
      ensures e.None? && p > 0 ==> r.src.Ahead() < old(r.src.Ahead())
      ensures old(err).Some? ==> err == old(err)
      ensures old(done) ==> done && err == old(err)
      ensures err.Some? ==> e == err
      ensures old(!Latched() && r.Benign()) && hash(whole) == want ==>
                r.Benign() && e in {None, Some(EndOfFile)} && (e.None? ==> !Latched())
    {
      if err.Some? {
        return [], err;
      }
      if done {
        return [], Some(EndOfFile);
      }
      hide Steady, Silent;
      chunk, e := r.Read(p);
      Regroup(seen, chunk, Content(r.src.script));
      seen := seen + chunk;
      if e == Some(EndOfFile) {
        done := true;
        assert Content(r.src.script) == [] && seen + [] == seen;
        if hash(seen) != want {
          err := Some(DigestMismatch);
          e := err;
        }
      }
    }

    /**
     Close drains what is left. A nil result means that the whole source has been
     consumed, fits the bound and has the advertised digest, whatever was read
     before and however the source chunks, stalls or fails; and a source that is
     so and causes no trouble closes without an error.
     */
    method Close(closeFails: bool) returns (ok: bool)
      requires Valid()
      modifies this, r, r.src
      ensures Valid()
      ensures ok <==> done && err.None? && !closeFails
      ensures old(err).Some? ==> !ok && err == old(err)
      ensures old(done && err.None?) ==> (ok <==> !closeFails)
      ensures old(!Latched() && r.Benign()) && hash(whole) == want && !closeFails ==> ok
      ensures ok ==> r.src.script == [] && seen == whole && hash(whole) == want && (r.max > 0 ==> |whole| <= r.max)
    {
      if err.None? && !done {
        var e: Option<ReadError> := None;
        while e.None?
          invariant Valid() && (err.Some? ==> e == err) && (e == Some(EndOfFile) <==> done && err.None?)
          invariant old(!Latched() && r.Benign()) && hash(whole) == want ==>
                      r.Benign() && e in {None, Some(EndOfFile)} && (e.None? ==> !Latched())
          decreases e.None?, r.src.Ahead()
        {
          var p :| p > 0;
          var chunk;
          chunk, e := Read(p);
        }
        if e != Some(EndOfFile) {
          err := e;
        }
      }
      ok := err.None? && !closeFails;
    }
  }

  /** Any bytes behind a failure are delivered all the same: the failure is reported once and forgotten. */
  method FailureIsForgotten(x: Bytes, hash: Bytes -> Text, want: Text, max: nat) returns (first: Option<ReadError>, second: Bytes)
    requires x != [] && max > 0
    ensures first == Some(SourceFailed) && second != [] && second <= x
  {
    var src := new Source([Fault(false), Data(x)]);
    var bounded := new BoundedReader(src, max);
    var c := new VerifyingReadCloser(bounded, hash, want);
    var nothing;
    nothing, first := c.Read(|x|);
    assert src.script == [Data(x)] && [Data(x)][1..] == [] && Content([Data(x)]) == x;
    var e;
    second, e := c.Read(|x|);
  }
}
