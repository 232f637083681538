/** Readers: a source that delivers its bytes in chunks of any size, and the readers stacked on it. */
module Streams {
  import opened Strings
  import opened Base64

  type Bytes = Text

  datatype ReadError = EndOfFile | SourceFailed | OverLimit | NoProgress | DigestMismatch

  /**
   What a reader has in store: bytes, a read that delivers nothing without saying
   why, a failure. A failure `together` is reported along with the last of the
   bytes right before it, any other one by a read of its own.
   */
  datatype Event = Data(bytes: Bytes) | Stall | Fault(together: bool)

  /** All bytes of a script. */
  function Content(script: seq<Event>): (r: Bytes)
    decreases |script|
  {
    if script == [] then [] else (if script[0].Data? then script[0].bytes else []) + Content(script[1..])
  }

  function Faults(script: seq<Event>): (n: nat)
    decreases |script|
  {
    if script == [] then 0 else (if script[0].Fault? then 1 else 0) + Faults(script[1..])
  }

  /** A reader that delivers bytes on every read until it ends. */
  predicate Steady(script: seq<Event>) {
    forall i | 0 <= i < |script| :: script[i].Data? && script[i].bytes != []
  }

  lemma {:induction false} SteadyNeverFails(script: seq<Event>)
    requires Steady(script)
    ensures Faults(script) == 0
    decreases |script|
  {
    if script != [] {
      SteadyNeverFails(script[1..]);
    }
  }

  /** What is left of a script when the first `k` bytes of its leading data are gone. */
  function Taken(script: seq<Event>, k: nat): (r: seq<Event>)
    requires script != [] && script[0].Data? && k <= |script[0].bytes|
  {
    if k < |script[0].bytes| then [Data(script[0].bytes[k..])] + script[1..] else script[1..]
  }

  lemma TakenScript(script: seq<Event>, k: nat)
    requires script != [] && script[0].Data? && k <= |script[0].bytes| && (k == 0 ==> script[0].bytes == [])
    ensures var (b, rest) := (script[0].bytes[..k], Taken(script, k));
            && Content(script) == b + Content(rest) && Faults(script) == Faults(rest)
            && |rest| + |Content(rest)| < |script| + |Content(script)|
  {
    var (bytes, rest) := (script[0].bytes, Taken(script, k));
    var c := Content(script[1..]);
    if k < |bytes| {
      assert rest[1..] == script[1..];
      assert Content(rest) == bytes[k..] + c && Faults(rest) == Faults(script);
    }
    SplitFront(bytes, k, c);
  }

  lemma Regroup(a: Bytes, b: Bytes, c: Bytes)
    ensures a + (b + c) == (a + b) + c
  {
  }

  lemma SplitFront(bytes: Bytes, k: nat, rest: Bytes)
    requires k <= |bytes|
    ensures bytes + rest == bytes[..k] + (bytes[k..] + rest)
    ensures k == |bytes| ==> bytes[..k] == bytes
  {
  }

  // ---- What reads of any size leave behind ----------------------------------------------------

  function WithoutRider(script: seq<Event>): (r: seq<Event>) {
    if script != [] && script[0] == Fault(true) then script[1..] else script
  }

  /** What is left right behind byte number `n`, if no failure and no end comes earlier. */
  function After(script: seq<Event>, n: nat): (r: Option<seq<Event>>)
    decreases |script|
  {
    if n == 0 then Some(script)
    else if script == [] then None
    else
      match script[0]
      case Stall => After(script[1..], n)
      case Fault(_) => None
      case Data(bytes) =>
        if |bytes| < n then After(script[1..], n - |bytes|)
        else if |bytes| == n then Some(WithoutRider(script[1..]))
        else Some([Data(bytes[n..])] + script[1..])
  }

  /** One more read delivers nothing: the reader ends, stalls or fails. */
  predicate Silent(script: seq<Event>) {
    script == [] || !script[0].Data? || script[0].bytes == []
  }

  /** One read took `n` bytes with this outcome: all that is behind them is as it was. */
  ghost predicate Advances(before: seq<Event>, n: nat, err: Option<ReadError>, after: seq<Event>) {
    forall m: nat | m > 0 && m >= n :: After(before, m) == if m > n && err.Some? then None else After(after, m - n)
  }

  lemma TakenAdvances(script: seq<Event>, k: nat, m: nat)
    requires script != [] && script[0].Data? && k <= |script[0].bytes| && (k == 0 ==> script[0].bytes == [])
    requires m > 0 && m >= k
    ensures After(script, m) == if m == k then Some(if k == |script[0].bytes| then WithoutRider(Taken(script, k)) else Taken(script, k))
                                else After(Taken(script, k), m - k)
  {
    var (bytes, rest) := (script[0].bytes, Taken(script, k));
    if k < |bytes| {
      assert rest[1..] == script[1..];
      if k < m < |bytes| {
        assert bytes[k..][m - k..] == bytes[m..];
      }
    }
  }

  /** A failure is reported together with byte number `n`. */
  predicate RidesOn(script: seq<Event>, n: nat): (r: bool)
    ensures r ==> n > 0 && After(script, n).Some?
    decreases |script|
  {
    script != [] &&
    match script[0]
    case Stall => RidesOn(script[1..], n)
    case Fault(_) => false
    case Data(bytes) => if |bytes| < n then RidesOn(script[1..], n - |bytes|) else |bytes| == n > 0 && [Fault(true)] <= script[1..]
  }

  lemma {:induction false} AfterKeeps(script: seq<Event>, n: nat)
    requires n > 0 && After(script, n).Some?
    ensures var rest := After(script, n).value;
            && n <= |Content(script)| && Content(rest) == Content(script)[n..]
            && Faults(rest) == Faults(script) - if RidesOn(script, n) then 1 else 0
    decreases |script|
  {
    match script[0]
    case Stall =>
      AfterKeeps(script[1..], n);
    case Data(bytes) =>
      var rest := After(script, n).value;
      if |bytes| < n {
        AfterKeeps(script[1..], n - |bytes|);
      } else if |bytes| > n {
        assert rest[1..] == script[1..];
      }
  }

  /** Without failures there is something behind every byte, and reading on from there is reading on. */
  lemma {:induction false} AfterWithoutFaults(script: seq<Event>, n: nat, m: nat)
    requires Faults(script) == 0
    ensures After(script, n).Some? <==> n <= |Content(script)|
    ensures After(script, n).Some? ==>
              Faults(After(script, n).value) == 0 && After(After(script, n).value, m) == After(script, n + m)
    decreases |script|
  {
    if n > 0 && script != [] {
      AfterWithoutFaults(script[1..], if script[0].Data? && |script[0].bytes| < n then n - |script[0].bytes| else n, m);
      if script[0].Data? && |script[0].bytes| > n {
        var (bytes, rest) := (script[0].bytes, After(script, n).value);
        assert rest[1..] == script[1..];
        assert m < |bytes| - n ==> bytes[n..][m..] == bytes[n + m..];
      }
    }
  }

  lemma {:induction false} SteadyEnds(script: seq<Event>)
    requires Steady(script)
    ensures After(script, |Content(script)|) == Some([])
    decreases |script|
  {
    if script != [] {
      SteadyEnds(script[1..]);
      assert Content(script[1..]) == [] ==> script[1..] == [];
    }
  }

  /** An io.Reader working off a script; at its end it reports the end of the file, again and again. */
  class Source {
    var script: seq<Event>

    constructor (script: seq<Event>)
      ensures this.script == script
    {
      this.script := script;
    }

    /** What is still to come, as a measure: every read but the last takes something off it. */
    ghost function Ahead(): nat
      reads this
    {
      |script| + |Content(script)|
    }

    /** At most `n` bytes; the end may be reported with the last bytes or after them. */
    method Read(n: nat) returns (chunk: Bytes, err: Option<ReadError>)
      requires n > 0
      modifies this
      ensures |chunk| <= n && old(Content(script)) == chunk + Content(script)
      ensures err in {None, Some(EndOfFile), Some(SourceFailed)}
      ensures err == Some(EndOfFile) ==> script == []
      ensures err.None? ==> Ahead() < old(Ahead())
      ensures Faults(script) == old(Faults(script)) - (if err == Some(SourceFailed) then 1 else 0)
      ensures old(Steady(script)) ==> Steady(script) && (chunk == [] ==> err == Some(EndOfFile))
      ensures Advances(old(script), |chunk|, err, script)
      ensures chunk == [] && err == Some(EndOfFile) <==> old(script) == []
      ensures old(script) != [] && old(script)[0].Fault? ==> chunk == [] && err == Some(SourceFailed) && script == old(script)[1..]
      ensures chunk == [] <==> Silent(old(script))
    {
      chunk, err := [], None;
      if script == [] {
        return [], Some(EndOfFile);
      }
      match script[0]
      case Stall =>
        script := script[1..];
      case Fault(_) =>
        script := script[1..];
        err := Some(SourceFailed);
      case Data(bytes) =>
        var k :| 0 <= k <= n && k <= |bytes| && (bytes != [] ==> k > 0);
        chunk := bytes[..k];
        TakenScript(script, k);
        forall m: nat | m > 0 && m >= k {
          TakenAdvances(script, k, m);
        }
        script := Taken(script, k);
        if k > 0 && k == |bytes| {
          var together: bool := *;
          if script == [] && together {
            err := Some(EndOfFile);
          } else if script != [] && script[0] == Fault(true) {
            script := script[1..];
            err := Some(SourceFailed);
          }
        }
    }
  }

  /**
   countingReader with the hash that is teed off it: `passed` is everything it
   has delivered. One byte past the bound is let through, together with the error.
   */
  class CountingReader {
    const src: Source
    const max: nat
    var passed: Bytes
    var err: Option<ReadError>

    constructor (src: Source, max: nat)
      ensures this.src == src && this.max == max && passed == [] && err.None?
    {
      this.src, this.max, passed, err := src, max, [], None;
    }

    ghost predicate Valid()
      reads this, src
    {
      && |passed| <= max + 1
      && (|passed| == max + 1 <==> err == Some(OverLimit))
      && (err == Some(EndOfFile) ==> src.script == [])
    }

    method Read(n: nat) returns (chunk: Bytes, e: Option<ReadError>)
      requires Valid() && n > 0
      modifies this, src
      ensures Valid() && e == err
      ensures old(Content(src.script)) == chunk + Content(src.script) && passed == old(passed) + chunk
      ensures old(err).Some? ==> err == old(err) && chunk == [] && src.script == old(src.script)
      ensures old(err).None? ==> err in {None, Some(EndOfFile), Some(SourceFailed), Some(OverLimit)}
      ensures e.None? ==> src.Ahead() < old(src.Ahead())
      ensures old(Steady(src.script)) ==> Steady(src.script)
      ensures old(err).None? && err != Some(OverLimit) ==>
                Faults(src.script) == old(Faults(src.script)) - (if err == Some(SourceFailed) then 1 else 0)
      ensures old(err).None? ==> if err == Some(OverLimit) then After(old(src.script), |chunk|) == Some(src.script)
                                 else Advances(old(src.script), |chunk|, err, src.script)
    {
      if err.Some? {
        return [], err;
      }
      var room := max - |passed| + 1;
      chunk, e := src.Read(if n > room then room else n);
      passed := passed + chunk;
      if |passed| > max {
        e := Some(OverLimit);
      }
      err := e;
    }

    /** A copy that stops somewhere because its destination fails. */
    method CopySome()
      requires Valid()
      modifies this, src
      ensures Valid() && old(passed) <= passed && old(Content(src.script)) == passed[|old(passed)|..] + Content(src.script)
    {
      ghost var out: Bytes := [];
      var stop: bool := *;
      while err.None? && !stop
        invariant Valid() && old(Content(src.script)) == out + Content(src.script) && passed == old(passed) + out
        decreases err.None?, src.Ahead()
      {
        var n :| n > 0;
        var chunk, e := Read(n);
        assert old(Content(src.script)) == (out + chunk) + Content(src.script);
        out := out + chunk;
        stop := *;
      }
    }

    /** io.Copy: read until the reader ends or fails, with buffers of any size. */
    method CopyAll() returns (out: Bytes, e: Option<ReadError>)
      requires Valid()
      modifies this, src
      ensures Valid() && err.Some? && e == if err == Some(EndOfFile) then None else err
      ensures old(Steady(src.script)) ==> Steady(src.script)
      ensures old(Content(src.script)) == out + Content(src.script) && passed == old(passed) + out
      ensures old(err).None? ==> err.value in {EndOfFile, SourceFailed, OverLimit}
      ensures old(err).None? && err == Some(EndOfFile) ==> old(Faults(src.script)) == 0
      ensures old(err).None? && err == Some(SourceFailed) ==> old(Faults(src.script)) > 0
      ensures old(err).None? ==>
                var past := After(old(src.script), max + 1 - |old(passed)|);
                if err == Some(OverLimit) then past == Some(src.script) else past == None
    {
      out := [];
      ghost var goal := max + 1 - |passed|;
      var last: Option<ReadError> := None;
      while last.None?
        invariant Valid() && (last.Some? ==> last == err) && (old(Steady(src.script)) ==> Steady(src.script))
        invariant old(Content(src.script)) == out + Content(src.script) && passed == old(passed) + out
        invariant old(err).None? && last.None? ==> err.None? && Faults(src.script) == old(Faults(src.script))
        invariant old(err).None? && last.None? ==> |out| < goal && After(old(src.script), goal) == After(src.script, goal - |out|)
        invariant old(err).None? && last.Some? ==>
                    After(old(src.script), goal) == if last == Some(OverLimit) then Some(src.script) else None
        invariant old(err).None? && last.Some? ==> err.value in {EndOfFile, SourceFailed, OverLimit}
        invariant old(err).None? && last == Some(EndOfFile) ==> old(Faults(src.script)) == 0
        invariant old(err).None? && last == Some(SourceFailed) ==> old(Faults(src.script)) > 0
        decreases last.None?, src.Ahead()
      {
        var n :| n > 0;
        var chunk;
        chunk, last := Read(n);
        assert old(Content(src.script)) == out + (chunk + Content(src.script)) == (out + chunk) + Content(src.script);
        out := out + chunk;
      }
      e := if last == Some(EndOfFile) then None else last;
    }
  }

  /** What a whole copy through a counting reader amounts to. */
  ghost predicate Copied(script: seq<Event>, max: nat, out: Bytes, e: Option<ReadError>) {
    match e
    case None => Faults(script) == 0 && out == Content(script) && |out| <= max
    case Some(OverLimit) => |Content(script)| > max && out == Content(script)[..max + 1]
    case Some(_) => Faults(script) > 0 && out <= Content(script) && |out| <= max
  }

  /**
   For every stream, bound and chunking: the copy is the whole stream; or its
   bytes up to and including the one past the bound, the stream being longer than
   the bound; or the bytes before a failure.
   */
  method CopyBounded(src: Source, max: nat) returns (out: Bytes, e: Option<ReadError>)
    modifies src
    ensures Copied(old(src.script), max, out, e) && (old(Steady(src.script)) ==> Steady(src.script))
    ensures old(Content(src.script)) == out + Content(src.script)
    ensures After(old(src.script), max + 1) == if e == Some(OverLimit) then Some(src.script) else None
  {
    var cr := new CountingReader(src, max);
    out, e := cr.CopyAll();
    assert cr.passed == out;
  }

  /** verifyingReader of the content-addressed store: hash while reading, compare at the end. */
  class VerifyingReader {
    const src: Source
    const hash: Bytes -> Text
    const want: Text
    var seen: Bytes
    var done: bool
    var err: Option<ReadError>

    constructor (src: Source, hash: Bytes -> Text, want: Text)
      ensures this.src == src && this.hash == hash && this.want == want && seen == [] && !done && err.None?
    {
      this.src, this.hash, this.want, seen, done, err := src, hash, want, [], false, None;
    }

    ghost predicate Valid()
      reads this
    {
      && (err == Some(EndOfFile) ==> done)
      && (err == Some(DigestMismatch) ==> done)
      && (done ==> (err == Some(DigestMismatch) <==> hash(seen) != want))
    }

    /** The digest of what has been seen, judged once. */
    method Verify() returns (ok: bool)
      requires Valid()
      modifies `done, `err
      ensures Valid() && done && (ok <==> hash(seen) == want)
      ensures err == if ok then old(err) else Some(DigestMismatch)
    {
      if done {
        return err != Some(DigestMismatch);
      }
      done := true;
      ok := hash(seen) == want;
      err := if ok then err else Some(DigestMismatch);
    }

    /** Reading, before Close. */
    method Read(n: nat) returns (chunk: Bytes, e: Option<ReadError>)
      requires Valid() && n > 0 && (err.None? ==> !done)
      modifies this, src
      ensures Valid() && e == err && seen == old(seen) + chunk && (err.None? ==> !done)
      ensures old(Content(src.script)) == chunk + Content(src.script)
      ensures old(err).Some? ==> err == old(err) && chunk == []
      ensures e.None? ==> src.Ahead() < old(src.Ahead())
      ensures old(err).None? && err == Some(EndOfFile) ==> src.script == [] && old(Faults(src.script)) == 0
      ensures e.None? ==> Faults(src.script) == old(Faults(src.script))
      ensures old(err).None? && err == Some(DigestMismatch) ==> src.script == []
      ensures old(err).None? && err == Some(SourceFailed) ==> old(Faults(src.script)) > 0
      ensures old(err).None? ==> err in {None, Some(EndOfFile), Some(DigestMismatch), Some(SourceFailed)}
    {
      if err.Some? {
        return [], err;
      }
      chunk, e := src.Read(n);
      seen := seen + chunk;
      if e == Some(EndOfFile) {
        var ok := Verify();
        err := if ok then e else err;
      } else {
        err := e;
      }
      e := err;
    }

    /** Close: an early close judges what was read so far. */
    method Close(closeFails: bool) returns (ok: bool)
      requires Valid()
      modifies this
      ensures ok <==> hash(seen) == want && !closeFails
    {
      ok := Verify();
      ok := ok && !closeFails;
    }

    /** io.Copy to nowhere: without an error, everything has been read and has the wanted digest. */
    method Drain() returns (n: nat, e: Option<ReadError>)
      requires Valid() && err.None? && !done
      modifies this, src
      ensures Valid()
      ensures e.None? <==> old(Faults(src.script)) == 0 && hash(old(seen) + old(Content(src.script))) == want
      ensures e.None? ==> n == |old(Content(src.script))|
    {
      n := 0;
      ghost var out: Bytes := [];
      while err.None?
        invariant Valid() && seen == old(seen) + out && n == |out| && (err.None? ==> !done)
        invariant old(Content(src.script)) == out + Content(src.script)
        invariant err.None? ==> Faults(src.script) == old(Faults(src.script))
        invariant err == Some(EndOfFile) ==> src.script == [] && old(Faults(src.script)) == 0
        invariant err == Some(DigestMismatch) ==> src.script == []
        invariant err == Some(SourceFailed) ==> old(Faults(src.script)) > 0
        invariant err in {None, Some(EndOfFile), Some(DigestMismatch), Some(SourceFailed)}
        decreases err.None?, src.Ahead()
      {
        var k :| k > 0;
        var chunk, last := Read(k);
        assert old(Content(src.script)) == (out + chunk) + Content(src.script);
        out := out + chunk;
        n := n + |chunk|;
      }
      assert src.script == [] ==> out + Content(src.script) == out;
      e := if err == Some(EndOfFile) then None else err;
    }
  }
}
