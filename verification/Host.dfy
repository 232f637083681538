/** Forge host canonicalization (internal/auth/host.go). */
module Host {
  import opened Strings

  predicate Delimiter(c: Byte) { c == '/' || c == '?' || c == '#' }

  predicate NoDelimiter(s: Text) { forall i | 0 <= i < |s| :: !Delimiter(s[i]) }

  /** First position of one of "/?#", or the length. */
  function IndexDelimiter(s: Text): (n: nat)
    ensures n <= |s| && forall i | 0 <= i < n :: !Delimiter(s[i])
    ensures n < |s| ==> Delimiter(s[n])
  {
    if s == [] || Delimiter(s[0]) then 0 else 1 + IndexDelimiter(s[1..])
  }

  /** The part of `s` before the first of "/?#". */
  function BeforeDelimiter(s: Text): (r: Text)
    ensures |r| <= |s|
    ensures r == s <==> NoDelimiter(s)
  {
    s[..IndexDelimiter(s)]
  }

  predicate IsDefaultPort(scheme: Text, port: Text) {
    if scheme == "https" then port == "443"
    else if scheme == "http" then port == "80"
    else if scheme == "ssh" then port == "22"
    else port == "443" || port == "80" || port == "22"
  }

  function SplitHostPort(hp: Text): (r: (Text, Text))
    ensures r.1 != [] ==> |r.0| + 1 + |r.1| <= |hp|
    ensures |r.0| <= |hp|
  {
    if hp != [] && hp[0] == '[' then
      var end := Index(hp, ']');
      if end > 0 then
        (hp[1..end], if end + 1 < |hp| && hp[end + 1] == ':' then hp[end + 2..] else [])
      else (hp, [])
    else
      var colon := LastIndex(hp, ':');
      if colon > 0 && ':' !in hp[..colon] && Atoi(hp[colon + 1..]) then (hp[..colon], hp[colon + 1..])
      else (hp, [])
  }

  function DropDot(s: Text): (r: Text)
    ensures r <= s
  {
    if s != [] && s[|s| - 1] == '.' then s[..|s| - 1] else s
  }

  /** Renders host[:port]: lower case, one trailing dot and the scheme's default port dropped. */
  function Render(scheme: Text, h: Text, port: Text): (r: Text)
    ensures port == [] ==> |r| <= |h|
    ensures |r| <= |h| + 1 + |port|
  {
    var host := Fold(DropDot(h));
    if host == [] then []
    else if port == [] || IsDefaultPort(scheme, port) then host
    else Joined(host, ':', port)
  }

  function CanonHostPort(scheme: Text, hostPort: Text): (r: Text)
    ensures |r| <= |TrimSpace(hostPort)|
  {
    var (h, port) := SplitHostPort(TrimSpace(hostPort));
    Render(scheme, h, port)
  }

  function ScpHostColon(s: Text): (i: int)
    ensures i < |s|
  {
    if s != [] && s[0] == '[' then
      var end := Index(s, ']');
      if end < 0 then -1
      else
        var colon := Index(s[end + 1..], ':');
        if colon >= 0 then end + 1 + colon else -1
    else Index(s, ':')
  }

  /**
   What CanonicalHost does once white space, a scheme, userinfo and a path are
   out of the way: a closed bracket is host material, and a single colon in
   front of something that is no number separates a path.
   */
  function CanonicalPlain(w: Text): (r: Text)
    ensures |r| <= |w|
  {
    var colon := Index(w, ':');
    if w != [] && w[0] != '[' && colon > 0 && Count(w, ':') == 1 && !Atoi(w[colon + 1..])
    then CanonHostPort([], w[..colon])
    else CanonHostPort([], w)
  }

  function AfterUserinfo(s: Text): (r: Text)
    ensures |r| <= |s|
  {
    var at := LastIndex(s, '@');
    if at >= 0 then s[at + 1..] else s
  }

  /** The host of "scheme://[user@]host[:port][/...]". */
  function CanonicalURLHost(scheme: Text, afterScheme: Text): (r: Text)
    ensures |r| <= |afterScheme|
  {
    CanonHostPort(Fold(TrimSpace(scheme)), AfterUserinfo(BeforeDelimiter(afterScheme)))
  }

  /** The host of "user@host:path" or "user@host:port", given what follows the "@". */
  function CanonicalScpHost(rest: Text): (r: Text)
    ensures |r| <= |rest|
  {
    var colon := ScpHostColon(rest);
    if colon >= 0 && (rest[colon + 1..] == [] || '/' in rest[colon + 1..]) then
      CanonHostPort("ssh", rest[..colon])
    else CanonHostPort([], rest)
  }

  function CanonicalTrimmed(s: Text): (r: Text)
    ensures |r| <= |s|
    ensures r == s && s != [] ==> IndexSub(s, "://") < 0 && '@' !in s
  {
    var i := IndexSub(s, "://");
    if i >= 0 then CanonicalURLHost(s[..i], s[i + 3..])
    else
      var at := LastIndex(s, '@');
      if at >= 0 then CanonicalScpHost(s[at + 1..]) else CanonicalPlain(BeforeDelimiter(s))
  }

  function CanonicalHost(raw: Text): (r: Text) {
    CanonicalTrimmed(TrimSpace(raw))
  }

  // ---- Which hosts are already canonical --------------------------------------

  predicate EndsWithDot(s: Text) { s != [] && s[|s| - 1] == '.' }

  /** A host or host:port that rendering leaves alone. */
  predicate PlainSpelling(h: Text) {
    && Fold(h) == h && !EndsWithDot(h)
    && (if h != [] && h[0] == '[' then ']' !in h
        else
          var colon := Index(h, ':');
          colon > 0 && Count(h, ':') == 1 ==>
            Atoi(h[colon + 1..]) && !IsDefaultPort([], h[colon + 1..]) && !EndsWithDot(h[..colon]))
  }

  /**
   The spelling rules of a canonical host, read off the string alone: trimmed,
   lower case, no scheme, userinfo or path, no trailing dot, no closed bracket,
   and a single colon only in front of a port that is not a well-known default.
   */
  predicate CanonicalSpelling(h: Text) {
    Trimmed(h) && IndexSub(h, "://") < 0 && '@' !in h && NoDelimiter(h) && PlainSpelling(h)
  }

  /** With exactly one `c` the last is the first; with more, one precedes the last. */
  lemma LastIsFirst(s: Text, c: Byte)
    ensures Count(s, c) == 1 ==> LastIndex(s, c) == Index(s, c)
    ensures Count(s, c) >= 2 ==> c in s[..LastIndex(s, c)]
  {
    CountOne(s, c);
    var i, l := Index(s, c), LastIndex(s, c);
    if i >= 0 && i < l {
      assert s[..l][i] == c && s[i + 1..][l - i - 1] == c;
    }
  }

  /** Without brackets the last colon splits only a single-colon host:port. */
  lemma SplitPlain(w: Text)
    requires w == [] || w[0] != '['
    ensures var colon := Index(w, ':');
            SplitHostPort(w) == (if colon > 0 && Count(w, ':') == 1 && Atoi(w[colon + 1..])
                                 then (w[..colon], w[colon + 1..]) else (w, []))
  {
    LastIsFirst(w, ':');
    CountOne(w, ':');
    if Count(w, ':') == 1 {
      assert ':' !in w[..Index(w, ':')];
    }
  }

  lemma AtoiIsFolded(port: Text)
    requires Atoi(port)
    ensures Fold(port) == port
    ensures port != [] && !EndsWithDot(port) && ':' !in port
  {
    var digits := if port[0] == '+' || port[0] == '-' then port[1..] else port;
    forall i | 0 <= i < |port|
      ensures LowerByte(port[i]) == port[i] && port[i] != '.' && port[i] != ':'
    {
      if digits == port || i > 0 {
        assert port[i] == (if digits == port then digits[i] else digits[i - 1]);
        assert IsDigit(port[i]);
      }
    }
  }

  lemma RenderKeepsHost(h: Text)
    ensures Render([], h, []) == h <==> Fold(h) == h && !EndsWithDot(h)
  {
  }

  lemma RenderKeepsHostPort(h: Text, port: Text)
    requires h != [] && port != []
    ensures Render([], h, port) == Joined(h, ':', port) <==>
            Fold(h) == h && !EndsWithDot(h) && !IsDefaultPort([], port)
  {
    var host := Fold(DropDot(h));
    if Render([], h, port) == Joined(h, ':', port) {
      assert |host| == |h|;
      JoinedSplits(host, ':', port);
      JoinedSplits(h, ':', port);
    }
  }

  lemma BracketFixedPoints(h: Text)
    requires Trimmed(h) && h != [] && h[0] == '['
    ensures CanonHostPort([], h) == h <==> ']' !in h && Fold(h) == h && !EndsWithDot(h)
  {
    TrimIsIdentityOnTrimmed(h);
    if ']' !in h {
      RenderKeepsHost(h);
    }
  }

  lemma SplitJoined(h: Text, port: Text)
    requires h != [] && h[0] != '[' && ':' !in h && ':' !in port && Atoi(port)
    ensures SplitHostPort(Joined(h, ':', port)) == (h, port)
  {
    JoinedSplits(h, ':', port);
  }

  lemma FoldedHostPort(h: Text, port: Text)
    requires Fold(port) == port
    ensures Fold(Joined(h, ':', port)) == Joined(h, ':', port) <==> Fold(h) == h
  {
    FoldJoined(h, ':', port);
    JoinedSplits(h, ':', port);
    JoinedSplits(Fold(h), ':', port);
  }

  lemma HostPortFixedPoints(h: Text, port: Text, w: Text)
    requires h != [] && h[0] != '[' && ':' !in h && Atoi(port) && w == Joined(h, ':', port)
    requires TrimSpace(w) == w
    ensures CanonHostPort([], w) == w <==> Fold(w) == w && !EndsWithDot(h) && !IsDefaultPort([], port)
  {
    AtoiIsFolded(port);
    SplitJoined(h, port);
    assert CanonHostPort([], w) == Render([], h, port);
    RenderKeepsHostPort(h, port);
    FoldedHostPort(h, port);
  }

  lemma HostPathShrinks(h: Text, colon: int)
    requires h != [] && h[0] != '[' && colon == Index(h, ':') > 0 && Count(h, ':') == 1
    requires !Atoi(h[colon + 1..])
    ensures |CanonicalPlain(h)| < |h|
  {
    assert |CanonHostPort([], h[..colon])| <= colon;
  }

  lemma PortKeepsLastByte(h: Text, colon: nat)
    requires colon < |h| && Atoi(h[colon + 1..])
    ensures !EndsWithDot(h)
  {
    AtoiIsFolded(h[colon + 1..]);
    assert h[|h| - 1] == h[colon + 1..][|h| - colon - 2];
  }

  /** The single-colon case of `PlainFixedPoints`. */
  lemma OneColonFixedPoints(h: Text, colon: int)
    requires TrimSpace(h) == h && 0 < colon < |h| && h[colon] == ':' && h[0] != '['
    requires ':' !in h[..colon] && Atoi(h[colon + 1..])
    ensures CanonHostPort([], h) == h <==>
            Fold(h) == h && !EndsWithDot(h[..colon]) && !IsDefaultPort([], h[colon + 1..])
  {
    assert h == Joined(h[..colon], ':', h[colon + 1..]);
    HostPortFixedPoints(h[..colon], h[colon + 1..], h);
  }

  lemma UnsplitFixedPoints(h: Text)
    requires Trimmed(h) && h != [] && h[0] != '[' && !(Index(h, ':') > 0 && Count(h, ':') == 1)
    ensures CanonHostPort([], h) == h <==> Fold(h) == h && !EndsWithDot(h)
  {
    TrimIsIdentityOnTrimmed(h);
    SplitPlain(h);
    RenderKeepsHost(h);
  }

  /** On a trimmed string with no scheme, userinfo or path the two notions coincide. */
  lemma PlainFixedPoints(h: Text)
    requires TrimSpace(h) == h && Trimmed(h)
    ensures CanonicalPlain(h) == h <==> PlainSpelling(h)
  {
    if h == [] {
    } else if h[0] == '[' {
      BracketFixedPoints(h);
    } else if Index(h, ':') > 0 && Count(h, ':') == 1 {
      var colon := Index(h, ':');
      if Atoi(h[colon + 1..]) {
        PortKeepsLastByte(h, colon);
        OneColonFixedPoints(h, colon);
      } else {
        HostPathShrinks(h, colon);
      }
    } else {
      UnsplitFixedPoints(h);
    }
  }

  /**
   CanonicalHost leaves a host alone exactly when it has the canonical spelling.
   Applying it twice is therefore the same as applying it once exactly when the
   first result has that spelling.
   */
  lemma FixedPointsAreCanonicalSpellings(h: Text)
    ensures CanonicalHost(h) == h <==> CanonicalSpelling(h)
  {
    TrimIsIdentityOnTrimmed(h);
    if Trimmed(h) {
      PlainFixedPoints(h);
    }
  }

  lemma RenderLength(h: Text, port: Text)
    requires port != [] ==> h != [] && h[0] != '[' && ':' !in h && Atoi(port)
    requires |Render([], h, port)| == |h| + (if port == [] then 0 else 1 + |port|)
    ensures Render([], h, port) == if port == [] then Fold(h) else Fold(Joined(h, ':', port))
  {
    if port != [] {
      AtoiIsFolded(port);
      FoldJoined(h, ':', port);
    }
  }

  lemma BracketLength(w: Text)
    requires w != [] && w[0] == '[' && TrimSpace(w) == w && |CanonHostPort([], w)| == |w|
    ensures CanonHostPort([], w) == Fold(w)
  {
    hide TrimSpace;
    var (h, port) := SplitHostPort(w);
    if ']' !in w {
      hide SplitHostPort;
      RenderLength(h, port);
    }
  }

  lemma ColonLength(w: Text)
    requires (w == [] || w[0] != '[') && TrimSpace(w) == w && |CanonHostPort([], w)| == |w|
    ensures CanonHostPort([], w) == Fold(w)
  {
    hide TrimSpace, SplitHostPort, Render, Fold, Atoi;
    var colon := Index(w, ':');
    SplitPlain(w);
    if colon > 0 && Count(w, ':') == 1 && Atoi(w[colon + 1..]) {
      var (h, port) := (w[..colon], w[colon + 1..]);
      assert w == Joined(h, ':', port);
      AtoiIsFolded(port);
      RenderLength(h, port);
    } else {
      RenderLength(w, []);
    }
  }

  lemma PlainLength(w: Text)
    requires |CanonicalPlain(w)| == |w|
    ensures CanonicalPlain(w) == Fold(w)
  {
    var colon := Index(w, ':');
    if w != [] && w[0] != '[' && colon > 0 && Count(w, ':') == 1 && !Atoi(w[colon + 1..]) {
      HostPathShrinks(w, colon);
    } else {
      hide CanonHostPort, Fold, Atoi, Count, Index, TrimSpace;
      TrimIsIdentityOnTrimmed(w);
      if w != [] && w[0] == '[' {
        BracketLength(w);
      } else {
        ColonLength(w);
      }
    }
  }

  /** When nothing is taken away, the result is the input in lower case. */
  lemma LengthKeptIsFolded(x: Text)
    requires |CanonicalHost(x)| == |x|
    ensures CanonicalHost(x) == Fold(x)
  {
    TrimIsIdentityOnTrimmed(x);
    PlainLength(x);
  }
}
