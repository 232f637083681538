/** The hosts CanonicalHost is written for, and that it settles them (internal/auth/host.go). */
module HostForms {
  import opened Strings
  import opened Host

  predicate NameByte(c: Byte) {
    'a' <= c <= 'z' || 'A' <= c <= 'Z' || IsDigit(c) || c == '-' || c == '_' || c == '.'
  }

  /** A host name in any case, with at most one trailing dot. */
  predicate HostName(h: Text) {
    h != [] && (forall i | 0 <= i < |h| :: NameByte(h[i])) && !EndsWithDot(DropDot(h))
  }

  /** The inside of a bracketed address literal: at least two colons. */
  predicate Address(h: Text) {
    && (forall i | 0 <= i < |h| :: NameByte(h[i]) || h[i] == ':') && !EndsWithDot(DropDot(h))
    && Count(h, ':') >= 2
  }

  /** A host, a host and a port, an address literal, an address literal and a port. */
  datatype Form = Name(host: Text) | NamePort(host: Text, port: Text) | Literal(address: Text) | LiteralPort(address: Text, port: Text)

  predicate WellFormedHost(f: Form) {
    match f
    case Name(h) => HostName(h)
    case NamePort(h, port) => HostName(h) && Atoi(port)
    case Literal(a) => Address(a)
    case LiteralPort(a, port) => Address(a) && Atoi(port)
  }

  function Bracketed(a: Text): (r: Text)
    ensures |r| == |a| + 2 && r[0] == '[' && r[|a| + 1] == ']'
  {
    "[" + a + "]"
  }

  function Spelled(f: Form): Text {
    match f
    case Name(h) => h
    case NamePort(h, port) => Joined(h, ':', port)
    case Literal(a) => Bracketed(a)
    case LiteralPort(a, port) => Joined(Bracketed(a), ':', port)
  }

  /** What is left when scheme-less input has been trimmed and cut at its path: one of the four forms. */
  ghost predicate InDomain(raw: Text, f: Form) {
    var s := TrimSpace(raw);
    && IndexSub(s, "://") < 0 && '@' !in s
    && WellFormedHost(f) && BeforeDelimiter(s) == Spelled(f)
  }

  // ---- Spellings made of harmless bytes ---------------------------------------------------------

  predicate CleanByte(c: Byte) {
    'a' <= c <= 'z' || IsDigit(c) || c == '-' || c == '_' || c == '.' || c == ':' || c == '+'
  }

  predicate Clean(s: Text) {
    forall i | 0 <= i < |s| :: CleanByte(s[i])
  }

  lemma SchemeHasSlash(s: Text)
    ensures IndexSub(s, "://") >= 0 ==> '/' in s
  {
    var i := IndexSub(s, "://");
    if i >= 0 {
      assert s[i + 1] == s[i..i + 3][1];
    }
  }

  /** A clean string that does not end in a dot and has no single colon is canonical. */
  lemma CleanIsCanonical(s: Text)
    requires Clean(s) && !EndsWithDot(s) && Count(s, ':') != 1
    ensures CanonicalSpelling(s)
  {
    SchemeHasSlash(s);
    assert Fold(s) == s;
    assert NoDelimiter(s);
  }

  lemma CleanOneColon(s: Text, colon: int)
    requires Clean(s) && s != [] && colon == Index(s, ':') && !EndsWithDot(s)
    requires colon > 0 ==> Atoi(s[colon + 1..]) && !IsDefaultPort([], s[colon + 1..]) && !EndsWithDot(s[..colon])
    ensures CanonicalSpelling(s)
  {
    hide Atoi, IsDefaultPort;
    SchemeHasSlash(s);
    assert Fold(s) == s;
    assert NoDelimiter(s);
  }

  lemma JoinedIsClean(h: Text, port: Text)
    requires Clean(h) && Atoi(port)
    ensures Clean(Joined(h, ':', port)) && !EndsWithDot(Joined(h, ':', port))
  {
    AtoiIsClean(port);
    hide Atoi;
    var s := Joined(h, ':', port);
    assert forall i | 0 <= i < |s| :: s[i] == (if i < |h| then h[i] else if i == |h| then ':' else port[i - |h| - 1]);
  }

  lemma CleanHostPort(h: Text, port: Text)
    requires Clean(h) && h != [] && !EndsWithDot(h) && ':' !in h && Atoi(port) && !IsDefaultPort([], port)
    ensures CanonicalSpelling(Joined(h, ':', port))
  {
    JoinedIsClean(h, port);
    JoinedSplits(h, ':', port);
    hide Clean, Joined, CanonicalSpelling, Index, Atoi, IsDefaultPort;
    CleanOneColon(Joined(h, ':', port), |h|);
  }

  lemma AtoiIsClean(port: Text)
    requires Atoi(port)
    ensures port != [] && ':' !in port && !EndsWithDot(port) && Clean(port)
  {
    AtoiIsFolded(port);
    var digits := if port[0] == '+' || port[0] == '-' then port[1..] else port;
    forall i | 0 <= i < |port| ensures CleanByte(port[i]) {
      if digits == port || i > 0 {
        assert port[i] == (if digits == port then digits[i] else digits[i - 1]);
        assert IsDigit(port[i]);
      }
    }
  }

  // ---- What the four forms become -----------------------------------------------------------------

  /** The rendered host part: lower case, without its trailing dot. */
  function Settled(h: Text): Text { Fold(DropDot(h)) }

  lemma SettledName(h: Text)
    requires HostName(h)
    ensures Clean(Settled(h)) && !EndsWithDot(Settled(h)) && ':' !in Settled(h)
    ensures ':' !in h && h[0] != '[' && Trimmed(h)
  {
  }

  lemma SettledColons(a: Text)
    ensures Count(Settled(a), ':') == Count(a, ':')
  {
    FoldKeeps(DropDot(a), ':');
    if DropDot(a) != a {
      assert a == DropDot(a) + ".";
      CountConcat(DropDot(a), ".", ':');
    }
  }

  lemma SettledAddress(a: Text)
    requires Address(a)
    ensures Clean(Settled(a)) && !EndsWithDot(Settled(a)) && Count(Settled(a), ':') >= 2 && Settled(a) != []
    ensures ']' !in a && a != []
  {
    SettledColons(a);
    hide Count;
    assert Clean(Settled(a));
  }

  lemma NameSettles(h: Text)
    requires HostName(h)
    ensures CanonicalPlain(h) == Render([], h, [])
  {
    SettledName(h);
    TrimIsIdentityOnTrimmed(h);
  }

  lemma NamePortSplits(scheme: Text, h: Text, port: Text)
    requires HostName(h) && Atoi(port)
    ensures CanonHostPort(scheme, Joined(h, ':', port)) == Render(scheme, h, port)
  {
    SettledName(h);
    AtoiIsClean(port);
    hide SplitHostPort, Atoi, Render;
    SplitJoined(h, port);
    TrimIsIdentityOnTrimmed(Joined(h, ':', port));
  }

  lemma NamePortSettles(h: Text, port: Text)
    requires HostName(h) && Atoi(port)
    ensures CanonicalPlain(Joined(h, ':', port)) == Render([], h, port)
  {
    SettledName(h);
    JoinedSplits(h, ':', port);
    NamePortSplits([], h, port);
    hide Joined, CanonHostPort, Atoi, Render;
  }

  /** A bracketed address, alone or with a port, splits into the two. */
  lemma BracketSplits(a: Text, port: Text)
    requires ']' !in a && a != []
    ensures SplitHostPort(Bracketed(a)) == (a, [])
    ensures SplitHostPort(Joined(Bracketed(a), ':', port)) == (a, port)
  {
    var (v, w) := (Bracketed(a), Joined(Bracketed(a), ':', port));
    assert forall i | 1 <= i <= |a| :: v[i] == a[i - 1] && w[i] == a[i - 1];
    assert v[|a| + 1] == ']' && w[|a| + 1] == ']';
    assert Index(v, ']') == |a| + 1 && Index(w, ']') == |a| + 1;
    assert v[1..|a| + 1] == a && w[1..|a| + 1] == a;
    assert w[|a| + 3..] == port;
  }

  lemma BracketIsHost(w: Text, h: Text, port: Text)
    requires w != [] && w[0] == '[' && Trimmed(w) && SplitHostPort(w) == (h, port)
    ensures CanonicalPlain(w) == Render([], h, port)
  {
    hide Render, SplitHostPort, Atoi, Count, Index;
    TrimIsIdentityOnTrimmed(w);
  }

  lemma LiteralSettles(a: Text, port: Text)
    requires Address(a)
    ensures CanonicalPlain(Bracketed(a)) == Render([], a, [])
    ensures Atoi(port) ==> CanonicalPlain(Joined(Bracketed(a), ':', port)) == Render([], a, port)
  {
    hide Render, SplitHostPort, CanonicalPlain, Count, Index;
    SettledAddress(a);
    BracketSplits(a, port);
    BracketIsHost(Bracketed(a), a, []);
    if Atoi(port) {
      AtoiIsClean(port);
      BracketIsHost(Joined(Bracketed(a), ':', port), a, port);
    }
  }

  lemma JoinedColons(h: Text, port: Text)
    ensures Count(Joined(h, ':', port), ':') >= Count(h, ':')
  {
    assert Joined(h, ':', port) == h + ([':'] + port);
    CountConcat(h, [':'] + port, ':');
  }

  /** Rendering a settled host with or without its port gives a canonical spelling. */
  lemma RenderedIsCanonical(h: Text, port: Text)
    requires HostName(h) || Address(h)
    requires port == [] || Atoi(port)
    ensures CanonicalSpelling(Render([], h, port))
  {
    var host := Settled(h);
    hide CanonicalSpelling, Address, Count, Atoi;
    if HostName(h) {
      SettledName(h);
      CountOne(host, ':');
    } else {
      SettledAddress(h);
    }
    if host == [] || port == [] || IsDefaultPort([], port) {
      CleanIsCanonical(Render([], h, port));
    } else if HostName(h) {
      CleanHostPort(host, port);
    } else {
      JoinedIsClean(host, port);
      JoinedColons(host, port);
      CleanIsCanonical(Joined(host, ':', port));
    }
  }

  /**
   CanonicalHost is idempotent on the hosts it is written for: plain hosts, host
   and port, address literals with and without a port, in any case, with white
   space around them, one trailing dot and a path behind them.
   */
  lemma CanonicalHostIdempotent(raw: Text, f: Form)
    requires InDomain(raw, f)
    ensures CanonicalSpelling(CanonicalHost(raw)) && CanonicalHost(CanonicalHost(raw)) == CanonicalHost(raw)
  {
    hide CanonicalPlain, CanonicalSpelling, Render, IndexSub, TrimSpace, BeforeDelimiter;
    match f {
      case Name(h) =>
        NameSettles(h);
        RenderedIsCanonical(h, []);
      case NamePort(h, port) =>
        NamePortSettles(h, port);
        RenderedIsCanonical(h, port);
      case Literal(a) =>
        LiteralSettles(a, []);
        RenderedIsCanonical(a, []);
      case LiteralPort(a, port) =>
        LiteralSettles(a, port);
        RenderedIsCanonical(a, port);
    }
    FixedPointsAreCanonicalSpellings(CanonicalHost(raw));
  }

  // ---- Where canonicalizing twice differs from canonicalizing once --------------------------------

  lemma {:induction false} IndexSubAt(s: Text, sub: Text, i: nat)
    requires sub != [] && i + |sub| <= |s| && s[i..i + |sub|] == sub
    requires forall k | 0 <= k < i :: s[k] != sub[0]
    ensures IndexSub(s, sub) == i
  {
    if i == 0 {
      assert sub <= s;
    } else {
      assert s[1..][i - 1..i - 1 + |sub|] == s[i..i + |sub|];
      IndexSubAt(s[1..], sub, i - 1);
      assert s[0] != sub[0];
    }
  }

  /** "user@host:path" is ssh; "user@host:port" says nothing about the scheme. */
  function ScpTarget(rest: Text): (r: (Text, Text)) {
    var colon := ScpHostColon(rest);
    if colon >= 0 && (rest[colon + 1..] == [] || '/' in rest[colon + 1..]) then ("ssh", rest[..colon]) else ([], rest)
  }

  function PlainTarget(w: Text): (r: Text) {
    var colon := Index(w, ':');
    if w != [] && w[0] != '[' && colon > 0 && Count(w, ':') == 1 && !Atoi(w[colon + 1..]) then w[..colon] else w
  }

  /** The scheme and the host[:port] that an input of any shape comes down to. */
  function Target(raw: Text): (r: (Text, Text)) {
    var s := TrimSpace(raw);
    var i := IndexSub(s, "://");
    if i >= 0 then (Fold(TrimSpace(s[..i])), AfterUserinfo(BeforeDelimiter(s[i + 3..])))
    else
      var at := LastIndex(s, '@');
      if at >= 0 then ScpTarget(s[at + 1..]) else ([], PlainTarget(BeforeDelimiter(s)))
  }

  lemma HostOfTarget(raw: Text)
    ensures CanonicalHost(raw) == CanonHostPort(Target(raw).0, Target(raw).1)
  {
    hide CanonHostPort, TrimSpace, IndexSub, LastIndex, BeforeDelimiter, Index, Count, Atoi, ScpHostColon, AfterUserinfo, Fold;
  }

  /** A port that is some scheme's default, but not this one's, behind a host name. */
  predicate Drifts(scheme: Text, f: Form) {
    f.NamePort? && DropDot(f.host) != [] && IsDefaultPort([], f.port) && !IsDefaultPort(scheme, f.port)
  }

  lemma RenderedSplit(scheme: Text, w: Text, h: Text, port: Text)
    requires Trimmed(w) && SplitHostPort(w) == (h, port)
    ensures CanonHostPort(scheme, w) == Render(scheme, h, port)
  {
    hide SplitHostPort, Render;
    TrimIsIdentityOnTrimmed(w);
  }

  lemma RenderedForm(scheme: Text, f: Form)
    requires WellFormedHost(f)
    ensures var (h, port) := Parts(f); CanonHostPort(scheme, Spelled(f)) == Render(scheme, h, port)
    ensures Trimmed(Spelled(f))
  {
    hide Render, Atoi, Count, CanonHostPort, SplitHostPort, HostName, Address;
    match f
    case Name(h) =>
      SettledName(h);
      SplitPlain(h);
      RenderedSplit(scheme, h, h, []);
    case NamePort(h, port) =>
      NamePortSplits(scheme, h, port);
      SettledName(h);
      AtoiIsClean(port);
    case Literal(a) =>
      SettledAddress(a);
      BracketSplits(a, []);
      RenderedSplit(scheme, Bracketed(a), a, []);
    case LiteralPort(a, port) =>
      SettledAddress(a);
      BracketSplits(a, port);
      AtoiIsClean(port);
      RenderedSplit(scheme, Joined(Bracketed(a), ':', port), a, port);
  }

  function Parts(f: Form): (r: (Text, Text)) {
    match f
    case Name(h) => (h, [])
    case NamePort(h, port) => (h, port)
    case Literal(a) => (a, [])
    case LiteralPort(a, port) => (a, port)
  }

  lemma WellKnownPortIsNotCanonical(host: Text, port: Text)
    requires host != [] && ':' !in host && host[0] != '[' && IsDefaultPort([], port) && ':' !in port
    ensures !CanonicalSpelling(Joined(host, ':', port))
  {
    JoinedSplits(host, ':', port);
  }

  lemma RenderedIsCanonicalExactlyWhen(scheme: Text, f: Form)
    requires WellFormedHost(f)
    ensures var (h, port) := Parts(f); CanonicalSpelling(Render(scheme, h, port)) <==> !Drifts(scheme, f)
  {
    var (h, port) := Parts(f);
    hide CanonicalSpelling, HostName, Address, Count, Atoi;
    RenderedIsCanonical(h, []);
    RenderedIsCanonical(h, port);
    var host := Settled(h);
    if host != [] && port != [] && IsDefaultPort([], port) && !IsDefaultPort(scheme, port) {
      if f.NamePort? {
        SettledName(h);
        AtoiIsClean(port);
        WellKnownPortIsNotCanonical(host, port);
      } else {
        SettledAddress(h);
        JoinedIsClean(host, port);
        JoinedColons(host, port);
        CleanIsCanonical(Joined(host, ':', port));
      }
    }
  }

  /**
   For an input of any shape that comes down to one of the four forms, with or
   without a scheme, userinfo or path: canonicalizing it twice differs from
   canonicalizing it once exactly when a host name comes with a port that is well
   known but not the default of the scheme.
   */
  lemma CanonicalTwiceExactlyWhen(raw: Text, f: Form)
    requires WellFormedHost(f) && TrimSpace(Target(raw).1) == Spelled(f)
    ensures CanonicalHost(CanonicalHost(raw)) == CanonicalHost(raw) <==> !Drifts(Target(raw).0, f)
  {
    var (scheme, w) := Target(raw);
    HostOfTarget(raw);
    hide CanonicalHost, Target, Render, CanonicalSpelling, Drifts;
    RenderedForm(scheme, f);
    TrimIsIdentityOnTrimmed(Spelled(f));
    assert CanonHostPort(scheme, w) == CanonHostPort(scheme, Spelled(f));
    RenderedIsCanonicalExactlyWhen(scheme, f);
    FixedPointsAreCanonicalSpellings(CanonicalHost(raw));
  }

  // ---- The same for every string ------------------------------------------------------------------

  predicate NoHostDelimiter(s: Text) { NoDelimiter(s) && '@' !in s }

  /** When a host and a port that is kept are spelled canonically, read off the two. */
  predicate KeptPortSettles(host: Text, port: Text)
    requires host != [] && port != []
  {
    && !IsSpace(host[0]) && !IsSpace(port[|port| - 1]) && NoHostDelimiter(host) && NoHostDelimiter(port)
    && Fold(host) == host && Fold(port) == port && !EndsWithDot(port)
    && (if host[0] == '[' then ']' !in host && ']' !in port
        else ':' !in host && ':' !in port ==> Atoi(port) && !IsDefaultPort([], port) && !EndsWithDot(host))
  }

  lemma JoinedDelimiters(host: Text, port: Text, w: Text)
    requires host != [] && port != [] && w == Joined(host, ':', port)
    ensures NoHostDelimiter(w) <==> NoHostDelimiter(host) && NoHostDelimiter(port)
    ensures Trimmed(w) <==> !IsSpace(host[0]) && !IsSpace(port[|port| - 1])
    ensures EndsWithDot(w) <==> EndsWithDot(port)
    ensures ']' in w <==> ']' in host || ']' in port
  {
    assert forall i | 0 <= i < |host| :: w[i] == host[i];
    assert forall i | 0 <= i < |port| :: w[|host| + 1 + i] == port[i];
    assert forall i | 0 <= i < |w| :: w[i] == (if i < |host| then host[i] else if i == |host| then ':' else port[i - |host| - 1]);
  }

  lemma JoinedOneColon(host: Text, port: Text)
    ensures Count(Joined(host, ':', port), ':') == 1 <==> ':' !in host && ':' !in port
  {
    assert Joined(host, ':', port) == host + ([':'] + port) && ([':'] + port)[1..] == port;
    CountConcat(host, [':'] + port, ':');
  }

  lemma JoinedShape(host: Text, port: Text, w: Text)
    requires host != [] && port != [] && w == Joined(host, ':', port) && Fold(w) == w && !EndsWithDot(w)
    ensures PlainSpelling(w) <==>
            if host[0] == '[' then ']' !in host && ']' !in port
            else ':' !in host && ':' !in port ==> Atoi(port) && !IsDefaultPort([], port) && !EndsWithDot(host)
  {
    JoinedDelimiters(host, port, w);
    JoinedOneColon(host, port);
    JoinedSplits(host, ':', port);
    hide Joined, Count, Fold, Atoi, IsDefaultPort, EndsWithDot;
  }

  lemma JoinedFolds(host: Text, port: Text)
    ensures Fold(Joined(host, ':', port)) == Joined(host, ':', port) <==> Fold(host) == host && Fold(port) == port
  {
    FoldJoined(host, ':', port);
    JoinedSplits(host, ':', port);
    JoinedSplits(Fold(host), ':', Fold(port));
    hide Fold;
  }

  lemma JoinedSpelling(host: Text, port: Text)
    requires host != [] && port != []
    ensures CanonicalSpelling(Joined(host, ':', port)) <==> KeptPortSettles(host, port)
  {
    var w := Joined(host, ':', port);
    JoinedFolds(host, port);
    JoinedDelimiters(host, port, w);
    SchemeHasSlash(w);
    assert NoDelimiter(w) ==> '/' !in w;
    hide Joined, Fold, IndexSub, NoDelimiter, Atoi, IsDefaultPort, EndsWithDot, Trimmed;
    if Fold(w) == w && !EndsWithDot(w) {
      JoinedShape(host, port, w);
      hide PlainSpelling;
    }
  }

  /** Scheme, host and port of an input of any shape. */
  function TargetParts(raw: Text): (r: (Text, Text, Text)) {
    var (scheme, w) := Target(raw);
    var (h, port) := SplitHostPort(TrimSpace(w));
    (scheme, h, port)
  }

  /** The parts come out the same when they are put together and taken apart again. */
  predicate PartsSettle(scheme: Text, h: Text, port: Text) {
    var host := Settled(h);
    host == [] || (if port == [] || IsDefaultPort(scheme, port) then CanonicalSpelling(host) else KeptPortSettles(host, port))
  }

  lemma RenderedSpelling(scheme: Text, h: Text, port: Text)
    ensures CanonicalSpelling(Render(scheme, h, port)) <==> PartsSettle(scheme, h, port)
  {
    assert CanonicalSpelling([]);
    hide CanonicalSpelling, KeptPortSettles, IsDefaultPort, Fold;
    if Settled(h) != [] && port != [] {
      JoinedSpelling(Settled(h), port);
    }
  }

  /** For every string: canonicalizing it twice is canonicalizing it once if and only if its parts settle. */
  lemma CanonicalTwiceForAll(raw: Text)
    ensures var (scheme, h, port) := TargetParts(raw);
            CanonicalHost(CanonicalHost(raw)) == CanonicalHost(raw) <==> PartsSettle(scheme, h, port)
  {
    hide CanonicalHost, CanonicalSpelling, PartsSettle, Target, SplitHostPort, TrimSpace, Render;
    var (scheme, h, port) := TargetParts(raw);
    HostOfTarget(raw);
    RenderedSpelling(scheme, h, port);
    FixedPointsAreCanonicalSpellings(CanonicalHost(raw));
  }

  /** Of two trailing dots each round takes one. */
  lemma TwoDotsDrift(h: Text)
    requires LowerBytes(h)
    ensures CanonicalHost(h + "." + ".") == h + "." && CanonicalHost(h + ".") == h
  {
    hide CanonicalHost, LowerBytes;
    OneDotDropped(h);
    OneDotDropped(h + ".");
  }

  lemma OnlyDotsVanish()
    ensures CanonicalHost("..") == "." && CanonicalHost(".") == []
  {
    var empty: Text := [];
    assert empty + "." == "." && empty + "." + "." == "..";
    hide CanonicalHost;
    TwoDotsDrift(empty);
  }

  predicate LowerBytes(w: Text) {
    forall i | 0 <= i < |w| :: NameByte(w[i]) && LowerByte(w[i]) == w[i]
  }

  lemma OneDotDropped(w: Text)
    requires LowerBytes(w)
    ensures LowerBytes(w + ".") && CanonicalHost(w + ".") == w
  {
    var v := w + ".";
    assert v[..|w|] == w && LowerBytes(v);
    assert Fold(w) == w;
    hide CanonicalHost, Fold;
    NameBytesSettle(v);
  }

  lemma NameBytesSettle(w: Text)
    requires w != [] && forall i | 0 <= i < |w| :: NameByte(w[i])
    ensures CanonicalHost(w) == Fold(DropDot(w))
  {
    assert Trimmed(w) && NoDelimiter(w) && ':' !in w && '@' !in w && '/' !in w && w[0] != '[';
    hide Trimmed, NoDelimiter, NameByte, IndexSub, TrimSpace, Fold, SplitHostPort, Count, Index, LastIndex, DropDot, Atoi;
    SchemeHasSlash(w);
    TrimIsIdentityOnTrimmed(w);
    CountOne(w, ':');
    SplitPlain(w);
  }

  /** A host name as CanonicalHost would leave it. */
  predicate LowerName(h: Text) {
    HostName(h) && Fold(h) == h && !EndsWithDot(h)
  }

  predicate WellKnown(port: Text) { port == "80" || port == "22" }

  lemma HarmlessHostPort(h: Text, port: Text)
    requires LowerName(h) && WellKnown(port)
    ensures Atoi(port)
    ensures var w := Joined(h, ':', port); Trimmed(w) && NoDelimiter(w) && '@' !in w
  {
    assert Decimal(port[..1]) < 10 && Decimal(port) < 100;
    var w := Joined(h, ':', port);
    assert forall i | 0 <= i < |w| :: w[i] == (if i < |h| then h[i] else if i == |h| then ':' else port[i - |h| - 1]);
  }

  /** Host with a well-known port and no scheme: the port goes. */
  lemma BarePortDropped(h: Text, port: Text)
    requires LowerName(h) && WellKnown(port)
    ensures CanonicalHost(Joined(h, ':', port)) == h
  {
    var w := Joined(h, ':', port);
    HarmlessHostPort(h, port);
    assert Render([], h, port) == h;
    hide CanonicalPlain, Render, Joined, Atoi, IndexSub;
    SchemeHasSlash(w);
    TrimIsIdentityOnTrimmed(w);
    NamePortSettles(h, port);
  }

  lemma SchemedHost(h: Text, port: Text, w: Text)
    requires LowerName(h) && WellKnown(port) && w == Joined(h, ':', port)
    ensures CanonicalURLHost("https", w) == w
  {
    HarmlessHostPort(h, port);
    assert Render("https", h, port) == w;
    hide CanonHostPort, Render, Joined, Atoi;
    TrimIsIdentityOnTrimmed("https");
    assert Fold("https") == "https";
    assert BeforeDelimiter(w) == w;
    assert AfterUserinfo(w) == w;
    NamePortSplits("https", h, port);
  }

  /** The same host and port behind "https://": the port is not that scheme's default and stays. */
  lemma SchemedPortKept(h: Text, port: Text)
    requires LowerName(h) && WellKnown(port)
    ensures CanonicalHost("https://" + Joined(h, ':', port)) == Joined(h, ':', port)
  {
    var w := Joined(h, ':', port);
    var s: Text := "https://" + w;
    HarmlessHostPort(h, port);
    hide CanonicalURLHost, Joined, Atoi;
    assert s[0] == 'h' && s[|s| - 1] == w[|w| - 1];
    TrimIsIdentityOnTrimmed(s);
    assert s[5..8] == "://";
    IndexSubAt(s, "://", 5);
    assert s[..5] == "https" && s[8..] == w;
    SchemedHost(h, port, w);
  }

  /**
   With a scheme, canonicalizing twice is not canonicalizing once: every plain
   host addressed as https on the http or ssh port keeps the port the first time
   and loses it the second.
   */
  lemma SchemedHostsDrift(h: Text, port: Text)
    requires LowerName(h) && WellKnown(port)
    ensures var once := CanonicalHost("https://" + Joined(h, ':', port));
            once == Joined(h, ':', port) && CanonicalHost(once) == h != once
  {
    hide CanonicalHost;
    SchemedPortKept(h, port);
    BarePortDropped(h, port);
  }
}
