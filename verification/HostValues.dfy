/** Which host an input stands for (internal/auth/host.go): URLs, user@host spellings, plain hosts and ports. */
module HostValues {
  import opened Strings
  import opened Host
  import opened HostForms

  // ---- The shape of a URL -----------------------------------------------------------------------

  /** Something that can stand before "://". */
  predicate Scheme(sc: Text) {
    sc != [] && Trimmed(sc) && ':' !in sc
  }

  function Url(sc: Text, rest: Text): (r: Text) { sc + "://" + rest }

  /** What may follow a host: nothing, or a path, query or fragment. */
  predicate Tail(t: Text) {
    t == [] || ((t[0] == '/' || t[0] == '?' || t[0] == '#') && !IsSpace(t[|t| - 1]))
  }

  /** A host as it stands in a URL, with its port. */
  predicate UrlHost(h: Text) {
    h != [] && NoHostDelimiter(h) && !IsSpace(h[|h| - 1])
  }

  lemma UrlTarget(sc: Text, rest: Text)
    requires Scheme(sc) && rest != [] && !IsSpace(rest[|rest| - 1])
    ensures CanonicalHost(Url(sc, rest)) == CanonHostPort(Fold(sc), AfterUserinfo(BeforeDelimiter(rest)))
  {
    var s := Url(sc, rest);
    hide CanonHostPort, AfterUserinfo, BeforeDelimiter;
    assert s[0] == sc[0] && s[|s| - 1] == rest[|rest| - 1];
    TrimIsIdentityOnTrimmed(s);
    TrimIsIdentityOnTrimmed(sc);
    assert s[|sc|..|sc| + 3] == "://";
    IndexSubAt(s, "://", |sc|);
    assert s[..|sc|] == sc && s[|sc| + 3..] == rest;
  }

  lemma {:induction false} BeforeDelimiterStops(a: Text, t: Text)
    requires NoDelimiter(a) && (t == [] || Delimiter(t[0]))
    ensures BeforeDelimiter(a + t) == a
    decreases |a|
  {
    var n := IndexDelimiter(a + t);
    assert forall i | 0 <= i < |a| :: (a + t)[i] == a[i];
    assert n >= |a|;
    assert t != [] ==> (a + t)[|a|] == t[0];
    assert (a + t)[..|a|] == a;
  }

  /** Path, query and fragment say nothing about the host. */
  lemma PathIgnored(sc: Text, h: Text, t: Text)
    requires Scheme(sc) && UrlHost(h) && Tail(t)
    ensures CanonicalHost(Url(sc, h + t)) == CanonicalHost(Url(sc, h))
  {
    hide CanonicalHost, CanonHostPort;
    UrlTarget(sc, h + t);
    UrlTarget(sc, h);
    BeforeDelimiterStops(h, t);
    BeforeDelimiterStops(h, []);
    assert h + [] == h;
  }

  /** Neither does what stands before the last "@". */
  lemma UserinfoIgnored(sc: Text, u: Text, h: Text, t: Text)
    requires Scheme(sc) && NoDelimiter(u) && UrlHost(h) && Tail(t)
    ensures CanonicalHost(Url(sc, Joined(u, '@', h) + t)) == CanonicalHost(Url(sc, h))
  {
    hide CanonicalHost, CanonHostPort;
    var w := Joined(u, '@', h);
    assert forall i | 0 <= i < |w| :: w[i] == (if i < |u| then u[i] else if i == |u| then '@' else h[i - |u| - 1]);
    assert NoDelimiter(w);
    assert (w + t)[|w + t| - 1] == if t == [] then h[|h| - 1] else t[|t| - 1];
    UrlTarget(sc, w + t);
    UrlTarget(sc, h);
    BeforeDelimiterStops(w, t);
    BeforeDelimiterStops(h, []);
    assert h + [] == h;
    LastSplit(u, '@', h);
  }

  lemma LastSplit(a: Text, c: Byte, b: Text)
    requires c !in b
    ensures LastIndex(Joined(a, c, b), c) == |a| && Joined(a, c, b)[|a| + 1..] == b
  {
    var w := Joined(a, c, b);
    assert w[|a|] == c;
    assert forall i | |a| < i < |w| :: w[i] == b[i - |a| - 1];
  }

  // ---- The values -------------------------------------------------------------------------------

  /** The port is the default of the scheme; without a scheme that is known, of any. */
  predicate DefaultPort(scheme: Text, port: Text) {
    || (scheme == "https" && port == "443")
    || (scheme == "http" && port == "80")
    || (scheme == "ssh" && port == "22")
    || (scheme != "https" && scheme != "http" && scheme != "ssh" && (port == "443" || port == "80" || port == "22"))
  }

  /** A host name in any case with its trailing dot, and what is left of it. */
  predicate Names(h: Text, host: Text) {
    && HostName(h) && host != [] && |host| <= |h| <= |host| + 1 && (|h| == |host| + 1 ==> h[|host|] == '.')
    && !EndsWithDot(host) && forall i | 0 <= i < |host| :: host[i] == LowerByte(h[i])
  }

  lemma NamesIsSettled(h: Text, host: Text)
    requires Names(h, host)
    ensures Settled(h) == host
  {
    if |h| == |host| {
      assert host[|host| - 1] == LowerByte(h[|h| - 1]);
    }
  }

  lemma RenderedValue(scheme: Text, h: Text, host: Text, port: Text)
    requires Names(h, host)
    ensures Render(scheme, h, port) == if port == [] || DefaultPort(scheme, port) then host else Joined(host, ':', port)
  {
    NamesIsSettled(h, host);
  }

  lemma HarmlessName(h: Text)
    requires HostName(h)
    ensures UrlHost(h) && Trimmed(h) && ':' !in h
  {
  }

  lemma HarmlessNamePort(h: Text, port: Text)
    requires HostName(h) && Atoi(port)
    ensures UrlHost(Joined(h, ':', port)) && Trimmed(Joined(h, ':', port)) && '/' !in Joined(h, ':', port)
  {
    AtoiIsClean(port);
    hide Atoi;
    var w := Joined(h, ':', port);
    assert forall i | 0 <= i < |w| :: w[i] == (if i < |h| then h[i] else if i == |h| then ':' else port[i - |h| - 1]);
  }

  /**
   The host of a URL is its host name in lower case without the trailing dot, with
   its port unless that is the default of the scheme.
   */
  lemma UrlValue(sc: Text, h: Text, host: Text, port: Text)
    requires Scheme(sc) && Names(h, host)
    ensures CanonicalHost(Url(sc, h)) == host
    ensures Atoi(port) ==>
              CanonicalHost(Url(sc, Joined(h, ':', port))) == if DefaultPort(Fold(sc), port) then host else Joined(host, ':', port)
  {
    hide CanonicalHost, Render, Atoi, DefaultPort, CanonHostPort, Scheme;
    UrlHostValue(sc, Name(h));
    RenderedValue(Fold(sc), h, host, []);
    if Atoi(port) {
      AtoiIsClean(port);
      UrlHostValue(sc, NamePort(h, port));
      RenderedValue(Fold(sc), h, host, port);
    }
  }

  lemma UrlHostValue(sc: Text, f: Form)
    requires Scheme(sc) && WellFormedHost(f) && (f.Name? || f.NamePort?)
    ensures CanonicalHost(Url(sc, Spelled(f))) == Render(Fold(sc), Parts(f).0, Parts(f).1)
  {
    var w := Spelled(f);
    assert UrlHost(w) by {
      if f.Name? {
        HarmlessName(f.host);
      } else {
        HarmlessNamePort(f.host, f.port);
      }
    }
    hide CanonicalHost, Render, Atoi, CanonHostPort, Scheme, HostName, Joined;
    UrlTarget(sc, w);
    BeforeDelimiterStops(w, []);
    assert w + [] == w && AfterUserinfo(w) == w;
    RenderedForm(Fold(sc), f);
  }

  /** The same without a scheme, where any well-known port counts as the default; a path behind it is ignored. */
  lemma PlainValue(h: Text, host: Text, port: Text, t: Text)
    requires Names(h, host) && Tail(t) && '@' !in t && IndexSub(h + t, "://") < 0
    ensures CanonicalHost(h + t) == host
    ensures Atoi(port) && IndexSub(Joined(h, ':', port) + t, "://") < 0 ==>
              CanonicalHost(Joined(h, ':', port) + t) ==
              if port == "443" || port == "80" || port == "22" then host else Joined(host, ':', port)
  {
    hide CanonicalHost, Render, Atoi, IndexSub, CanonicalPlain, HostName;
    HarmlessName(h);
    PlainPathIgnored(h, t);
    NameSettles(h);
    RenderedValue([], h, host, []);
    if Atoi(port) && IndexSub(Joined(h, ':', port) + t, "://") < 0 {
      HarmlessNamePort(h, port);
      AtoiIsClean(port);
      PlainPathIgnored(Joined(h, ':', port), t);
      NamePortSettles(h, port);
      RenderedValue([], h, host, port);
    }
  }

  lemma PlainPathIgnored(w: Text, t: Text)
    requires UrlHost(w) && Trimmed(w) && Tail(t) && '@' !in t && IndexSub(w + t, "://") < 0
    ensures CanonicalHost(w + t) == CanonicalPlain(w)
  {
    hide CanonicalPlain, IndexSub, BeforeDelimiter;
    var s := w + t;
    assert s[0] == w[0] && s[|s| - 1] == if t == [] then w[|w| - 1] else t[|t| - 1];
    TrimIsIdentityOnTrimmed(s);
    assert '@' !in s;
    BeforeDelimiterStops(w, t);
  }

  lemma HostPathIsPlain(h: Text, path: Text)
    requires HostName(h) && NoHostDelimiter(path) && ':' !in path && !Atoi(path) && (path == [] || !IsSpace(path[|path| - 1]))
    ensures CanonicalPlain(Joined(h, ':', path)) == CanonHostPort([], h)
  {
    hide CanonHostPort, Atoi;
    SettledName(h);
    JoinedSplits(h, ':', path);
    hide Joined, Index, Count;
  }

  lemma HarmlessHostPath(h: Text, path: Text)
    requires HostName(h) && NoHostDelimiter(path) && (path == [] || !IsSpace(path[|path| - 1]))
    ensures var w := Joined(h, ':', path); UrlHost(w) && Trimmed(w) && '/' !in w
  {
    var w := Joined(h, ':', path);
    assert forall i | 0 <= i < |w| :: w[i] == (if i < |h| then h[i] else if i == |h| then ':' else path[i - |h| - 1]);
  }

  lemma SlashlessIsPlain(w: Text)
    requires UrlHost(w) && Trimmed(w) && '/' !in w
    ensures CanonicalHost(w) == CanonicalPlain(w)
  {
    hide CanonicalHost, CanonicalPlain, IndexSub;
    SchemeHasSlash(w);
    assert w + [] == w;
    PlainPathIgnored(w, []);
  }

  /** "host:path" without a user is the host, when the path is no number. */
  lemma HostPathValue(h: Text, host: Text, path: Text)
    requires Names(h, host) && NoHostDelimiter(path) && ':' !in path && !Atoi(path) && (path == [] || !IsSpace(path[|path| - 1]))
    ensures CanonicalHost(Joined(h, ':', path)) == host
  {
    hide CanonicalHost, CanonicalPlain, Render, Atoi, HostName, CanonHostPort, Joined;
    HarmlessHostPath(h, path);
    SlashlessIsPlain(Joined(h, ':', path));
    HostPathIsPlain(h, path);
    RenderedForm([], Name(h));
    RenderedValue([], h, host, []);
  }

  // ---- user@host ----------------------------------------------------------------------------------

  lemma ScpTargetOf(u: Text, rest: Text)
    requires u != [] && !IsSpace(u[0]) && '@' !in rest && rest != [] && !IsSpace(rest[|rest| - 1])
    requires IndexSub(Joined(u, '@', rest), "://") < 0
    ensures CanonicalHost(Joined(u, '@', rest)) == CanonicalScpHost(rest)
  {
    var s := Joined(u, '@', rest);
    LastSplit(u, '@', rest);
    TrimIsIdentityOnTrimmed(s);
    hide CanonicalScpHost, IndexSub, Joined;
  }

  lemma ScpHost(h: Text, path: Text)
    requires HostName(h)
    ensures var rest := Joined(h, ':', path);
            CanonicalScpHost(rest) == if path == [] || '/' in path then CanonHostPort("ssh", h) else CanonHostPort([], rest)
  {
    hide CanonHostPort;
    HarmlessName(h);
    JoinedSplits(h, ':', path);
    assert Joined(h, ':', path)[0] == h[0] != '[';
    hide Joined, Index;
  }

  lemma NumberHasNoSlash(port: Text)
    requires Atoi(port)
    ensures port != [] && '/' !in port && '@' !in port && !IsSpace(port[|port| - 1])
  {
    AtoiIsClean(port);
    hide Atoi;
  }

  lemma RestHasNoAt(h: Text, path: Text)
    requires HostName(h) && '@' !in path && (path == [] || !IsSpace(path[|path| - 1]))
    ensures var rest := Joined(h, ':', path); '@' !in rest && !IsSpace(rest[|rest| - 1])
  {
  }

  /** user@host:path is the host. */
  lemma ScpPathValue(u: Text, h: Text, host: Text, path: Text)
    requires u != [] && !IsSpace(u[0]) && Names(h, host)
    requires (path == [] || '/' in path) && '@' !in path && (path == [] || !IsSpace(path[|path| - 1]))
    requires IndexSub(Joined(u, '@', Joined(h, ':', path)), "://") < 0
    ensures CanonicalHost(Joined(u, '@', Joined(h, ':', path))) == host
  {
    hide CanonicalHost, CanonicalScpHost, Render, HostName, CanonHostPort, Joined, IndexSub;
    RestHasNoAt(h, path);
    ScpTargetOf(u, Joined(h, ':', path));
    ScpHost(h, path);
    RenderedForm("ssh", Name(h));
    RenderedValue("ssh", h, host, []);
  }

  /** user@host:port is the host with its port, unless that is well known. */
  lemma ScpPortValue(u: Text, h: Text, host: Text, port: Text)
    requires u != [] && !IsSpace(u[0]) && Names(h, host) && Atoi(port)
    requires IndexSub(Joined(u, '@', Joined(h, ':', port)), "://") < 0
    ensures CanonicalHost(Joined(u, '@', Joined(h, ':', port))) ==
            if port == "443" || port == "80" || port == "22" then host else Joined(host, ':', port)
  {
    hide CanonicalHost, CanonicalScpHost, Render, HostName, CanonHostPort, Joined, IndexSub, Atoi;
    NumberHasNoSlash(port);
    RestHasNoAt(h, port);
    ScpTargetOf(u, Joined(h, ':', port));
    ScpHost(h, port);
    RenderedForm([], NamePort(h, port));
    RenderedValue([], h, host, port);
  }

  // ---- Address literals -----------------------------------------------------------------------------

  lemma RenderedLiteral(scheme: Text, a: Text, port: Text)
    requires Fold(a) != [] && !EndsWithDot(a)
    ensures port == [] ==> Render(scheme, a, port) == Fold(a)
    ensures port != [] ==>
              Render([], a, port) == if port == "443" || port == "80" || port == "22" then Fold(a) else Joined(Fold(a), ':', port)
  {
  }

  lemma HarmlessLiteral(a: Text, port: Text)
    requires Address(a)
    ensures var w := Bracketed(a); UrlHost(w) && Trimmed(w) && '/' !in w
    ensures Atoi(port) ==> var v := Joined(Bracketed(a), ':', port); UrlHost(v) && Trimmed(v) && '/' !in v
  {
    var w := Bracketed(a);
    if Atoi(port) {
      AtoiIsClean(port);
      hide Atoi, EndsWithDot, Count;
      var v := Joined(w, ':', port);
      assert forall i | 0 <= i < |v| :: v[i] == (if i < |w| then w[i] else if i == |w| then ':' else port[i - |w| - 1]);
    }
  }

  /** An address literal loses its brackets and keeps its colons. */
  lemma LiteralValue(a: Text, port: Text)
    requires Address(a) && !EndsWithDot(a)
    ensures CanonicalHost(Bracketed(a)) == Fold(a)
    ensures Atoi(port) ==>
              CanonicalHost(Joined(Bracketed(a), ':', port)) ==
              if port == "443" || port == "80" || port == "22" then Fold(a) else Joined(Fold(a), ':', port)
  {
    SettledAddress(a);
    hide CanonicalHost, CanonicalPlain, Render, Atoi, Address, Joined, Bracketed, Fold;
    HarmlessLiteral(a, port);
    SlashlessIsPlain(Bracketed(a));
    LiteralSettles(a, port);
    RenderedLiteral([], a, []);
    if Atoi(port) {
      AtoiIsClean(port);
      SlashlessIsPlain(Joined(Bracketed(a), ':', port));
      RenderedLiteral([], a, port);
    }
  }

  lemma BracketColon(a: Text, path: Text)
    requires ']' !in a
    ensures ScpHostColon(Bracketed(a)) == -1
    ensures ScpHostColon(Joined(Bracketed(a), ':', path)) == |Bracketed(a)|
  {
    var (v, w) := (Bracketed(a), Joined(Bracketed(a), ':', path));
    assert forall i | 1 <= i <= |a| :: v[i] == a[i - 1] && w[i] == a[i - 1];
    assert v[|a| + 1] == ']' && w[|a| + 1] == ']';
    assert Index(v, ']') == |a| + 1 && Index(w, ']') == |a| + 1;
    assert v[|a| + 2..] == [] && w[|a| + 2..] == [':'] + path;
    assert Index(w[|a| + 2..], ':') == 0;
  }

  /** Behind a bracketed literal the first colon separates; one inside it never does. */
  lemma LiteralColon(a: Text, path: Text)
    requires Address(a)
    ensures ScpHostColon(Bracketed(a)) == -1
    ensures ScpHostColon(Joined(Bracketed(a), ':', path)) == |Bracketed(a)|
  {
    hide ScpHostColon;
    SettledAddress(a);
    hide Address;
    BracketColon(a, path);
  }

  lemma ScpSplit(w: Text, path: Text)
    requires ScpHostColon(Joined(w, ':', path)) == |w|
    ensures CanonicalScpHost(Joined(w, ':', path)) ==
            if path == [] || '/' in path then CanonHostPort("ssh", w) else CanonHostPort([], Joined(w, ':', path))
  {
    JoinedSplits(w, ':', path);
    hide CanonHostPort, ScpHostColon, Joined;
  }

  lemma ScpWhole(w: Text)
    requires ScpHostColon(w) < 0
    ensures CanonicalScpHost(w) == CanonHostPort([], w)
  {
    hide CanonHostPort, ScpHostColon;
  }

  lemma LiteralHasNoAt(a: Text, path: Text)
    requires Address(a) && '@' !in path && (path == [] || !IsSpace(path[|path| - 1]))
    ensures var rest := Bracketed(a); '@' !in rest && !IsSpace(rest[|rest| - 1])
    ensures var rest := Joined(Bracketed(a), ':', path); '@' !in rest && !IsSpace(rest[|rest| - 1])
  {
    HarmlessLiteral(a, []);
  }

  lemma LiteralForm(scheme: Text, a: Text)
    requires Address(a) && !EndsWithDot(a)
    ensures CanonHostPort(scheme, Bracketed(a)) == Fold(a)
  {
    SettledAddress(a);
    hide Render, Address, CanonHostPort, Bracketed, Fold;
    RenderedForm(scheme, Literal(a));
    RenderedLiteral(scheme, a, []);
  }

  /** user@[address] is the address. */
  lemma ScpLiteralValue(u: Text, a: Text)
    requires u != [] && !IsSpace(u[0]) && Address(a) && !EndsWithDot(a)
    requires IndexSub(Joined(u, '@', Bracketed(a)), "://") < 0
    ensures CanonicalHost(Joined(u, '@', Bracketed(a))) == Fold(a)
  {
    hide CanonicalHost, CanonicalScpHost, Render, Address, CanonHostPort, Joined, IndexSub, Bracketed, Fold, ScpHostColon;
    LiteralHasNoAt(a, []);
    ScpTargetOf(u, Bracketed(a));
    LiteralColon(a, []);
    ScpWhole(Bracketed(a));
    LiteralForm([], a);
  }

  /** user@[address]:path is the address. */
  lemma ScpLiteralPathValue(u: Text, a: Text, path: Text)
    requires u != [] && !IsSpace(u[0]) && Address(a) && !EndsWithDot(a)
    requires (path == [] || '/' in path) && '@' !in path && (path == [] || !IsSpace(path[|path| - 1]))
    requires IndexSub(Joined(u, '@', Joined(Bracketed(a), ':', path)), "://") < 0
    ensures CanonicalHost(Joined(u, '@', Joined(Bracketed(a), ':', path))) == Fold(a)
  {
    hide CanonicalHost, CanonicalScpHost, Render, Address, CanonHostPort, Joined, IndexSub, Bracketed, Fold, ScpHostColon, Atoi;
    LiteralHasNoAt(a, path);
    ScpTargetOf(u, Joined(Bracketed(a), ':', path));
    LiteralColon(a, path);
    ScpSplit(Bracketed(a), path);
    LiteralForm("ssh", a);
  }

  /** user@[address]:port is the address with its port, unless that is well known. */
  lemma ScpLiteralPortValue(u: Text, a: Text, port: Text)
    requires u != [] && !IsSpace(u[0]) && Address(a) && !EndsWithDot(a) && Atoi(port)
    requires IndexSub(Joined(u, '@', Joined(Bracketed(a), ':', port)), "://") < 0
    ensures CanonicalHost(Joined(u, '@', Joined(Bracketed(a), ':', port))) ==
            if port == "443" || port == "80" || port == "22" then Fold(a) else Joined(Fold(a), ':', port)
  {
    SettledAddress(a);
    hide CanonicalHost, CanonicalScpHost, Render, Address, CanonHostPort, Joined, IndexSub, Bracketed, Fold, Atoi, ScpHostColon;
    NumberHasNoSlash(port);
    LiteralHasNoAt(a, port);
    ScpTargetOf(u, Joined(Bracketed(a), ':', port));
    LiteralColon(a, port);
    ScpSplit(Bracketed(a), port);
    RenderedForm([], LiteralPort(a, port));
    RenderedLiteral([], a, port);
  }

  lemma UnclosedSplits(w: Text)
    requires w != [] && w[0] == '[' && ']' !in w && !EndsWithDot(w)
    ensures SplitHostPort(w) == (w, []) && ScpHostColon(w) < 0 && Render([], w, []) == Fold(w)
  {
  }

  /** A literal whose bracket is never closed is kept as it is, with a user in front or without one. */
  lemma TruncatedLiteralKept(u: Text, w: Text)
    requires u != [] && !IsSpace(u[0]) && w != [] && w[0] == '[' && ']' !in w && !EndsWithDot(w)
    requires UrlHost(w) && Trimmed(w) && '/' !in w && IndexSub(Joined(u, '@', w), "://") < 0
    ensures CanonicalHost(w) == Fold(w)
    ensures CanonicalHost(Joined(u, '@', w)) == Fold(w)
  {
    hide CanonicalHost, CanonicalScpHost, CanonicalPlain, Render, SplitHostPort, Joined, IndexSub, Fold, ScpHostColon;
    UnclosedSplits(w);
    TrimIsIdentityOnTrimmed(w);
    ScpWhole(w);
    ScpTargetOf(u, w);
    SlashlessIsPlain(w);
    BracketIsHost(w, w, []);
  }
}
