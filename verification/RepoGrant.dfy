/** Typed repository identities, their printers and their parsers (internal/auth/repoidentity.go). */
module RepoGrant {
  import opened Strings
  import opened Base64
  import opened Host

  const IdentityPrefix: Text := "r1:"
  const AliasPrefix: Text := "a1:"

  /** A parsed grant: a forge-scoped identity, a host-less alias, or the unusable zero value. */
  datatype Grant =
    | Identity(host: Text, full: Text)
    | Alias(full: Text)
    | Invalid

  datatype Parsed = Ok(grant: Grant) | Bad(ambiguous: bool)

  function Normalized(g: Grant): (r: Grant) {
    match g
    case Identity(host, full) => Identity(host, Fold(full))
    case Alias(full) => Alias(Fold(full))
    case Invalid => Invalid
  }

  /** RepoIdentity.ID: the storage spelling "host/full_name". */
  function ID(host: Text, full: Text): (r: Text) {
    if host == [] || full == [] then [] else Joined(host, '/', Fold(full))
  }

  /** RepoGrant.Serialized: the explicit spelling used in token files. */
  function Serialized(g: Grant): (r: Text) {
    match g
    case Identity(host, full) =>
      if host == [] || full == [] then []
      else IdentityPrefix + Joined(Encode(host), ':', Encode(Fold(full)))
    case Alias(full) =>
      if full == [] then []
      else if Count(Fold(full), '/') == 1 then Fold(full)
      else AliasPrefix + Encode(Fold(full))
    case Invalid => []
  }

  predicate ValidHost(host: Text) {
    && host != []
    && (forall i | 0 <= i < |host| ::
          host[i] !in {' ', '\t', '\r', '\n', '/', '?', '#', '@'})
    && (host[0] == '[' ==> Index(host, ']') > 1)
  }

  predicate NameByte(c: Byte) { !(c == ' ' || c == '\t' || c == '\r' || c == '\n' || c == NUL) }

  predicate DoubleSlash(s: Text, i: nat)
    requires i + 1 < |s|
  {
    s[i] == '/' && s[i + 1] == '/'
  }

  /** validateFullName; `Trimmed` is the test TrimSpace(full) == full. */
  predicate ValidFullName(full: Text, requireSlash: bool) {
    && full != [] && Trimmed(full)
    && (forall i | 0 <= i < |full| :: NameByte(full[i]))
    && full[0] != '/' && full[|full| - 1] != '/'
    && (forall i | 0 <= i < |full| - 1 :: !DoubleSlash(full, i))
    && (requireSlash ==> '/' in full)
  }

  /** ParseRepoIdentity: "r1:<base64url(host)>:<base64url(full_name)>". */
  function ParseRepoIdentity(s: Text): (r: Parsed)
    ensures r.Ok? ==> r.grant.Identity?
  {
    if !(IdentityPrefix <= s) then Bad(false)
    else
      var body := s[3..];
      var colon := Index(body, ':');
      if Count(body, ':') != 1 then Bad(false) else ParseParts(body[..colon], body[colon + 1..])
  }

  /** The two parts of an encoded identity. */
  function ParseParts(a: Text, b: Text): (r: Parsed)
    ensures r.Ok? ==> r.grant.Identity?
  {
    if a == [] || b == [] || '=' in a || '=' in b then Bad(false)
    else
      match Decode(a)
      case None => Bad(false)
      case Some(hostBytes) =>
        match Decode(b)
        case None => Bad(false)
        case Some(fullBytes) =>
          var (host, full) := (CanonicalHost(hostBytes), Fold(fullBytes));
          if ValidHost(host) && ValidFullName(full, true) then Ok(Identity(host, full)) else Bad(false)
  }

  /** ParseRepoAlias: "a1:<base64url(full_name)>". */
  function ParseRepoAlias(s: Text): (r: Parsed)
    ensures r.Ok? ==> r.grant.Alias?
  {
    if !(AliasPrefix <= s) || s == AliasPrefix || '=' in s[3..] then Bad(false)
    else
      match Decode(s[3..])
      case None => Bad(false)
      case Some(raw) =>
        if ValidFullName(Fold(raw), false) then Ok(Alias(Fold(raw))) else Bad(false)
  }

  /**
   parseRepoGrant. With `legacy` an untagged string of three or more segments is
   an identity whose first segment is the host; without it such a string is
   refused as ambiguous.
   */
  function ParseRepoGrant(s: Text, legacy: bool): (r: Parsed)
  {
    if s == [] then Bad(false)
    else if IdentityPrefix <= s then ParseRepoIdentity(s)
    else if AliasPrefix <= s then ParseRepoAlias(s)
    else if !ValidFullName(s, false) then Bad(false)
    else
      var slash := Index(s, '/');
      if slash <= 0 || '/' !in s[slash + 1..] then Ok(Alias(Fold(s)))
      else if !legacy then Bad(true)
      else
        var (host, rest) := (CanonicalHost(s[..slash]), s[slash + 1..]);
        if ValidHost(host) && ValidFullName(rest, true) then Ok(Identity(host, Fold(rest))) else Bad(false)
  }

  /** ParseStoredRepoID, the parser behind every authorization decision. */
  function ParseStored(s: Text): (r: Parsed) {
    ParseRepoGrant(s, true)
  }

  /** What every accepted grant looks like: folded, valid, non-empty. */
  predicate WellFormed(g: Grant) {
    match g
    case Identity(host, full) => ValidHost(host) && ValidFullName(full, true) && Fold(full) == full
    case Alias(full) => ValidFullName(full, false) && Fold(full) == full
    case Invalid => false
  }

  lemma FoldKeepsValid(full: Text, requireSlash: bool)
    ensures ValidFullName(Fold(full), requireSlash) <==> ValidFullName(full, requireSlash)
  {
    FoldKeeps(full, '/');
    var f := Fold(full);
    assert forall i | 0 <= i < |full| :: (f[i] == '/' <==> full[i] == '/') && (NameByte(f[i]) <==> NameByte(full[i]));
    assert forall i | 0 <= i < |full| - 1 :: DoubleSlash(f, i) <==> DoubleSlash(full, i);
  }

  /** Everything a parser accepts is well formed, in both modes. */
  lemma ParsedIsWellFormed(s: Text, legacy: bool)
    requires ParseRepoGrant(s, legacy).Ok?
    ensures WellFormed(ParseRepoGrant(s, legacy).grant)
  {
    if !(IdentityPrefix <= s) && !(AliasPrefix <= s) {
      FoldIdempotent(s);
      FoldKeepsValid(s, false);
      var slash := Index(s, '/');
      FoldIdempotent(s[slash + 1..]);
      FoldKeepsValid(s[slash + 1..], true);
    } else {
      FoldsAreFolded();
    }
  }

  /** Nothing blank is accepted. */
  lemma ParsedIsNotBlank(s: Text, legacy: bool)
    requires ParseRepoGrant(s, legacy).Ok?
    ensures TrimSpace(s) != []
  {
    assert s != [] && !IsSpace(s[0]) by {
      hide ParseParts, CanonicalHost, Decode, Fold;
    }
    assert TrimLeft(s) == s;
    TrimRightKeepsFirst(s);
  }

  lemma FoldsAreFolded()
    ensures forall t: Text :: Fold(Fold(t)) == Fold(t)
  {
    forall t: Text ensures Fold(Fold(t)) == Fold(t) {
      FoldIdempotent(t);
    }
  }

  // ---- What is accepted, and what it is read as --------------------------------

  /** The explicit spellings, written out; a value with a part missing has none. */
  lemma SpellingsAre(host: Text, full: Text)
    requires Fold(full) == full
    ensures host == [] || full == [] ==> Serialized(Identity(host, full)) == [] && ID(host, full) == []
    ensures host != [] && full != [] ==>
              && Serialized(Identity(host, full)) == "r1:" + Encode(host) + ":" + Encode(full)
              && ID(host, full) == host + "/" + full
    ensures Serialized(Alias(full)) == if full == [] || Count(full, '/') == 1 then full else "a1:" + Encode(full)
    ensures Serialized(Invalid) == []
  {
    assert IdentityPrefix + Joined(Encode(host), ':', Encode(full)) == "r1:" + Encode(host) + ":" + Encode(full);
  }

  /** The parts of a string between its slashes. */
  function Segments(s: Text): (r: seq<Text>)
    ensures |r| == Count(s, '/') + 1
    decreases |s|
  {
    var i := Index(s, '/');
    if i < 0 then [s] else SegmentsCount(s); [s[..i]] + Segments(s[i + 1..])
  }

  lemma SegmentsCount(s: Text)
    requires '/' in s
    ensures Count(s, '/') == 1 + Count(s[Index(s, '/') + 1..], '/')
  {
    var i := Index(s, '/');
    assert s == s[..i] + (['/'] + s[i + 1..]) && (['/'] + s[i + 1..])[1..] == s[i + 1..];
    CountConcat(s[..i], ['/'] + s[i + 1..], '/');
  }

  predicate CleanSlashes(s: Text) {
    s != [] && s[0] != '/' && s[|s| - 1] != '/' && forall i | 0 <= i < |s| - 1 :: !DoubleSlash(s, i)
  }

  lemma CleanSlashesSplit(s: Text, i: nat)
    requires i < |s| && s[i] == '/' && '/' !in s[..i]
    ensures CleanSlashes(s) <==> i > 0 && CleanSlashes(s[i + 1..])
  {
    var rest := s[i + 1..];
    assert forall j | 0 <= j < i :: s[j] == s[..i][j];
    assert forall j | 0 <= j < |rest| :: rest[j] == s[i + 1 + j];
    if CleanSlashes(s) {
      assert i + 1 < |s| && !DoubleSlash(s, i);
      forall j | 0 <= j < |rest| - 1 ensures !DoubleSlash(rest, j) {
        assert !DoubleSlash(s, i + 1 + j);
      }
    }
    if i > 0 && CleanSlashes(rest) {
      forall j | 0 <= j < |s| - 1 ensures !DoubleSlash(s, j) {
        if j > i {
          assert !DoubleSlash(rest, j - i - 1);
        }
      }
    }
  }

  /** No slash at either end and no two in a row is: no segment is empty. */
  lemma {:induction false} NoEmptySegment(s: Text)
    ensures [] !in Segments(s) <==> CleanSlashes(s)
    decreases |s|
  {
    var i := Index(s, '/');
    if i >= 0 {
      assert Segments(s) == [s[..i]] + Segments(s[i + 1..]);
      hide CleanSlashes, Segments;
      NoEmptySegment(s[i + 1..]);
      assert '/' !in s[..i];
      CleanSlashesSplit(s, i);
    } else {
      assert Segments(s) == [s];
    }
  }

  /**
   A name is valid if and only if none of its segments is empty, it holds no
   space, tab, CR, LF or NUL, no white space at its ends, and a slash where one is
   required.
   */
  lemma ValidNamesAre(full: Text, requireSlash: bool)
    ensures ValidFullName(full, requireSlash) <==>
            && [] !in Segments(full) && TrimSpace(full) == full
            && ' ' !in full && '\t' !in full && '\r' !in full && '\n' !in full && NUL !in full
            && (requireSlash ==> |Segments(full)| > 1)
  {
    NoEmptySegment(full);
    TrimIsIdentityOnTrimmed(full);
    hide Segments, TrimSpace;
    if ' ' !in full && '\t' !in full && '\r' !in full && '\n' !in full && NUL !in full {
      assert forall i | 0 <= i < |full| :: full[i] in full && NameByte(full[i]);
    }
  }

  /** A host is valid if and only if it holds none of the bytes that end one and, bracketed, something in the brackets. */
  lemma ValidHostsAre(host: Text)
    ensures ValidHost(host) <==>
            && host != [] && ' ' !in host && '\t' !in host && '\r' !in host && '\n' !in host
            && '/' !in host && '?' !in host && '#' !in host && '@' !in host
            && ("[" <= host ==> ']' in host && !("[]" <= host))
  {
    if host != [] && host[0] == '[' {
      var i := Index(host, ']');
      assert "[]" <= host <==> |host| > 1 && host[1] == ']';
    }
  }

  /** Strings without a tag: a valid name of one or two segments is a bare name. */
  lemma UntaggedAre(s: Text, legacy: bool)
    requires !Tagged(s)
    ensures !ValidFullName(s, false) ==> ParseRepoGrant(s, legacy) == Bad(false)
    ensures ValidFullName(s, false) && |Segments(s)| <= 2 ==> ParseRepoGrant(s, legacy) == Ok(Alias(Fold(s)))
    ensures ValidFullName(s, false) && |Segments(s)| > 2 && !legacy ==> ParseRepoGrant(s, legacy) == Bad(true)
  {
    hide CanonicalHost, ValidHost, TrimSpace, ParseRepoIdentity, ParseRepoAlias, Fold;
    if ValidFullName(s, false) {
      var slash := Index(s, '/');
      assert slash != 0 && s != [];
      hide ValidFullName;
      FirstSegment(s);
      hide Segments, Count;
    }
  }

  /** One of more segments is, in legacy mode only, an identity whose first segment is the host. */
  lemma LegacyAre(s: Text)
    requires !Tagged(s) && ValidFullName(s, false) && |Segments(s)| > 2
    ensures var (host, rest) := (Segments(s)[0], s[|Segments(s)[0]| + 1..]);
            ParseRepoGrant(s, true) ==
            if ValidHost(CanonicalHost(host)) && TrimSpace(rest) == rest then Ok(Identity(CanonicalHost(host), Fold(rest)))
            else Bad(false)
  {
    hide CanonicalHost, ValidHost, TrimSpace, ParseRepoIdentity, ParseRepoAlias, Fold, Segments, Count, DoubleSlash, NameByte, Trimmed;
    var slash := Index(s, '/');
    assert slash != 0 && s != [];
    hide ValidFullName;
    FirstSegment(s);
    SuffixIsValid(s, slash);
    TrimIsIdentityOnTrimmed(s[slash + 1..]);
  }

  lemma FirstSegment(s: Text)
    ensures '/' !in s ==> |Segments(s)| == 1
    ensures '/' in s ==>
              var slash := Index(s, '/'); Segments(s)[0] == s[..slash] && (|Segments(s)| > 2 <==> '/' in s[slash + 1..])
  {
    CountOne(s, '/');
  }

  /** Behind a slash of a valid name comes a valid name, if it does not begin with white space. */
  lemma SuffixIsValid(s: Text, slash: nat)
    requires ValidFullName(s, false) && slash < |s| && s[slash] == '/' && '/' in s[slash + 1..]
    ensures ValidFullName(s[slash + 1..], true) <==> Trimmed(s[slash + 1..])
  {
    var rest := s[slash + 1..];
    assert rest != [] && !DoubleSlash(s, slash);
    assert forall i | 0 <= i < |rest| :: rest[i] == s[slash + 1 + i] && NameByte(s[slash + 1 + i]);
    assert forall i | 0 <= i < |rest| - 1 :: DoubleSlash(rest, i) <==> DoubleSlash(s, slash + 1 + i);
  }

  // ---- Parsers undo printers ---------------------------------------------------

  predicate Tagged(s: Text) { IdentityPrefix <= s || AliasPrefix <= s }

  /** An encoded part holds neither the separator nor a padding sign nor a slash. */
  lemma EncodedPart(b: Text)
    ensures ':' !in Encode(b) && '=' !in Encode(b) && '/' !in Encode(b)
  {
    assert Value(':') < 0 && Value('=') < 0 && Value('/') < 0;
  }

  lemma ParseJoinedParts(a: Text, b: Text)
    requires ':' !in a && ':' !in b
    ensures ParseRepoIdentity(IdentityPrefix + Joined(a, ':', b)) == ParseParts(a, b)
  {
    hide ParseParts;
    var body := Joined(a, ':', b);
    JoinedSplits(a, ':', b);
    assert (IdentityPrefix + body)[3..] == body;
  }

  /** What either parser makes of a printed identity: the same name, the host canonicalized once more. */
  lemma ParsePrintedIdentity(host: Text, full: Text, legacy: bool)
    requires WellFormed(Identity(host, full))
    ensures ParseRepoGrant(Serialized(Identity(host, full)), legacy) ==
            if ValidHost(CanonicalHost(host)) then Ok(Identity(CanonicalHost(host), full)) else Bad(false)
  {
    var (a, b) := (Encode(host), Encode(full));
    EncodedPart(host);
    EncodedPart(full);
    DecodeUndoesEncode(host);
    DecodeUndoesEncode(full);
    ParseJoinedParts(a, b);
    assert Serialized(Identity(host, full)) == IdentityPrefix + Joined(a, ':', b);
  }

  /**
   Both parsers read a printed identity back exactly when its host is canonically
   spelled; otherwise they refuse it or read a different host.
   */
  lemma IdentityRoundTrip(host: Text, full: Text, legacy: bool)
    requires WellFormed(Identity(host, full))
    ensures ParseRepoGrant(Serialized(Identity(host, full)), legacy) == Ok(Identity(host, full))
            <==> CanonicalSpelling(host)
  {
    ParsePrintedIdentity(host, full, legacy);
    FixedPointsAreCanonicalSpellings(host);
  }

  /** Apart from line breaks, a tagged string holding a byte outside the alphabet is refused. */
  lemma TaggedForeignRejected(s: Text, c: Byte, legacy: bool)
    requires Tagged(s) && c in s[3..] && Value(c) < 0 && c !in {'\r', '\n', ':'}
    ensures ParseRepoGrant(s, legacy).Bad?
  {
    hide Decode, CanonicalHost, ValidHost, ValidFullName, Fold;
    var body := s[3..];
    if IdentityPrefix <= s {
      var colon := Index(body, ':');
      if Count(body, ':') == 1 {
        assert body == body[..colon] + [':'] + body[colon + 1..];
        if c in body[..colon] {
          ForeignByteRejected(body[..colon], c);
        } else {
          ForeignByteRejected(body[colon + 1..], c);
        }
      }
    } else {
      ForeignByteRejected(body, c);
    }
  }

  /** A slash is outside the alphabet, so no tagged string holding one is accepted. */
  lemma TaggedSlashRejected(s: Text)
    requires Tagged(s) && '/' in s
    ensures ParseRepoGrant(s, true).Bad? && ParseRepoGrant(s, false).Bad?
  {
    assert '/' in s[3..] by {
      var i :| 0 <= i < |s| && s[i] == '/';
      assert i >= 3 && s[3..][i - 3] == '/';
    }
    TaggedForeignRejected(s, '/', true);
    TaggedForeignRejected(s, '/', false);
  }

  // ---- White space in encoded parts --------------------------------------------

  lemma AliasIgnoresNewlines(s: Text)
    ensures ParseRepoAlias(AliasPrefix + s) == ParseRepoAlias(AliasPrefix + DropNewlines(s))
  {
    hide ValidHost, CanonicalHost;
    var t := DropNewlines(s);
    assert (AliasPrefix + s)[3..] == s && (AliasPrefix + t)[3..] == t;
    DropNewlinesKeeps(s, '=');
    DropNewlinesTwice(s);
  }

  lemma PartsIgnoreNewlines(a: Text, b: Text)
    ensures ParseParts(a, b) == ParseParts(DropNewlines(a), DropNewlines(b))
  {
    assert !ValidHost(CanonicalHost([])) && !ValidFullName(Fold([]), true) && Decode([]) == Some([]);
    DropNewlinesTwice(a);
    DropNewlinesTwice(b);
    hide ValidHost, CanonicalHost, ValidFullName, Fold, DropNewlines, DecodeSymbols;
    DropNewlinesKeeps(a, '=');
    DropNewlinesKeeps(b, '=');
  }

  lemma WrongColonsRejected(s: Text)
    requires Count(s, ':') != 1
    ensures ParseRepoIdentity(IdentityPrefix + s) == Bad(false)
  {
    hide ParseParts;
    assert (IdentityPrefix + s)[3..] == s;
  }

  lemma IdentityIgnoresNewlines(s: Text)
    ensures ParseRepoIdentity(IdentityPrefix + s) == ParseRepoIdentity(IdentityPrefix + DropNewlines(s))
  {
    hide ParseRepoIdentity, ParseParts, DropNewlines, Count;
    DropNewlinesKeeps(s, ':');
    if Count(s, ':') == 1 {
      var i := Index(s, ':');
      CountOne(s, ':');
      var (a, b) := (s[..i], s[i + 1..]);
      assert s == Joined(a, ':', b);
      DropNewlinesJoined(a, ':', b);
      DropNewlinesKeeps(a, ':');
      DropNewlinesKeeps(b, ':');
      ParseJoinedParts(a, b);
      ParseJoinedParts(DropNewlines(a), DropNewlines(b));
      PartsIgnoreNewlines(a, b);
    } else {
      WrongColonsRejected(s);
      WrongColonsRejected(DropNewlines(s));
    }
  }

  /** A tagged string is read as if it held no line breaks, whatever it is. */
  lemma NewlinesIgnored(tag: Text, s: Text, legacy: bool)
    requires tag == IdentityPrefix || tag == AliasPrefix
    ensures ParseRepoGrant(tag + s, legacy) == ParseRepoGrant(tag + DropNewlines(s), legacy)
  {
    hide ParseRepoIdentity, ParseRepoAlias, ValidFullName, CanonicalHost, DropNewlines;
    assert (tag + s)[0] == (tag + DropNewlines(s))[0] == tag[0];
    if tag == AliasPrefix {
      AliasIgnoresNewlines(s);
    } else {
      IdentityIgnoresNewlines(s);
    }
  }

  /**
   The exact condition under which a tagged string holding white space is accepted:
   all of it is CR or LF, and the string without it is accepted.
   */
  lemma WhiteSpaceAcceptedExactlyWhen(tag: Text, s: Text, legacy: bool)
    requires tag == IdentityPrefix || tag == AliasPrefix
    requires exists c :: c in s && IsSpace(c)
    ensures ParseRepoGrant(tag + s, legacy).Ok? <==>
            (forall c | c in s && IsSpace(c) :: c == '\r' || c == '\n') && ParseRepoGrant(tag + DropNewlines(s), legacy).Ok?
  {
    hide ParseRepoGrant, DropNewlines;
    NewlinesIgnored(tag, s, legacy);
    if c :| c in s && IsSpace(c) && c != '\r' && c != '\n' {
      assert (tag + s)[..3] == tag && (tag + s)[3..] == s;
      TaggedForeignRejected(tag + s, c, legacy);
    }
  }

  /** Every printed alias is still read when a line break is put anywhere into its encoded part. */
  lemma BrokenAliasAccepted(full: Text, i: nat, legacy: bool)
    requires WellFormed(Alias(full)) && i <= |Encode(full)|
    ensures ParseRepoGrant(AliasPrefix + (Encode(full)[..i] + "\n" + Encode(full)[i..]), legacy) == Ok(Alias(full))
  {
    hide ParseRepoGrant, DropNewlines;
    var e := Encode(full);
    DropNewlinesBroken(e, i);
    NoNewlinesToDrop(e);
    NewlinesIgnored(AliasPrefix, e[..i] + "\n" + e[i..], legacy);
    ParseEncodedAlias(full, legacy);
  }

  /** The name x with a line break between its two symbols. */
  lemma BrokenAliasOfX()
    ensures ParseRepoGrant("a1:e\nA", false) == Ok(Alias("x"))
  {
    var e := Encode("x");
    assert e == "eA";
    assert e[..1] == "e" && e[1..] == "A" && AliasPrefix + ("e" + "\n" + "A") == "a1:e\nA";
    assert Fold("x") == "x";
    BrokenAliasAccepted("x", 1, false);
  }

  lemma ParsePlainAlias(full: Text, legacy: bool)
    requires WellFormed(Alias(full)) && Count(full, '/') == 1 && !Tagged(full)
    ensures ParseRepoGrant(full, legacy) == Ok(Alias(full))
  {
    CountOne(full, '/');
  }

  lemma ParseEncodedAlias(full: Text, legacy: bool)
    requires WellFormed(Alias(full))
    ensures ParseRepoGrant(AliasPrefix + Encode(full), legacy) == Ok(Alias(full))
  {
    var s := AliasPrefix + Encode(full);
    assert s[3..] == Encode(full) && s[0] == 'a';
    EncodedPart(full);
    DecodeUndoesEncode(full);
  }

  /**
   Both parsers read a printed alias back exactly when the plain owner/name
   spelling, if that is the one used, does not look like a tagged grant.
   */
  lemma AliasRoundTrip(full: Text, legacy: bool)
    requires WellFormed(Alias(full))
    ensures ParseRepoGrant(Serialized(Alias(full)), legacy) == Ok(Alias(full))
            <==> !(Count(full, '/') == 1 && Tagged(full))
  {
    if Count(full, '/') != 1 {
      ParseEncodedAlias(full, legacy);
    } else if Tagged(full) {
      TaggedSlashRejected(full);
    } else {
      ParsePlainAlias(full, legacy);
    }
  }

  /** The condition under which printing and parsing a grant loses nothing. */
  predicate Stable(g: Grant) {
    match g
    case Identity(host, full) => CanonicalSpelling(host)
    case Alias(full) => Count(full, '/') == 1 ==> !Tagged(full)
    case Invalid => false
  }

  lemma GrantRoundTrip(g: Grant, legacy: bool)
    requires WellFormed(g)
    ensures ParseRepoGrant(Serialized(g), legacy) == Ok(g) <==> Stable(g)
    ensures Serialized(g) != []
  {
    match g
    case Identity(host, full) => IdentityRoundTrip(host, full, legacy);
    case Alias(full) => AliasRoundTrip(full, legacy);
  }

  /** Which of the three spellings a string is, read off its slash and its tag. */
  lemma SpellingShape(g: Grant)
    requires WellFormed(g)
    ensures Serialized(g) != []
    ensures g.Identity? ==> '/' !in Serialized(g) && Serialized(g)[0] == IdentityPrefix[0]
    ensures g.Alias? && Count(g.full, '/') != 1 ==> '/' !in Serialized(g) && Serialized(g)[0] == AliasPrefix[0]
    ensures g.Alias? && Count(g.full, '/') == 1 ==> '/' in Serialized(g)
  {
    match g
    case Identity(host, full) =>
      EncodedPart(host);
      EncodedPart(full);
    case Alias(full) =>
      EncodedPart(full);
  }

  lemma JoinedPartsInjective(a: Text, b: Text, c: Text, d: Text)
    requires ':' !in a && ':' !in b && ':' !in c && ':' !in d && a != [] && b != [] && c != [] && d != []
    requires Joined(a, ':', b) == Joined(c, ':', d)
    ensures a == c && b == d
  {
    JoinedSplits(a, ':', b);
    JoinedSplits(c, ':', d);
  }

  lemma IdentityInjective(g: Grant, h: Grant)
    requires WellFormed(g) && WellFormed(h) && g.Identity? && h.Identity? && Serialized(g) == Serialized(h)
    ensures g == h
  {
    var (a, b) := (Encode(g.host), Encode(g.full));
    var (c, d) := (Encode(h.host), Encode(h.full));
    assert Joined(a, ':', b) == Joined(c, ':', d) by {
      assert Serialized(g)[3..] == Joined(a, ':', b) && Serialized(h)[3..] == Joined(c, ':', d);
    }
    assert a == c && b == d by {
      EncodedPart(g.host);
      EncodedPart(g.full);
      EncodedPart(h.host);
      EncodedPart(h.full);
      JoinedPartsInjective(a, b, c, d);
    }
    EncodeInjective(g.host, h.host);
    EncodeInjective(g.full, h.full);
  }

  lemma OpaqueAliasInjective(g: Grant, h: Grant)
    requires WellFormed(g) && WellFormed(h) && g.Alias? && h.Alias?
    requires Count(g.full, '/') != 1 && Count(h.full, '/') != 1
    requires Serialized(g) == Serialized(h)
    ensures g == h
  {
    assert Serialized(g)[3..] == Encode(g.full) && Serialized(h)[3..] == Encode(h.full);
    EncodeInjective(g.full, h.full);
  }

  /** No two grants share a serialized form. */
  lemma SerializedInjective(g: Grant, h: Grant)
    requires WellFormed(g) && WellFormed(h)
    ensures Serialized(g) == Serialized(h) ==> g == h
  {
    SpellingShape(g);
    SpellingShape(h);
    if Serialized(g) == Serialized(h) {
      if g.Identity? && h.Identity? {
        IdentityInjective(g, h);
      } else if g.Alias? && h.Alias? && Count(g.full, '/') != 1 && Count(h.full, '/') != 1 {
        OpaqueAliasInjective(g, h);
      }
    }
  }

  /** A host holds no slash, so the storage spelling determines the identity. */
  lemma IDInjective(g: Grant, h: Grant)
    requires WellFormed(g) && WellFormed(h) && g.Identity? && h.Identity?
    requires ID(g.host, g.full) == ID(h.host, h.full)
    ensures g == h
  {
    assert '/' !in g.host && '/' !in h.host;
    JoinedSplits(g.host, '/', g.full);
    JoinedSplits(h.host, '/', h.full);
  }

  /** ParseStoredRepoID and ParseRepoGrantConfig keep what they parsed; the answers are the parser's all the same. */
  class MemoParser {
    const legacy: bool
    var parsed: map<Text, Parsed>

    ghost predicate Valid()
      reads this
    {
      forall s | s in parsed :: parsed[s] == ParseRepoGrant(s, legacy)
    }

    constructor (legacy: bool)
      ensures Valid() && this.legacy == legacy
    {
      this.legacy, parsed := legacy, map[];
    }

    method Parse(s: Text) returns (r: Parsed)
      requires Valid()
      modifies this
      ensures Valid() && r == ParseRepoGrant(s, legacy) && parsed == old(parsed)[s := r]
    {
      if s in parsed {
        return parsed[s];
      }
      r := ParseRepoGrant(s, legacy);
      parsed := parsed[s := r];
    }
  }
}
