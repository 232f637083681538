/** Storage spellings and their canonicalization (internal/auth/host.go, rbac.go, repoidentity.go). */
module RepoKeys {
  import opened Strings
  import opened Base64
  import opened Host
  import opened RepoGrant
  import HostForms

  // ---- The storage spelling -----------------------------------------------------------------

  /** The host and the name of a storage spelling are separated by its first slash. */
  lemma IDSplitsAtFirstSlash(host: Text, full: Text)
    requires WellFormed(Identity(host, full))
    ensures var id := ID(host, full);
            && id == Joined(host, '/', full) && Index(id, '/') == |host| && '/' in id
            && id[..|host|] == host && id[|host| + 1..] == full
  {
    assert '/' !in host;
    JoinedSplits(host, '/', full);
  }

  lemma IDIsValidName(host: Text, full: Text)
    requires WellFormed(Identity(host, full))
    ensures ValidFullName(ID(host, full), false) <==> NUL !in host && !IsSpace(host[0])
  {
    var id := ID(host, full);
    assert forall i | 0 <= i < |id| ::
        id[i] == (if i < |host| then host[i] else if i == |host| then '/' else full[i - |host| - 1]);
    forall i | 0 <= i < |id| - 1 ensures !DoubleSlash(id, i) {
      if i > |host| {
        assert !DoubleSlash(full, i - |host| - 1);
      }
    }
    if NUL in host {
      var i :| 0 <= i < |host| && host[i] == NUL;
      assert id[i] == NUL;
    }
  }

  lemma IDTag(host: Text, full: Text)
    requires WellFormed(Identity(host, full))
    ensures Tagged(ID(host, full)) <==> Tagged(host)
  {
    hide WellFormed, ID;
    IDSplitsAtFirstSlash(host, full);
    var id := ID(host, full);
    if |host| < 3 {
      assert id[|host|] == '/';
    } else {
      assert id[..3] == host[..3];
    }
  }

  /** Hosts whose storage spelling the parser can split again. */
  predicate Readable(host: Text)
    requires host != []
  {
    !Tagged(host) && NUL !in host && !IsSpace(host[0])
  }

  /** What the storage spelling of an identity is read back as. */
  lemma ParsePrintedID(host: Text, full: Text)
    requires WellFormed(Identity(host, full))
    ensures Readable(host) && ValidHost(CanonicalHost(host)) ==>
              ParseStored(ID(host, full)) == Ok(Identity(CanonicalHost(host), full))
    ensures !Readable(host) || !ValidHost(CanonicalHost(host)) ==> ParseStored(ID(host, full)).Bad?
  {
    IDSplitsAtFirstSlash(host, full);
    IDIsValidName(host, full);
    IDTag(host, full);
    if Tagged(host) {
      TaggedSlashRejected(ID(host, full));
    }
  }

  /**
   ParseStoredRepoID reads RepoIdentity.ID back exactly when the host is
   canonically spelled, does not look like a tag and holds no NUL byte.
   */
  lemma StoredIDRoundTrip(host: Text, full: Text)
    requires WellFormed(Identity(host, full))
    ensures ParseStored(ID(host, full)) == Ok(Identity(host, full))
            <==> CanonicalSpelling(host) && !Tagged(host) && NUL !in host
  {
    ParsePrintedID(host, full);
    FixedPointsAreCanonicalSpellings(host);
  }

  function NormalizeRepoKey(key: Text): (r: Text) {
    if !Trimmed(key) then key
    else
      match ParseStored(key)
      case Ok(Identity(host, full)) => ID(host, full)
      case _ => key
  }

  /** An identity, however it is spelled, becomes "host/name"; bare names, and whatever is no key, stay as they are. */
  lemma NormalizedKeysAre(key: Text)
    ensures TrimSpace(key) == key && ParseStored(key).Ok? && ParseStored(key).grant.Identity? ==>
              NormalizeRepoKey(key) == ParseStored(key).grant.host + "/" + ParseStored(key).grant.full
    ensures TrimSpace(key) != key || ParseStored(key).Bad? || !ParseStored(key).grant.Identity? ==> NormalizeRepoKey(key) == key
  {
    hide ParseRepoGrant, TrimSpace;
    TrimIsIdentityOnTrimmed(key);
    if ParseStored(key).Ok? {
      ParsedIsWellFormed(key, true);
    }
  }

  lemma IDEndsLikeItsParts(host: Text, full: Text)
    requires WellFormed(Identity(host, full))
    ensures Trimmed(ID(host, full)) <==> !IsSpace(host[0])
  {
    hide Index;
    assert ID(host, full) == Joined(host, '/', full);
  }

  lemma RenormalizedID(host: Text, full: Text)
    requires WellFormed(Identity(host, full))
    ensures NormalizeRepoKey(ID(host, full)) != ID(host, full) ==>
              Readable(host) && ValidHost(CanonicalHost(host)) && CanonicalHost(host) != host
    ensures Readable(host) && ValidHost(CanonicalHost(host)) && CanonicalHost(host) != host ==>
              NormalizeRepoKey(ID(host, full)) != ID(host, full)
  {
    hide CanonicalHost, ParseRepoGrant;
    IDEndsLikeItsParts(host, full);
    ParsePrintedID(host, full);
    var again := CanonicalHost(host);
    if ValidHost(again) && ID(again, full) == ID(host, full) {
      IDInjective(Identity(again, full), Identity(host, full));
    }
  }

  /**
   Normalizing a repository key twice is normalizing it once, unless the key's
   host is not canonically spelled and its storage spelling is still readable:
   then the second pass moves the key to another host.
   */
  lemma NormalizeRepoKeyIdempotent(key: Text)
    ensures NormalizeRepoKey(NormalizeRepoKey(key)) == NormalizeRepoKey(key)
            <==> !(&& Trimmed(key) && ParseStored(key).Ok? && ParseStored(key).grant.Identity?
                   && var host := ParseStored(key).grant.host;
                      host != [] && !CanonicalSpelling(host) && Readable(host) && ValidHost(CanonicalHost(host)))
  {
    if Trimmed(key) && ParseStored(key).Ok? && ParseStored(key).grant.Identity? {
      var g := ParseStored(key).grant;
      ParsedIsWellFormed(key, true);
      RenormalizedID(g.host, g.full);
      FixedPointsAreCanonicalSpellings(g.host);
    }
  }

  /** Keys over the hosts CanonicalHost is written for are normalized once and for all. */
  lemma NormalizeSettles(key: Text, raw: Text, f: HostForms.Form)
    requires HostForms.InDomain(raw, f)
    requires ParseStored(key).Ok? && ParseStored(key).grant.Identity? ==> ParseStored(key).grant.host == CanonicalHost(raw)
    ensures NormalizeRepoKey(NormalizeRepoKey(key)) == NormalizeRepoKey(key)
  {
    hide ParseRepoGrant, CanonicalHost, NormalizeRepoKey, HostForms.InDomain, CanonicalSpelling;
    HostForms.CanonicalHostIdempotent(raw, f);
    NormalizeRepoKeyIdempotent(key);
  }

  // ---- CanonicalRepoID ------------------------------------------------------------------------

  /** One leading segment goes only when it spells the known host and an owner/name follows. */
  function DropHostSegment(host: Text, full: Text): (r: Text) {
    var slash := Index(full, '/');
    if host != [] && slash > 0 && CanonicalHost(full[..slash]) == host && '/' in full[slash + 1..]
    then full[slash + 1..] else full
  }

  /** canonicalRepoParts, given the canonical host. */
  function CanonicalFullName(host: Text, fullName: Text): (r: Text) {
    DropHostSegment(host, Fold(TrimSpace(fullName)))
  }

  function CanonicalRepoID(forgeHost: Text, fullName: Text): (r: Text) {
    var host := CanonicalHost(forgeHost);
    var full := CanonicalFullName(host, fullName);
    if full == [] then [] else if host == [] then full else Joined(host, '/', full)
  }

  /**
   The identity of a repository: nothing without a name; the name without a host;
   otherwise "host/name", where a first segment that names the same host is not
   repeated when an owner and a name follow it.
   */
  lemma CanonicalRepoIDIs(forgeHost: Text, fullName: Text, first: Text, rest: Text)
    requires '/' !in first
    ensures var (host, full) := (CanonicalHost(forgeHost), Fold(TrimSpace(fullName)));
            && (full == [] ==> CanonicalRepoID(forgeHost, fullName) == [])
            && (host == [] ==> CanonicalRepoID(forgeHost, fullName) == full)
            && (full != [] && '/' !in full && host != [] ==> CanonicalRepoID(forgeHost, fullName) == host + "/" + full)
            && (host != [] && full == first + "/" + rest ==>
                  CanonicalRepoID(forgeHost, fullName) ==
                  if first != [] && CanonicalHost(first) == host && '/' in rest then host + "/" + rest else host + "/" + full)
  {
    hide CanonicalHost, TrimSpace, Fold;
    var (host, full) := (CanonicalHost(forgeHost), Fold(TrimSpace(fullName)));
    if full == first + "/" + rest {
      assert full == Joined(first, '/', rest);
      JoinedSplits(first, '/', rest);
      hide Index;
    }
  }

  lemma SuffixIsClean(full: Text, n: nat)
    requires Fold(full) == full && n <= |full| && (full != [] ==> !IsSpace(full[|full| - 1]))
    ensures Fold(full[n..]) == full[n..]
    ensures n < |full| ==> !IsSpace(full[n..][|full| - n - 1])
  {
    assert forall i | n <= i < |full| :: full[i] == Fold(full)[i];
  }

  lemma DropHostSegmentIsClean(host: Text, full: Text)
    requires Fold(full) == full && Trimmed(full)
    ensures var r := DropHostSegment(host, full); Fold(r) == r && (r != [] ==> !IsSpace(r[|r| - 1]))
    ensures host == [] ==> DropHostSegment(host, full) == full
  {
    hide CanonicalHost;
    if '/' in full {
      SuffixIsClean(full, Index(full, '/') + 1);
    }
    hide Fold;
  }

  lemma CanonicalFullNameIsClean(host: Text, fullName: Text)
    ensures var full := CanonicalFullName(host, fullName);
            Fold(full) == full && (full != [] ==> !IsSpace(full[|full| - 1]))
    ensures host == [] ==> Trimmed(CanonicalFullName(host, fullName))
  {
    hide DropHostSegment;
    TrimIsIdentityOnTrimmed(fullName);
    FoldIdempotent(TrimSpace(fullName));
    DropHostSegmentIsClean(host, Fold(TrimSpace(fullName)));
  }

  lemma DropsItsOwnHost(host: Text, full: Text)
    requires host != [] && '/' !in host && CanonicalHost(host) == host
    ensures DropHostSegment(host, Joined(host, '/', full)) == if '/' in full then full else Joined(host, '/', full)
  {
    hide CanonicalHost;
    JoinedSplits(host, '/', full);
    hide Joined;
  }

  /** Re-canonicalizing "host/full" with the same, canonically spelled host. */
  lemma CanonicalizedAgain(host: Text, full: Text)
    requires CanonicalSpelling(host) && host != [] && full != [] && Fold(full) == full && !IsSpace(full[|full| - 1])
    ensures CanonicalFullName(host, Joined(host, '/', full)) == if '/' in full then full else Joined(host, '/', full)
  {
    assert '/' !in host by {
      assert NoDelimiter(host);
    }
    hide DropHostSegment, CanonicalHost, Joined;
    TrimIsIdentityOnTrimmed(Joined(host, '/', full));
    FoldJoined(host, '/', full);
    FixedPointsAreCanonicalSpellings(host);
    DropsItsOwnHost(host, full);
  }

  /** The host/full spelling loses just its own host to a second round only if that host is canonically spelled. */
  lemma SecondRoundOverOddHost(host: Text, full: Text)
    requires host != [] && full != [] && Fold(full) == full && !IsSpace(full[|full| - 1]) && !CanonicalSpelling(host)
    ensures CanonicalFullName(host, Joined(host, '/', full)) != full
  {
    var u := TrimLeft(host);
    TrimmedID(host, full);
    FoldJoined(u, '/', full);
    FoldIdempotent(u);
    hide Fold, TrimSpace, TrimLeft, CanonicalSpelling;
    OddHostStays(host, Fold(u), full);
  }

  lemma TrimmedID(host: Text, full: Text)
    requires full != [] && !IsSpace(full[|full| - 1])
    ensures TrimSpace(Joined(host, '/', full)) == Joined(TrimLeft(host), '/', full)
  {
    var tail := ['/'] + full;
    assert Joined(host, '/', full) == host + tail && Joined(TrimLeft(host), '/', full) == TrimLeft(host) + tail;
    hide TrimSpace, TrimLeft;
    TrimStopsAt(host, tail);
  }

  lemma OddHostStays(host: Text, u: Text, full: Text)
    requires |u| <= |host| && Fold(u) == u && !CanonicalSpelling(host)
    ensures DropHostSegment(host, Joined(u, '/', full)) != full
  {
    var t := Joined(u, '/', full);
    hide CanonicalHost, CanonicalSpelling, Fold;
    var slash := Index(t, '/');
    if host != [] && slash > 0 && CanonicalHost(t[..slash]) == host && '/' in t[slash + 1..] && t[slash + 1..] == full {
      JoinedSplits(u, '/', full);
      OnlyItselfCanonicalizesTo(u, host);
    }
  }

  lemma OnlyItselfCanonicalizesTo(first: Text, host: Text)
    requires CanonicalHost(first) == host && |first| <= |host| && Fold(first) == first
    ensures CanonicalSpelling(host)
  {
    assert |host| <= |first| by {
      TrimIsIdentityOnTrimmed(first);
    }
    hide CanonicalHost, CanonicalSpelling;
    LengthKeptIsFolded(first);
    FixedPointsAreCanonicalSpellings(host);
  }

  /**
   CanonicalRepoID applied to its own output with the same forge host changes
   nothing exactly when the name it found has an owner segment and the host is
   canonically spelled (or there is no name, or no host to prepend).
   */
  lemma CanonicalRepoIDIdempotent(forgeHost: Text, fullName: Text)
    ensures var host := CanonicalHost(forgeHost);
            var full := CanonicalFullName(host, fullName);
            var id := CanonicalRepoID(forgeHost, fullName);
            CanonicalRepoID(forgeHost, id) == id <==> host == [] || full == [] || ('/' in full && CanonicalSpelling(host))
  {
    var host := CanonicalHost(forgeHost);
    var full := CanonicalFullName(host, fullName);
    CanonicalFullNameIsClean(host, fullName);
    if full == [] {
      assert CanonicalFullName(host, []) == [];
    } else if host == [] {
      TrimIsIdentityOnTrimmed(full);
    } else {
      hide CanonicalFullName, CanonicalSpelling;
      var id := Joined(host, '/', full);
      var again := CanonicalFullName(host, id);
      if CanonicalSpelling(host) {
        CanonicalizedAgain(host, full);
      } else {
        SecondRoundOverOddHost(host, full);
      }
      assert again != full ==> again == [] || Joined(host, '/', again) != id by {
        JoinedSplits(host, '/', full);
        JoinedSplits(host, '/', again);
      }
    }
  }

  /** Over those hosts CanonicalRepoID is idempotent exactly on names with an owner. */
  lemma CanonicalRepoIDSettles(forgeHost: Text, fullName: Text, f: HostForms.Form)
    requires HostForms.InDomain(forgeHost, f)
    ensures var host := CanonicalHost(forgeHost);
            var full := CanonicalFullName(host, fullName);
            var id := CanonicalRepoID(forgeHost, fullName);
            CanonicalRepoID(forgeHost, id) == id <==> host == [] || full == [] || '/' in full
  {
    hide CanonicalHost, CanonicalRepoID, CanonicalFullName, HostForms.InDomain, CanonicalSpelling;
    HostForms.CanonicalHostIdempotent(forgeHost, f);
    CanonicalRepoIDIdempotent(forgeHost, fullName);
  }
}
