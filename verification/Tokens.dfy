/** The token store and its subject index (internal/auth/token.go). */
module Tokens {
  import opened Strings
  import opened Base64
  import opened RepoGrant
  import opened Rbac
  import opened Decisions
  import opened SaveKeys

  // ---- Effective equality --------------------------------------------------------------------

  function RoleSet(roles: seq<Role>): (r: set<Role>) {
    set x | x in roles
  }

  /** The same keys and values, as the code tests it: as many keys, and every key of `a` in `b`. */
  predicate SameEntries<T(==)>(a: map<Text, T>, b: map<Text, T>) {
    |a| == |b| && forall k | k in a :: k in b && b[k] == a[k]
  }

  predicate SameCapabilityEntries(a: map<Text, seq<Capability>>, b: map<Text, seq<Capability>>) {
    |a| == |b| && forall k | k in a :: k in b && SameCapabilities(a[k], b[k])
  }

  /** effectivePrincipalEqual. */
  predicate EffectivelyEqual(a: Principal, b: Principal) {
    && a.subject == b.subject && RoleSet(a.roles) == RoleSet(b.roles)
    && SameEntries(a.repositories, b.repositories)
    && SameCapabilities(a.capabilities, b.capabilities)
    && SameCapabilityEntries(a.repositoryCapabilities, b.repositoryCapabilities)
  }

  /** The security identity of a principal: what remains when order and repetition are forgotten. */
  datatype Identified = Identified(subject: Text, roles: set<Role>, repositories: map<Text, Permission>,
                                   capabilities: set<Capability>, repositoryCapabilities: map<Text, set<Capability>>)

  function Effective(p: Principal): (r: Identified) {
    Identified(p.subject, RoleSet(p.roles), p.repositories, CapabilitySet(p.capabilities),
               map k | k in p.repositoryCapabilities :: CapabilitySet(p.repositoryCapabilities[k]))
  }

  lemma {:induction false} SubsetOfSameSize<T>(a: set<T>, b: set<T>)
    requires a <= b && |a| == |b|
    ensures a == b
    decreases a
  {
    if a == {} {
    } else {
      var x :| x in a;
      SubsetOfSameSize(a - {x}, b - {x});
    }
  }

  lemma SameKeys<T, U>(a: map<Text, T>, b: map<Text, U>)
    requires |a| == |b| && forall k | k in a :: k in b
    ensures a.Keys == b.Keys
  {
    SubsetOfSameSize(a.Keys, b.Keys);
  }

  /** Effective equality is equality of security identities, so it is an equivalence. */
  lemma EffectiveEquality(a: Principal, b: Principal)
    ensures EffectivelyEqual(a, b) <==> Effective(a) == Effective(b)
  {
    if EffectivelyEqual(a, b) {
      SameKeys(a.repositories, b.repositories);
      SameKeys(a.repositoryCapabilities, b.repositoryCapabilities);
    }
    if Effective(a) == Effective(b) {
      var (x, y) := (Effective(a).repositoryCapabilities, Effective(b).repositoryCapabilities);
      assert x.Keys == a.repositoryCapabilities.Keys && y.Keys == b.repositoryCapabilities.Keys;
      forall k | k in a.repositoryCapabilities
        ensures k in b.repositoryCapabilities && SameCapabilities(a.repositoryCapabilities[k], b.repositoryCapabilities[k])
      {
        assert k in x && x[k] == y[k];
      }
      assert |a.repositoryCapabilities| == |x| && |b.repositoryCapabilities| == |y|;
    }
  }

  /**
   Two principals are equal if and only if they have the same subject, the same
   permissions and, order and repetition apart, the same roles and capabilities.
   */
  lemma EqualExactlyWhen(a: Principal, b: Principal)
    ensures EffectivelyEqual(a, b) <==>
            && a.subject == b.subject && a.repositories == b.repositories
            && (forall r :: r in a.roles <==> r in b.roles) && (forall c :: c in a.capabilities <==> c in b.capabilities)
            && a.repositoryCapabilities.Keys == b.repositoryCapabilities.Keys
            && forall k, c | k in a.repositoryCapabilities :: c in a.repositoryCapabilities[k] <==> c in b.repositoryCapabilities[k]
  {
    EffectiveEquality(a, b);
    hide EffectivelyEqual;
    var (x, y) := (a.repositoryCapabilities, b.repositoryCapabilities);
    assert RoleSet(a.roles) == RoleSet(b.roles) <==> forall r :: r in a.roles <==> r in b.roles by {
      assert forall r :: (r in RoleSet(a.roles) <==> r in a.roles) && (r in RoleSet(b.roles) <==> r in b.roles);
    }
    SameListsPerKey(x, y);
  }

  lemma SameListsPerKey(x: map<Text, seq<Capability>>, y: map<Text, seq<Capability>>)
    ensures (map k | k in x :: CapabilitySet(x[k])) == (map k | k in y :: CapabilitySet(y[k])) <==>
            x.Keys == y.Keys && forall k, c | k in x :: c in x[k] <==> c in y[k]
  {
    var (m, n) := (map k | k in x :: CapabilitySet(x[k]), map k | k in y :: CapabilitySet(y[k]));
    assert m.Keys == x.Keys && n.Keys == y.Keys;
    if m == n {
      forall k, c | k in x ensures c in x[k] <==> c in y[k] {
        assert k in m && m[k] == n[k];
      }
    }
    if x.Keys == y.Keys && forall k, c | k in x :: c in x[k] <==> c in y[k] {
      forall k | k in m ensures m[k] == n[k] {
      }
    }
  }

  // ---- The store ---------------------------------------------------------------------------------

  type Digest = Text
  type TokenMap = map<Digest, Principal>

  function DigestsOf(tokens: TokenMap, subject: Text): (r: set<Digest>) {
    set d | d in tokens && tokens[d].subject == subject
  }

  /** All tokens of one subject carry the same security identity. */
  ghost predicate Agree(tokens: TokenMap, subject: Text) {
    forall d, e | d in DigestsOf(tokens, subject) && e in DigestsOf(tokens, subject) :: Effective(tokens[d]) == Effective(tokens[e])
  }

  ghost predicate Consistent(tokens: TokenMap) {
    forall subject :: subject != [] ==> Agree(tokens, subject)
  }

  /** What a scan of all tokens would resolve the subject to. */
  ghost predicate ScanFinds(tokens: TokenMap, subject: Text, p: Principal) {
    && subject != [] && (exists d :: d in DigestsOf(tokens, subject) && tokens[d] == p)
    && (forall d | d in DigestsOf(tokens, subject) :: Effective(tokens[d]) == Effective(p))
  }

  /** A subject's index entry is right: its principal is one of the tokens', its digests are all of them. */
  ghost predicate EntrySound(tokens: TokenMap, subject: Text, p: Principal, digests: set<Digest>) {
    digests == DigestsOf(tokens, subject) && ScanFinds(tokens, subject, p)
  }

  ghost predicate IndexSound(tokens: TokenMap, bySubject: map<Text, Principal>, subjectDigests: map<Text, set<Digest>>) {
    forall s | s in bySubject :: s in subjectDigests && EntrySound(tokens, s, bySubject[s], subjectDigests[s])
  }

  /** Every subject a token carries is indexed. */
  ghost predicate IndexComplete(tokens: TokenMap, bySubject: map<Text, Principal>) {
    forall d | d in tokens && tokens[d].subject != [] :: tokens[d].subject in bySubject
  }

  predicate KnownCapabilities(p: Principal) {
    && (forall c | c in p.capabilities :: c in KNOWN_CAPABILITIES)
    && (forall k | k in p.repositoryCapabilities :: forall c | c in p.repositoryCapabilities[k] :: c in KNOWN_CAPABILITIES)
  }

  /** `first` and `digests` sum up the tokens of the subject that are not in `todo`. */
  ghost predicate Collected(tokens: TokenMap, subject: Text, todo: TokenMap, first: Option<Principal>, digests: set<Digest>) {
    && (forall d :: d in digests <==> d in tokens && d !in todo && tokens[d].subject == subject)
    && (first.None? ==> digests == {})
    && (first.Some? ==> exists d :: d in digests && tokens[d] == first.value)
    && (first.Some? ==> forall d | d in digests :: Effective(tokens[d]) == Effective(first.value))
  }

  lemma CollectOne(tokens: TokenMap, subject: Text, todo: TokenMap, first: Option<Principal>, digests: set<Digest>, d: Digest)
    requires Collected(tokens, subject, todo, first, digests) && d in todo && d in tokens
    ensures tokens[d].subject != subject ==> Collected(tokens, subject, todo - {d}, first, digests)
    ensures tokens[d].subject == subject && first.None? ==> Collected(tokens, subject, todo - {d}, Some(tokens[d]), digests + {d})
    ensures tokens[d].subject == subject && first.Some? ==>
              if EffectivelyEqual(first.value, tokens[d])
              then Collected(tokens, subject, todo - {d}, first, digests + {d})
              else !Agree(tokens, subject)
  {
    hide Effective, EffectivelyEqual;
    if first.Some? {
      EffectiveEquality(first.value, tokens[d]);
      var e :| e in digests && tokens[e] == first.value;
      assert e in DigestsOf(tokens, subject) && e in digests + {d};
      assert tokens[d].subject == subject ==> d in DigestsOf(tokens, subject);
    } else {
      assert d in digests + {d};
    }
  }

  lemma CollectedAll(tokens: TokenMap, subject: Text, first: Option<Principal>, digests: set<Digest>)
    requires Collected(tokens, subject, map[], first, digests)
    ensures Agree(tokens, subject) && (first.None? <==> DigestsOf(tokens, subject) == {})
    ensures subject != [] && first.Some? ==> EntrySound(tokens, subject, first.value, digests)
  {
    hide Effective;
    assert digests == DigestsOf(tokens, subject);
  }

  /** Walk the tokens of one subject, in any order: one of their principals, unless two disagree. */
  method Collect(tokens: TokenMap, subject: Text) returns (agree: bool, first: Option<Principal>, digests: set<Digest>)
    ensures agree <==> Agree(tokens, subject)
    ensures agree && subject != [] && first.Some? ==> EntrySound(tokens, subject, first.value, digests)
    ensures agree ==> (first.None? <==> DigestsOf(tokens, subject) == {})
  {
    agree, first, digests := true, None, {};
    var todo := tokens;
    assert Collected(tokens, subject, todo, first, digests);
    hide Effective, EffectivelyEqual, Collected, Agree, EntrySound;
    while todo != map[]
      invariant forall d | d in todo :: d in tokens && todo[d] == tokens[d]
      invariant Collected(tokens, subject, todo, first, digests)
      decreases todo.Keys
    {
      var d :| d in todo;
      var p := todo[d];
      CollectOne(tokens, subject, todo, first, digests, d);
      if p.subject == subject {
        if first.None? {
          first := Some(p);
        } else if !EffectivelyEqual(first.value, p) {
          return false, first, digests;
        }
        digests := digests + {d};
      }
      todo := todo - {d};
    }
    CollectedAll(tokens, subject, first, digests);
  }

  // ---- Building the whole index -----------------------------------------------------------------

  /** The index covers exactly the tokens in `seen`. */
  ghost predicate Indexes(seen: TokenMap, bySubject: map<Text, Principal>, subjectDigests: map<Text, set<Digest>>) {
    IndexSound(seen, bySubject, subjectDigests) && IndexComplete(seen, bySubject)
  }

  lemma SoundElsewhere(seen: TokenMap, d: Digest, p: Principal, s: Text, q: Principal, digests: set<Digest>)
    requires EntrySound(seen, s, q, digests) && d !in seen && s != p.subject
    ensures EntrySound(seen[d := p], s, q, digests)
  {
    hide Effective;
    assert DigestsOf(seen[d := p], s) == DigestsOf(seen, s);
  }

  lemma SoundMore(seen: TokenMap, d: Digest, p: Principal, q: Principal, digests: set<Digest>)
    requires EntrySound(seen, p.subject, q, digests) && d !in seen && Effective(p) == Effective(q)
    ensures EntrySound(seen[d := p], p.subject, q, digests + {d})
  {
    hide Effective;
    assert DigestsOf(seen[d := p], p.subject) == digests + {d};
  }

  lemma SoundFirst(seen: TokenMap, d: Digest, p: Principal)
    requires d !in seen && p.subject != [] && DigestsOf(seen, p.subject) == {}
    ensures EntrySound(seen[d := p], p.subject, p, {d})
  {
    hide Effective;
    assert DigestsOf(seen[d := p], p.subject) == {d};
  }

  lemma IndexStep(seen: TokenMap, d: Digest, p: Principal, bySubject: map<Text, Principal>, subjectDigests: map<Text, set<Digest>>)
    requires Indexes(seen, bySubject, subjectDigests) && d !in seen
    ensures p.subject == [] ==> Indexes(seen[d := p], bySubject, subjectDigests)
    ensures p.subject != [] && p.subject in bySubject && Effective(p) == Effective(bySubject[p.subject]) ==>
              Indexes(seen[d := p], bySubject, subjectDigests[p.subject := subjectDigests[p.subject] + {d}])
    ensures p.subject != [] && p.subject !in bySubject ==>
              Indexes(seen[d := p], bySubject[p.subject := p], subjectDigests[p.subject := {d}])
  {
    hide Effective, EntrySound;
    forall s | s in bySubject && s != p.subject ensures EntrySound(seen[d := p], s, bySubject[s], subjectDigests[s]) {
      SoundElsewhere(seen, d, p, s, bySubject[s], subjectDigests[s]);
    }
    if p.subject == [] {
      EmptySubjectIsNotIndexed(seen, bySubject, subjectDigests);
    } else if p.subject in bySubject {
      if Effective(p) == Effective(bySubject[p.subject]) {
        SoundMore(seen, d, p, bySubject[p.subject], subjectDigests[p.subject]);
      }
    } else {
      SoundFirst(seen, d, p);
    }
  }

  lemma EmptySubjectIsNotIndexed(seen: TokenMap, bySubject: map<Text, Principal>, subjectDigests: map<Text, set<Digest>>)
    requires IndexSound(seen, bySubject, subjectDigests)
    ensures [] !in bySubject
  {
  }

  lemma Disagreement(tokens: TokenMap, seen: TokenMap, d: Digest, q: Principal, digests: set<Digest>)
    requires d in tokens && tokens[d].subject != [] && (forall e | e in seen :: e in tokens && tokens[e] == seen[e])
    requires EntrySound(seen, tokens[d].subject, q, digests) && Effective(tokens[d]) != Effective(q)
    ensures !Consistent(tokens)
  {
    hide Effective;
    var s := tokens[d].subject;
    var e :| e in DigestsOf(seen, s) && seen[e] == q;
    assert e in DigestsOf(tokens, s) && d in DigestsOf(tokens, s);
    assert !Agree(tokens, s);
  }

  lemma IndexedIsConsistent(tokens: TokenMap, bySubject: map<Text, Principal>, subjectDigests: map<Text, set<Digest>>)
    requires Indexes(tokens, bySubject, subjectDigests)
    ensures Consistent(tokens)
  {
    hide Effective;
    forall s | s != [] ensures Agree(tokens, s) {
      if d :| d in DigestsOf(tokens, s) {
        assert EntrySound(tokens, s, bySubject[s], subjectDigests[s]);
      }
    }
  }

  datatype Index = Index(bySubject: map<Text, Principal>, subjectDigests: map<Text, set<Digest>>)

  /** buildSubjectIndex, visiting the digests in any order. */
  method BuildSubjectIndex(tokens: TokenMap) returns (r: Option<Index>)
    ensures r.Some? <==> Consistent(tokens)
    ensures r.Some? ==> Indexes(tokens, r.value.bySubject, r.value.subjectDigests)
  {
    var bySubject: map<Text, Principal> := map[];
    var subjectDigests: map<Text, set<Digest>> := map[];
    var todo := tokens;
    ghost var seen: TokenMap := map[];
    assert Indexes(seen, bySubject, subjectDigests);
    hide Effective, EffectivelyEqual, EntrySound, Consistent;
    while todo != map[]
      invariant forall d | d in tokens :: if d in todo then d !in seen && todo[d] == tokens[d] else d in seen && seen[d] == tokens[d]
      invariant todo.Keys <= tokens.Keys && seen.Keys <= tokens.Keys
      invariant Indexes(seen, bySubject, subjectDigests)
      decreases todo.Keys
    {
      var d :| d in todo;
      var p := todo[d];
      IndexStep(seen, d, p, bySubject, subjectDigests);
      if p.subject != [] {
        if p.subject in bySubject {
          var existing := bySubject[p.subject];
          EffectiveEquality(existing, p);
          if !EffectivelyEqual(existing, p) {
            Disagreement(tokens, seen, d, existing, subjectDigests[p.subject]);
            return None;
          }
          subjectDigests := subjectDigests[p.subject := subjectDigests[p.subject] + {d}];
        } else {
          bySubject := bySubject[p.subject := p];
          subjectDigests := subjectDigests[p.subject := {d}];
        }
      }
      todo := todo - {d};
      seen := seen[d := p];
    }
    assert seen == tokens;
    IndexedIsConsistent(tokens, bySubject, subjectDigests);
    r := Some(Index(bySubject, subjectDigests));
  }

  // ---- Changing one token -------------------------------------------------------------------------

  /** Subjects that neither the old nor the new principal of a token carries are not affected. */
  lemma SoundUntouched(tokens: TokenMap, changed: TokenMap, s: Text, q: Principal, digests: set<Digest>)
    requires EntrySound(tokens, s, q, digests)
    requires forall d :: (d in tokens && tokens[d].subject == s) <==> (d in changed && changed[d].subject == s)
    requires forall d | d in tokens && d in changed && tokens[d].subject == s :: tokens[d] == changed[d]
    ensures EntrySound(changed, s, q, digests)
  {
    hide Effective;
    assert DigestsOf(changed, s) == DigestsOf(tokens, s);
    forall d | d in DigestsOf(changed, s) ensures changed[d] == tokens[d] {
      assert d in DigestsOf(tokens, s);
    }
  }

  lemma AgreeFewer(tokens: TokenMap, changed: TokenMap, s: Text)
    requires Agree(tokens, s)
    requires forall d | d in changed && changed[d].subject == s :: d in tokens && tokens[d] == changed[d]
    ensures Agree(changed, s)
  {
    hide Effective;
    assert DigestsOf(changed, s) <= DigestsOf(tokens, s);
    forall d, e | d in DigestsOf(changed, s) && e in DigestsOf(changed, s) ensures Effective(changed[d]) == Effective(changed[e]) {
    }
  }

  /** Replacing one token's principal. */
  lemma TokenSet(tokens: TokenMap, digest: Digest, p: Principal)
    requires Consistent(tokens)
    ensures Consistent(tokens[digest := p]) <==> p.subject == [] || Agree(tokens[digest := p], p.subject)
    ensures p.subject != [] && !Agree(tokens[digest := p], p.subject) ==> DigestsOf(tokens, p.subject) - {digest} != {}
  {
    hide Effective;
    var changed := tokens[digest := p];
    forall s | s != [] && s != p.subject ensures Agree(changed, s) {
      AgreeFewer(tokens, changed, s);
    }
    if DigestsOf(tokens, p.subject) - {digest} == {} {
      forall d | d in DigestsOf(changed, p.subject) ensures d == digest {
        assert d != digest ==> d in DigestsOf(tokens, p.subject) - {digest};
      }
      assert Agree(changed, p.subject);
    }
  }

  /** The entries of `s` are the same in both indexes. */
  ghost predicate SameEntry(a: Index, b: Index, s: Text) {
    && (s in a.bySubject <==> s in b.bySubject) && (s in a.bySubject ==> a.bySubject[s] == b.bySubject[s])
    && (s in a.subjectDigests <==> s in b.subjectDigests) && (s in a.subjectDigests ==> a.subjectDigests[s] == b.subjectDigests[s])
  }

  /** The entry of `s` is what the tokens say: sound, or absent when nobody carries the subject or they disagree. */
  ghost predicate EntryRight(tokens: TokenMap, index: Index, s: Text) {
    if s != [] && DigestsOf(tokens, s) != {} && Agree(tokens, s)
    then s in index.bySubject && s in index.subjectDigests && EntrySound(tokens, s, index.bySubject[s], index.subjectDigests[s])
    else s !in index.bySubject
  }

  /** The two token maps differ at `digest` only, and there in subjects `a` and `b`. */
  ghost predicate Differ(tokens: TokenMap, changed: TokenMap, digest: Digest, a: Text, b: Text) {
    && (forall d | d != digest :: (d in tokens <==> d in changed) && (d in tokens ==> tokens[d] == changed[d]))
    && (digest in tokens ==> tokens[digest].subject == a || tokens[digest].subject == b)
    && (digest in changed ==> changed[digest].subject == a || changed[digest].subject == b)
  }

  lemma UntouchedEntry(tokens: TokenMap, index: Index, changed: TokenMap, index': Index, digest: Digest, a: Text, b: Text, s: Text)
    requires IndexSound(tokens, index.bySubject, index.subjectDigests) && Differ(tokens, changed, digest, a, b)
    requires s != a && s != b && SameEntry(index, index', s) && s in index'.bySubject
    ensures s in index'.subjectDigests && EntrySound(changed, s, index'.bySubject[s], index'.subjectDigests[s])
  {
    hide EntrySound;
    SoundUntouched(tokens, changed, s, index.bySubject[s], index.subjectDigests[s]);
  }

  /** Where the index stands when only the entries of `a` and `b` have changed and are right or gone. */
  lemma IndexSettles(tokens: TokenMap, index: Index, changed: TokenMap, index': Index, digest: Digest, a: Text, b: Text)
    requires IndexSound(tokens, index.bySubject, index.subjectDigests) && Differ(tokens, changed, digest, a, b)
    requires forall s | s != a && s != b :: SameEntry(index, index', s)
    requires a in index'.bySubject ==> EntryRight(changed, index', a)
    requires b in index'.bySubject ==> EntryRight(changed, index', b)
    ensures IndexSound(changed, index'.bySubject, index'.subjectDigests)
    ensures && IndexComplete(tokens, index.bySubject) && Consistent(changed)
            && EntryRight(changed, index', a) && EntryRight(changed, index', b)
            ==> IndexComplete(changed, index'.bySubject)
  {
    hide EntrySound, Agree;
    forall s | s in index'.bySubject
      ensures s in index'.subjectDigests && EntrySound(changed, s, index'.bySubject[s], index'.subjectDigests[s])
    {
      if s != a && s != b {
        UntouchedEntry(tokens, index, changed, index', digest, a, b, s);
      }
    }
    if IndexComplete(tokens, index.bySubject) && Consistent(changed) && EntryRight(changed, index', a) && EntryRight(changed, index', b) {
      forall d | d in changed && changed[d].subject != [] ensures changed[d].subject in index'.bySubject {
        var s := changed[d].subject;
        assert d in DigestsOf(changed, s);
        if s != a && s != b {
          assert SameEntry(index, index', s);
        }
      }
    }
  }

  /** The effect of refreshing one subject's entry. */
  ghost predicate Refreshed(tokens: TokenMap, before: Index, after: Index, s: Text) {
    && (forall x | x != s || x == [] :: SameEntry(before, after, x))
    && (s != [] ==> EntryRight(tokens, after, s))
  }

  lemma RefreshedTwice(t: TokenMap, u: TokenMap, i0: Index, i1: Index, i2: Index, a: Text, b: Text)
    requires Refreshed(t, i0, i1, a) && Refreshed(u, i1, i2, b)
    ensures forall s | (s != a && s != b) || s == [] :: SameEntry(i0, i2, s)
    ensures a != b ==> SameEntry(i1, i2, a)
    ensures b != [] ==> EntryRight(u, i2, b)
    ensures a != [] && a != b ==> EntryRight(t, i2, a)
  {
    hide EntrySound, Agree;
    forall s | (s != a && s != b) || s == [] ensures SameEntry(i0, i2, s) {
      assert SameEntry(i0, i1, s) && SameEntry(i1, i2, s);
    }
    if a != b {
      assert SameEntry(i1, i2, a);
    }
  }

  lemma BlankIsRight(tokens: TokenMap, index: Index, changed: TokenMap, index': Index)
    requires IndexSound(tokens, index.bySubject, index.subjectDigests) && SameEntry(index, index', [])
    ensures EntryRight(changed, index', [])
  {
  }

  lemma ConsistentAgrees(tokens: TokenMap, s: Text)
    requires Consistent(tokens) && s != []
    ensures Agree(tokens, s)
  {
  }

  /**
   The subjects a registration of `p` under `digest` touches are `p`'s and that of
   the token it meets; no other entry changes. Afterwards both entries are what the
   tokens say, except that a rejected move leaves `p`'s subject without one.
   */
  ghost predicate Touched(before: TokenMap, tokens: TokenMap, i0: Index, i2: Index, digest: Digest, p: Principal, ok: bool) {
    var met := if digest in before then before[digest].subject else p.subject;
    && (forall s | (s != p.subject && s != met) || s == [] :: SameEntry(i0, i2, s))
    && (met != [] ==> EntryRight(tokens, i2, met))
    && (p.subject != [] ==> if ok || met == p.subject then EntryRight(tokens, i2, p.subject) else p.subject !in i2.bySubject)
  }

  /** An accepted registration: the new subject is refreshed, then the old one if there is one. */
  lemma AcceptedSettles(tokens: TokenMap, i0: Index, i1: Index, i2: Index, digest: Digest, p: Principal)
    requires IndexSound(tokens, i0.bySubject, i0.subjectDigests) && Consistent(tokens[digest := p])
    requires Refreshed(tokens[digest := p], i0, i1, p.subject)
    requires if digest in tokens && tokens[digest].subject != [] && tokens[digest].subject != p.subject
             then Refreshed(tokens[digest := p], i1, i2, tokens[digest].subject) else i2 == i1
    ensures IndexSound(tokens[digest := p], i2.bySubject, i2.subjectDigests)
    ensures IndexComplete(tokens, i0.bySubject) ==> IndexComplete(tokens[digest := p], i2.bySubject)
    ensures Touched(tokens, tokens[digest := p], i0, i2, digest, p, true)
  {
    hide Agree, EntrySound, Consistent, IndexComplete;
    var changed := tokens[digest := p];
    var b := if digest in tokens then tokens[digest].subject else p.subject;
    if i2 == i1 {
      assert SameEntry(i0, i2, []);
    } else {
      RefreshedTwice(changed, changed, i0, i1, i2, p.subject, b);
    }
    BlankIsRight(tokens, i0, changed, i2);
    assert EntryRight(changed, i2, p.subject) && EntryRight(changed, i2, b);
    hide EntryRight;
    IndexSettles(tokens, i0, changed, i2, digest, p.subject, b);
  }

  /** A rejected registration that keeps the subject: that subject is refreshed twice. */
  lemma RejectedSettles(tokens: TokenMap, i0: Index, i1: Index, i2: Index, digest: Digest, p: Principal)
    requires IndexSound(tokens, i0.bySubject, i0.subjectDigests) && Consistent(tokens)
    requires digest in tokens ==> tokens[digest].subject == p.subject
    requires Refreshed(tokens[digest := p], i0, i1, p.subject) && Refreshed(tokens, i1, i2, p.subject)
    ensures IndexSound(tokens, i2.bySubject, i2.subjectDigests)
    ensures IndexComplete(tokens, i0.bySubject) ==> IndexComplete(tokens, i2.bySubject)
    ensures Touched(tokens, tokens, i0, i2, digest, p, false)
  {
    hide Agree, EntrySound, Consistent, IndexComplete;
    RefreshedTwice(tokens[digest := p], tokens, i0, i1, i2, p.subject, p.subject);
    BlankIsRight(tokens, i0, tokens, i2);
    assert EntryRight(tokens, i2, p.subject);
    hide EntryRight;
    IndexSettles(tokens, i0, tokens, i2, digest, p.subject, p.subject);
  }

  /** A rejected registration that would have moved a token: the new subject loses its entry, the old one is refreshed. */
  lemma RejectedMoveSettles(tokens: TokenMap, i0: Index, i1: Index, i2: Index, digest: Digest, p: Principal)
    requires IndexSound(tokens, i0.bySubject, i0.subjectDigests) && Consistent(tokens) && p.subject != []
    requires digest in tokens && tokens[digest].subject != p.subject && !Agree(tokens[digest := p], p.subject)
    requires Refreshed(tokens[digest := p], i0, i1, p.subject) && Refreshed(tokens, i1, i2, tokens[digest].subject)
    ensures IndexSound(tokens, i2.bySubject, i2.subjectDigests)
    ensures !IndexComplete(tokens, i2.bySubject)
    ensures Touched(tokens, tokens, i0, i2, digest, p, false)
  {
    hide Agree, EntrySound;
    var b := tokens[digest].subject;
    TokenSet(tokens, digest, p);
    var other :| other in DigestsOf(tokens, p.subject) - {digest};
    RefreshedTwice(tokens[digest := p], tokens, i0, i1, i2, p.subject, b);
    BlankIsRight(tokens, i0, tokens, i2);
    assert EntryRight(tokens, i2, b) && p.subject !in i2.bySubject;
    hide EntryRight, Consistent;
    IndexSettles(tokens, i0, tokens, i2, digest, p.subject, b);
  }

  class TokenStore {
    const digestOf: Text -> Digest
    var tokens: TokenMap
    var bySubject: map<Text, Principal>
    var subjectDigests: map<Text, set<Digest>>

    ghost predicate Valid()
      reads this
    {
      Consistent(tokens) && IndexSound(tokens, bySubject, subjectDigests)
    }

    ghost function CurrentIndex(): (r: Index)
      reads `bySubject, `subjectDigests
    {
      Index(bySubject, subjectDigests)
    }

    /** Every subject of a token resolves. */
    ghost predicate Complete()
      reads this
    {
      IndexComplete(tokens, bySubject)
    }

    constructor (digestOf: Text -> Digest)
      ensures Valid() && Complete() && tokens == map[] && this.digestOf == digestOf
    {
      this.digestOf := digestOf;
      tokens, bySubject, subjectDigests := map[], map[], map[];
    }

    /** indexSubjectLocked: refresh the entry of one subject. */
    method IndexSubject(subject: Text) returns (ok: bool)
      modifies `bySubject, `subjectDigests
      ensures ok <==> subject == [] || Agree(tokens, subject)
      ensures Refreshed(tokens, old(CurrentIndex()), CurrentIndex(), subject)
      ensures subject != [] ==> (subject in bySubject <==> subject in subjectDigests)
    {
      hide EntrySound, Agree;
      if subject == [] {
        return true;
      }
      var first, digests;
      ok, first, digests := Collect(tokens, subject);
      if ok && first.Some? {
        bySubject := bySubject[subject := first.value];
        subjectDigests := subjectDigests[subject := digests];
      } else {
        bySubject := bySubject - {subject};
        subjectDigests := subjectDigests - {subject};
      }
    }

    /** The new registration moves an existing token to another subject. */
    ghost predicate ChangesSubject(digest: Digest, p: Principal)
      reads `tokens
    {
      digest in tokens && tokens[digest].subject != p.subject
    }

    /**
     AddToken. It registers the token exactly when its subject keeps one security
     identity. A rejected call leaves the tokens as they were, and the index as
     complete as it was unless it would have changed an existing token's subject:
     then the new subject no longer resolves, although tokens carry it.
     */
    method AddToken(raw: Text, p: Principal) returns (ok: bool)
      requires Valid()
      modifies this
      ensures Valid()
      ensures ok <==> raw != [] && KnownCapabilities(p) &&
                      (p.subject == [] || Agree(old(tokens)[digestOf(raw) := p], p.subject))
      ensures tokens == if ok then old(tokens)[digestOf(raw) := p] else old(tokens)
      ensures raw == [] || !KnownCapabilities(p) ==> bySubject == old(bySubject) && subjectDigests == old(subjectDigests)
      ensures raw != [] && KnownCapabilities(p) ==>
                Touched(old(tokens), tokens, old(CurrentIndex()), CurrentIndex(), digestOf(raw), p, ok)
      ensures ok && old(Complete()) ==> Complete()
      ensures !ok && old(Complete()) && raw != [] && KnownCapabilities(p) ==>
                (Complete() <==> !old(ChangesSubject(digestOf(raw), p)))
    {
      hide Effective, EntrySound, Agree, Consistent, IndexSound, IndexComplete, Refreshed, Touched;
      if raw == [] || !KnownCapabilities(p) {
        return false;
      }
      var digest := digestOf(raw);
      ghost var (t0, i0) := (tokens, CurrentIndex());
      var existed := digest in tokens;
      var prev := if existed then tokens[digest] else p;
      TokenSet(tokens, digest, p);
      tokens := tokens[digest := p];
      ok := IndexSubject(p.subject);
      ghost var i1 := CurrentIndex();
      if !ok {
        tokens := if existed then tokens[digest := prev] else tokens - {digest};
        assert tokens == t0;
        var again := IndexSubject(prev.subject);
        if prev.subject == p.subject {
          RejectedSettles(t0, i0, i1, CurrentIndex(), digest, p);
        } else {
          RejectedMoveSettles(t0, i0, i1, CurrentIndex(), digest, p);
        }
      } else {
        if existed && prev.subject != [] && prev.subject != p.subject {
          ConsistentAgrees(tokens, prev.subject);
          var consistent := IndexSubject(prev.subject);
          bySubject := if consistent then bySubject else map[];
          subjectDigests := if consistent then subjectDigests else map[];
        }
        AcceptedSettles(t0, i0, i1, CurrentIndex(), digest, p);
      }
    }

    /** RemoveToken: the whole index is rebuilt, so afterwards every subject resolves again. */
    method RemoveToken(raw: Text) returns (removed: bool)
      requires Valid()
      modifies this
      ensures Valid()
      ensures removed <==> raw != [] && digestOf(raw) in old(tokens)
      ensures removed ==> tokens == old(tokens) - {digestOf(raw)} && Complete()
      ensures !removed ==> tokens == old(tokens) && bySubject == old(bySubject) && subjectDigests == old(subjectDigests)
    {
      hide Effective, EntrySound, Agree;
      if raw == [] || digestOf(raw) !in tokens {
        return false;
      }
      tokens := tokens - {digestOf(raw)};
      forall s | s != [] ensures Agree(tokens, s) {
        AgreeFewer(old(tokens), tokens, s);
      }
      var built := BuildSubjectIndex(tokens);
      bySubject := if built.Some? then built.value.bySubject else map[];
      subjectDigests := if built.Some? then built.value.subjectDigests else map[];
      removed := true;
    }

    /** Load of a parsed token file: all of it, or nothing changes. */
    method Load(loaded: TokenMap) returns (ok: bool)
      requires Valid()
      modifies this
      ensures Valid()
      ensures ok <==> Loadable(loaded)
      ensures ok ==> tokens == loaded && Complete()
      ensures !ok ==> tokens == old(tokens) && bySubject == old(bySubject) && subjectDigests == old(subjectDigests)
    {
      hide Effective, EntrySound, Agree, StrictKeys, KnownCapabilities, Consistent;
      if !(forall d | d in loaded :: StrictKeys(loaded[d]) && KnownCapabilities(loaded[d])) {
        return false;
      }
      var built := BuildSubjectIndex(loaded);
      if built.None? {
        return false;
      }
      tokens, bySubject, subjectDigests := loaded, built.value.bySubject, built.value.subjectDigests;
      ok := true;
    }

    /** Save, up to the writing of the file: every principal normalized, in any order, or nothing is written. */
    method Save() returns (r: Option<TokenMap>)
      ensures r.Some? <==> forall d | d in tokens :: CanBeSaved(tokens[d])
      ensures r.Some? ==> SavedForm(tokens, r.value)
    {
      hide NormalForm, Collapsible;
      var saved: TokenMap := map[];
      var todo := tokens;
      while todo != map[]
        invariant saved.Keys !! todo.Keys && saved.Keys + todo.Keys == tokens.Keys
        invariant forall d | d in todo :: todo[d] == tokens[d]
        invariant forall d | d in saved :: CanBeSaved(tokens[d]) && NormalForm(tokens[d], saved[d])
        decreases todo.Keys
      {
        var d :| d in todo;
        var normalized := NormalizePrincipal(todo[d]);
        if normalized.None? {
          return None;
        }
        saved := saved[d := normalized.value];
        todo := todo - {d};
      }
      r := Some(saved);
    }

    /** PrincipalBySubject, on any contents of the three maps. */
    method PrincipalBySubject(subject: Text) returns (r: Option<Principal>)
      ensures r == Resolved(tokens, bySubject, subjectDigests, subject)
    {
      if subject == [] || subject !in bySubject {
        return None;
      }
      var p := bySubject[subject];
      var listed := if subject in subjectDigests then subjectDigests[subject] else {};
      var todo, matches := listed, 0;
      while todo != {}
        invariant todo <= listed
        invariant forall d | d in listed - todo && Matches(tokens, subject, d) :: EffectivelyEqual(p, tokens[d])
        invariant matches > 0 <==> exists d :: d in listed - todo && Matches(tokens, subject, d)
        decreases todo
      {
        var d :| d in todo;
        if Matches(tokens, subject, d) {
          matches := matches + 1;
          assert d in listed - (todo - {d});
          if !EffectivelyEqual(p, tokens[d]) {
            return None;
          }
        }
        todo := todo - {d};
      }
      assert listed - todo == listed;
      r := if matches == 0 then None else Some(p);
    }
  }

  predicate StrictKeys(p: Principal) {
    && (forall k | k in p.repositories :: ParseRepoGrant(k, false).Ok?)
    && (forall k | k in p.repositoryCapabilities :: ParseRepoGrant(k, false).Ok?)
  }

  /** What Load accepts. */
  ghost predicate Loadable(tokens: TokenMap) {
    Consistent(tokens) && forall d | d in tokens :: StrictKeys(tokens[d]) && KnownCapabilities(tokens[d])
  }

  /** `saved` is the store `tokens` with every principal in its saved form. */
  ghost predicate SavedForm(tokens: TokenMap, saved: TokenMap) {
    tokens.Keys == saved.Keys && forall d | d in tokens :: NormalForm(tokens[d], saved[d])
  }

  /** Both maps of the principal can be respelled without a conflict. */
  ghost predicate CanBeSaved(p: Principal) {
    Collapsible(p.repositories, PermissionClass, ExplicitKey) && Collapsible(p.repositoryCapabilities, CapabilitySet, ExplicitKey)
  }

  /** One unknown capability, or one untagged key of three or more segments, and the file is refused. */
  lemma LoadRefuses(tokens: TokenMap, d: Digest, key: Text, c: Capability)
    requires d in tokens
    ensures && (c in tokens[d].capabilities || (key in tokens[d].repositoryCapabilities && c in tokens[d].repositoryCapabilities[key]))
            && c !in {"execution.events:read", "evidence:read", "checkpoints:read", "runs:cancel", "graph.mutations:write"}
            ==> !Loadable(tokens)
    ensures && (key in tokens[d].repositories || key in tokens[d].repositoryCapabilities)
            && !("r1:" <= key) && !("a1:" <= key) && Count(key, '/') >= 2
            ==> !Loadable(tokens)
  {
    hide ParseRepoGrant, Count, Consistent;
    if !Tagged(key) && Count(key, '/') >= 2 {
      UntaggedAre(key, false);
    }
  }

  predicate Matches(tokens: TokenMap, subject: Text, d: Digest) {
    d in tokens && tokens[d].subject == subject
  }

  /** What the index answers: its principal, if a listed token still carries the subject and all that do agree with it. */
  ghost function Resolved(tokens: TokenMap, bySubject: map<Text, Principal>, subjectDigests: map<Text, set<Digest>>, subject: Text)
    : (r: Option<Principal>)
  {
    if subject == [] || subject !in bySubject then None
    else
      var p := bySubject[subject];
      var listed := if subject in subjectDigests then subjectDigests[subject] else {};
      if (exists d :: d in listed && Matches(tokens, subject, d)) &&
         (forall d | d in listed && Matches(tokens, subject, d) :: EffectivelyEqual(p, tokens[d]))
      then Some(p) else None
  }

  /**
   The subject index agrees with a full scan: what it resolves, a scan of all
   tokens finds; and when the index is complete it resolves every subject that
   some token carries.
   */
  lemma IndexAgreesWithScan(tokens: TokenMap, bySubject: map<Text, Principal>, subjectDigests: map<Text, set<Digest>>, subject: Text)
    requires Consistent(tokens) && IndexSound(tokens, bySubject, subjectDigests)
    ensures var r := Resolved(tokens, bySubject, subjectDigests, subject);
            && (r.Some? ==> ScanFinds(tokens, subject, r.value))
            && (r.Some? <==> subject in bySubject)
            && (IndexComplete(tokens, bySubject) ==> (r.Some? <==> subject != [] && DigestsOf(tokens, subject) != {}))
  {
    hide Effective, EffectivelyEqual;
    if subject in bySubject {
      var (p, listed) := (bySubject[subject], subjectDigests[subject]);
      assert EntrySound(tokens, subject, p, listed);
      var d :| d in DigestsOf(tokens, subject) && tokens[d] == p;
      assert d in listed && Matches(tokens, subject, d);
      forall e | e in listed ensures EffectivelyEqual(p, tokens[e]) {
        EffectiveEquality(p, tokens[e]);
      }
    } else if d :| d in DigestsOf(tokens, subject) {
      assert IndexComplete(tokens, bySubject) && subject != [] ==> subject in bySubject;
    }
  }

  /** The tokens of these digests have the identity of `p`. */
  ghost predicate AgreeWith(tokens: TokenMap, digests: set<Digest>, p: Principal) {
    forall d | d in digests && d in tokens :: Effective(tokens[d]) == Effective(p)
  }

  function Listed(subjectDigests: map<Text, set<Digest>>, subject: Text): (r: set<Digest>) {
    if subject in subjectDigests then subjectDigests[subject] else {}
  }

  /**
   On any three maps, a resolved principal speaks for all tokens of the subject if
   and only if it speaks for those the index does not list: a disagreeing token is
   noticed exactly when it is listed.
   */
  lemma ResolvedSpeaksForAll(tokens: TokenMap, bySubject: map<Text, Principal>, subjectDigests: map<Text, set<Digest>>, subject: Text)
    ensures var r := Resolved(tokens, bySubject, subjectDigests, subject);
            r.Some? ==> (AgreeWith(tokens, DigestsOf(tokens, subject), r.value) <==>
                         AgreeWith(tokens, DigestsOf(tokens, subject) - Listed(subjectDigests, subject), r.value))
    ensures subject in bySubject && !AgreeWith(tokens, DigestsOf(tokens, subject) * Listed(subjectDigests, subject), bySubject[subject]) ==>
              Resolved(tokens, bySubject, subjectDigests, subject).None?
  {
    hide Effective, EffectivelyEqual;
    if subject in bySubject {
      var p := bySubject[subject];
      forall d | d in DigestsOf(tokens, subject) ensures EffectivelyEqual(p, tokens[d]) <==> Effective(tokens[d]) == Effective(p) {
        EffectiveEquality(p, tokens[d]);
      }
      assert forall d | d in DigestsOf(tokens, subject) :: Matches(tokens, subject, d);
    }
  }

  /**
   A token put straight into the map of a well-kept store under a new digest changes no answer. One that
   disagrees with an indexed subject is therefore a conflict that goes unnoticed.
   */
  lemma InjectedConflictIsMissed(tokens: TokenMap, bySubject: map<Text, Principal>, subjectDigests: map<Text, set<Digest>>,
                                 digest: Digest, q: Principal)
    requires IndexSound(tokens, bySubject, subjectDigests) && digest !in tokens
    requires q.subject in bySubject && Effective(q) != Effective(bySubject[q.subject])
    ensures !Agree(tokens[digest := q], q.subject)
    ensures Resolved(tokens[digest := q], bySubject, subjectDigests, q.subject) == Some(bySubject[q.subject])
  {
    hide Effective, EffectivelyEqual;
    var (s, changed) := (q.subject, tokens[digest := q]);
    var (p, listed) := (bySubject[s], subjectDigests[s]);
    assert EntrySound(tokens, s, p, listed);
    var d :| d in DigestsOf(tokens, s) && tokens[d] == p;
    assert d in listed && Matches(changed, s, d);
    assert d in DigestsOf(changed, s) && digest in DigestsOf(changed, s);
    forall e | e in listed ensures EffectivelyEqual(p, changed[e]) {
      EffectiveEquality(p, tokens[e]);
    }
  }

  /** The smallest such store. */
  lemma TwoTokensOneListed(a: Digest, b: Digest, p: Principal, q: Principal)
    requires a != b && p.subject == q.subject != [] && !EffectivelyEqual(p, q)
    ensures var tokens := map[a := p, b := q];
            !Agree(tokens, p.subject) && Resolved(tokens, map[p.subject := p], map[p.subject := {a}], p.subject) == Some(p)
  {
    hide Effective, EffectivelyEqual;
    EffectiveEquality(p, q);
    var tokens := map[a := p];
    assert DigestsOf(tokens, p.subject) == {a};
    assert EntrySound(tokens, p.subject, p, {a});
    InjectedConflictIsMissed(tokens, map[p.subject := p], map[p.subject := {a}], b, q);
    assert tokens[b := q] == map[a := p, b := q];
  }

  /**
   A rejected registration that would have moved a token: the subject it names is
   carried by a token throughout and no longer resolves.
   */
  method RejectedMoveHidesASubject(digestOf: Text -> Digest, raw: Text, other: Text, p: Principal, q: Principal, moved: Principal)
    returns (accepted: bool, before: Option<Principal>, after: Option<Principal>, ghost tokens: TokenMap)
    requires raw != [] && other != [] && digestOf(raw) != digestOf(other)
    requires KnownCapabilities(p) && KnownCapabilities(q) && KnownCapabilities(moved)
    requires p.subject != q.subject && moved.subject == q.subject != [] && !EffectivelyEqual(moved, q)
    ensures !accepted && before == Some(q) && after == None && tokens == map[digestOf(raw) := p, digestOf(other) := q]
  {
    hide Effective, EffectivelyEqual, Agree, KnownCapabilities;
    var store := new TokenStore(digestOf);
    var (d, e) := (digestOf(raw), digestOf(other));
    OneCarrierAgrees(map[d := p], d, p.subject);
    accepted := store.AddToken(raw, p);
    OneCarrierAgrees(store.tokens[e := q], e, q.subject);
    accepted := store.AddToken(other, q);
    tokens := store.tokens;
    assert tokens == map[d := p, e := q] && DigestsOf(tokens, q.subject) == {e};
    IndexAgreesWithScan(tokens, store.bySubject, store.subjectDigests, q.subject);
    before := store.PrincipalBySubject(q.subject);
    TwoIdentitiesDisagree(tokens[d := moved], d, e);
    accepted := store.AddToken(raw, moved);
    after := store.PrincipalBySubject(q.subject);
  }

  lemma OneCarrierAgrees(tokens: TokenMap, d: Digest, s: Text)
    requires forall e | e in tokens && tokens[e].subject == s :: e == d
    ensures Agree(tokens, s)
  {
  }

  lemma TwoIdentitiesDisagree(tokens: TokenMap, d: Digest, e: Digest)
    requires d in tokens && e in tokens && tokens[d].subject == tokens[e].subject && !EffectivelyEqual(tokens[d], tokens[e])
    ensures !Agree(tokens, tokens[d].subject)
  {
    hide Effective, EffectivelyEqual;
    EffectiveEquality(tokens[d], tokens[e]);
    assert d in DigestsOf(tokens, tokens[d].subject) && e in DigestsOf(tokens, tokens[d].subject);
  }

  // ---- Equal identities ------------------------------------------------------------------------

  function Verbatim(key: Text): Option<Text> { Some(key) }

  lemma SameCapabilityResolution(a: Principal, b: Principal, grant: Grant, legacy: bool)
    requires Effective(a) == Effective(b)
    ensures SameResolution(CapabilityEntry(a, grant, legacy), CapabilityEntry(b, grant, legacy), CapabilitySet)
  {
    hide ParseRepoGrant;
    var (x, y) := (a.repositoryCapabilities, b.repositoryCapabilities);
    assert Effective(a).repositoryCapabilities == Effective(b).repositoryCapabilities;
    assert x.Keys == Effective(a).repositoryCapabilities.Keys == Effective(b).repositoryCapabilities.Keys == y.Keys;
    forall k | k in x ensures CapabilitySet(x[k]) == CapabilitySet(y[k]) {
      assert Effective(a).repositoryCapabilities[k] == Effective(b).repositoryCapabilities[k];
    }
    forall slot: Text -> Option<Text>, name ensures SlotKeys(x, slot, name) == SlotKeys(y, slot, name) {
    }
    assert Consulted(x, grant, legacy) == Consulted(y, grant, legacy);
    assert Consulted(y, grant, legacy) == Spelled(Consulted(x, grant, legacy), Verbatim);
    assert Rewritten(x, y, CapabilitySet, Verbatim) by {
      forall s | s in y ensures exists k :: k in x && Verbatim(k) == Some(s) {
        assert s in x && Verbatim(s) == Some(s);
      }
    }
    CapabilitiesImage(a, b, grant, legacy, Verbatim, Consulted(x, grant, legacy), Consulted(y, grant, legacy));
  }

  lemma SameGrantDecision(a: Principal, b: Principal, action: Action, grant: Grant, trusted: bool, legacy: bool)
    requires Effective(a) == Effective(b)
    ensures AuthorizeGrant(a, action, grant, trusted, legacy) == AuthorizeGrant(b, action, grant, trusted, legacy)
  {
    hide Resolve;
    SameRoleMembers(a.roles, b.roles);
    assert a.repositories == b.repositories;
    hide RoleSet, CapabilitySet;
  }

  lemma SameCapabilityDecision(a: Principal, b: Principal, capability: Capability, grant: Grant)
    requires Effective(a) == Effective(b)
    ensures CapabilityGranted(a, capability, grant) == CapabilityGranted(b, capability, grant)
  {
    hide Effective, CapabilityEntry;
    SameCapabilityResolution(a, b, grant, true);
    var (x, y) := (CapabilityEntry(a, grant, true), CapabilityEntry(b, grant, true));
    if x.Found? {
      SameCapabilitiesSameMembers(x.value, y.value, capability);
    }
  }

  lemma SameRoleMembers(a: seq<Role>, b: seq<Role>)
    requires RoleSet(a) == RoleSet(b)
    ensures forall r :: r in a <==> r in b
  {
    forall r ensures r in a <==> r in b {
      assert r in RoleSet(a) <==> r in RoleSet(b);
    }
  }

  /** Principals with one security identity are authorized alike, in every respect. */
  lemma EqualIdentitiesDecideAlike(a: Principal, b: Principal, action: Action, capability: Capability, repo: Text, trusted: bool)
    requires EffectivelyEqual(a, b)
    ensures Authorize(a, action, repo, trusted) == Authorize(b, action, repo, trusted)
    ensures AuthorizeCapability(a, capability, repo) == AuthorizeCapability(b, capability, repo)
  {
    EffectiveEquality(a, b);
    hide ParseRepoGrant, AuthorizeGrant, CapabilityGranted, EffectivelyEqual;
    SameRoleMembers(a.roles, b.roles);
    SameCapabilitiesSameMembers(a.capabilities, b.capabilities, capability);
    if ParseStored(repo).Ok? {
      SameGrantDecision(a, b, action, ParseStored(repo).grant, trusted, true);
      SameCapabilityDecision(a, b, capability, ParseStored(repo).grant);
    }
  }

  /** Saving keeps identities equal. */
  lemma SaveKeepsIdentitiesEqual(p: Principal, q: Principal, p': Principal, q': Principal)
    requires NormalForm(p, p') && NormalForm(q, q') && EffectivelyEqual(p, q)
    ensures EffectivelyEqual(p', q')
  {
    EffectiveEquality(p, q);
    hide ExplicitKey, EffectivelyEqual, Canonical, Rewritten;
    SameImages(p.repositories, q.repositories, p'.repositories, q'.repositories, PermissionClass);
    var (x, y) := (p.repositoryCapabilities, q.repositoryCapabilities);
    assert x.Keys == Effective(p).repositoryCapabilities.Keys == Effective(q).repositoryCapabilities.Keys == y.Keys;
    forall k | k in x ensures CapabilitySet(x[k]) == CapabilitySet(y[k]) {
      assert Effective(p).repositoryCapabilities[k] == Effective(q).repositoryCapabilities[k];
    }
    SameImages(x, y, p'.repositoryCapabilities, q'.repositoryCapabilities, CapabilitySet);
    assert Effective(p').repositoryCapabilities == Effective(q').repositoryCapabilities;
    EffectiveEquality(p', q');
  }

  lemma SameImages<T, C>(x: map<Text, T>, y: map<Text, T>, x': map<Text, T>, y': map<Text, T>, cls: T -> C)
    requires Rewritten(x, x', cls, ExplicitKey) && Rewritten(y, y', cls, ExplicitKey)
    requires x.Keys == y.Keys && forall k | k in x :: cls(x[k]) == cls(y[k])
    ensures x'.Keys == y'.Keys && forall s | s in x' :: cls(x'[s]) == cls(y'[s])
  {
    hide ExplicitKey;
    forall s | s in x' ensures s in y' && cls(x'[s]) == cls(y'[s]) {
      var k :| k in x && ExplicitKey(k) == Some(s);
      assert cls(x[k]) == cls(x'[s]) && cls(y[k]) == cls(y'[s]);
    }
    forall s | s in y' ensures s in x' {
      var k :| k in y && ExplicitKey(k) == Some(s);
    }
  }

  lemma SavedKeysAccepted<T, C>(entries: map<Text, T>, out: map<Text, T>, cls: T -> C)
    requires Rewritten(entries, out, cls, ExplicitKey)
    ensures (forall s | s in out :: ParseRepoGrant(s, false).Ok?) <==> forall k | k in entries :: Reloads(k)
  {
    hide ParseRepoGrant, Serialized, Reloads;
    forall k | k in entries ensures ParseStored(k).Ok? && (ParseRepoGrant(ExplicitKey(k).value, false).Ok? <==> Reloads(k)) {
      RespellingAcceptedExactlyWhen(k);
    }
    forall s | s in out ensures exists k :: k in entries && ExplicitKey(k) == Some(s) {
    }
  }

  lemma SavedCapabilitiesKnown(p: Principal, q: Principal)
    requires NormalForm(p, q)
    ensures KnownCapabilities(q) <==> KnownCapabilities(p)
  {
    hide ExplicitKey;
    forall c ensures c in p.capabilities <==> c in q.capabilities {
      SameCapabilitiesSameMembers(p.capabilities, q.capabilities, c);
    }
    var (x, y) := (p.repositoryCapabilities, q.repositoryCapabilities);
    forall k, c | k in x ensures c in x[k] <==> c in y[ExplicitKey(k).value] {
      SameCapabilitiesSameMembers(x[k], y[ExplicitKey(k).value], c);
    }
  }

  lemma SavedPrincipalAccepted(p: Principal, q: Principal)
    requires NormalForm(p, q)
    ensures StrictKeys(q) <==> ReloadingKeys(p)
    ensures KnownCapabilities(q) <==> KnownCapabilities(p)
    ensures q.subject == p.subject
  {
    hide KnownCapabilities, Reloads, ExplicitKey, ParseRepoGrant;
    SavedKeysAccepted(p.repositories, q.repositories, PermissionClass);
    SavedKeysAccepted(p.repositoryCapabilities, q.repositoryCapabilities, CapabilitySet);
    SavedCapabilitiesKnown(p, q);
  }

  /** The exact condition: a consistent store, saved, is accepted by Load if and only if every key of every token reloads. */
  lemma SavedStoreReloadsExactlyWhen(tokens: TokenMap, saved: TokenMap)
    requires Consistent(tokens) && SavedForm(tokens, saved)
    ensures Loadable(saved) <==> forall d | d in tokens :: ReloadingKeys(tokens[d]) && KnownCapabilities(tokens[d])
  {
    hide NormalForm, KnownCapabilities, Effective, EffectivelyEqual, ReloadingKeys, StrictKeys;
    forall d | d in saved
      ensures (StrictKeys(saved[d]) <==> ReloadingKeys(tokens[d])) && (KnownCapabilities(saved[d]) <==> KnownCapabilities(tokens[d]))
      ensures saved[d].subject == tokens[d].subject
    {
      SavedPrincipalAccepted(tokens[d], saved[d]);
    }
    forall s | s != [] ensures Agree(saved, s) {
      SavedTokensAgree(tokens, saved, s);
    }
  }

  lemma StableKeysReload(p: Principal)
    requires StableKeys(p)
    ensures ReloadingKeys(p)
  {
    hide ParseRepoGrant;
    forall k | StableKey(k) ensures Reloads(k) {
      RespellingAcceptedExactlyWhen(k);
    }
  }

  /** A consistent store over stable keys, saved and loaded again, is accepted and decides as before. */
  lemma SavedStoreDecidesAlike(tokens: TokenMap, saved: TokenMap)
    requires Consistent(tokens) && SavedForm(tokens, saved)
    requires forall d | d in tokens :: StableKeys(tokens[d]) && KnownCapabilities(tokens[d])
    ensures Loadable(saved)
    ensures forall d, action, repo, trusted | d in tokens ::
              Authorize(tokens[d], action, repo, trusted) == Authorize(saved[d], action, repo, trusted)
    ensures forall d, capability, repo | d in tokens ::
              AuthorizeCapability(tokens[d], capability, repo) == AuthorizeCapability(saved[d], capability, repo)
  {
    hide Authorize, AuthorizeCapability, NormalForm, KnownCapabilities, StableKeys, ReloadingKeys, Loadable;
    forall d | d in tokens ensures ReloadingKeys(tokens[d]) {
      StableKeysReload(tokens[d]);
    }
    SavedStoreReloadsExactlyWhen(tokens, saved);
    forall d, action, repo, trusted | d in tokens
      ensures Authorize(tokens[d], action, repo, trusted) == Authorize(saved[d], action, repo, trusted)
    {
      SavePreservesDecisions(tokens[d], saved[d], action, [], repo, Invalid, trusted, true);
    }
    forall d, capability, repo | d in tokens
      ensures AuthorizeCapability(tokens[d], capability, repo) == AuthorizeCapability(saved[d], capability, repo)
    {
      SavePreservesDecisions(tokens[d], saved[d], ActionRead, capability, repo, Invalid, false, true);
    }
  }

  /**
   A token file with one token over any key that does not reload: it loads, it is
   saved, and what was saved is refused as a whole.
   */
  method SavedStoreDoesNotReload(digestOf: Text -> Digest, digest: Digest, key: Text, allowed: Permission)
    returns (loaded: bool, saved: Option<TokenMap>, reloaded: bool)
    requires ParseRepoGrant(key, false).Ok? && ParseStored(key).Ok? && !Reloads(key)
    ensures loaded && saved.Some? && !reloaded
  {
    hide ParseRepoGrant, Reloads, EffectivelyEqual, Effective;
    var p := Principal([], [], map[key := allowed], [], map[]);
    var store := new TokenStore(digestOf);
    loaded := store.Load(map[digest := p]);
    assert CanBeSaved(p) by {
      RespellingAcceptedExactlyWhen(key);
    }
    assert key in p.repositories && !ReloadingKeys(p);
    assert digest in store.tokens && store.tokens[digest] == p;
    hide ReloadingKeys, CanBeSaved, SavedForm, Loadable, Consistent;
    saved := store.Save();
    SavedStoreReloadsExactlyWhen(store.tokens, saved.value);
    reloaded := store.Load(saved.value);
  }

  lemma SavedTokensAgree(tokens: TokenMap, saved: TokenMap, s: Text)
    requires SavedForm(tokens, saved) && Agree(tokens, s)
    requires forall d | d in saved :: saved[d].subject == tokens[d].subject
    ensures Agree(saved, s)
  {
    hide Effective, EffectivelyEqual, NormalForm;
    assert DigestsOf(saved, s) == DigestsOf(tokens, s);
    forall d, e | d in DigestsOf(saved, s) && e in DigestsOf(saved, s) ensures Effective(saved[d]) == Effective(saved[e]) {
      EffectiveEquality(tokens[d], tokens[e]);
      SaveKeepsIdentitiesEqual(tokens[d], tokens[e], saved[d], saved[e]);
      EffectiveEquality(saved[d], saved[e]);
    }
  }
}
