/**
 Rewriting a principal's repository keys into their explicit spelling when a
 token file is saved (internal/auth/token.go, capability.go), and exactly when
 that rewriting keeps every authorization decision.
 */
module SaveKeys {
  import opened Strings
  import opened Base64
  import HostForms
  import opened RepoGrant
  import opened Rbac
  import opened Decisions

  /** The explicit spelling of a key, or None when the key names no repository. */
  function ExplicitKey(key: Text): (r: Option<Text>) {
    var p := ParseStored(key);
    if p.Ok? && Serialized(p.grant) != [] then Some(Serialized(p.grant)) else None
  }

  /** `out` holds exactly the respelled keys of `entries`, with values of the same class. */
  ghost predicate Rewritten<T, C>(entries: map<Text, T>, out: map<Text, T>, cls: T -> C, spell: Text -> Option<Text>) {
    && (forall k | k in entries :: spell(k).Some? && spell(k).value in out && cls(entries[k]) == cls(out[spell(k).value]))
    && (forall s | s in out :: exists k :: k in entries && spell(k) == Some(s))
  }

  /** Every key has a spelling, and keys with one spelling carry values of one class. */
  ghost predicate Collapsible<T, C>(entries: map<Text, T>, cls: T -> C, spell: Text -> Option<Text>) {
    && (forall k | k in entries :: spell(k).Some?)
    && (forall j, k | j in entries && k in entries && spell(j) == spell(k) :: cls(entries[j]) == cls(entries[k]))
  }

  /**
   normalizePrincipalRepoGrants and the loop of normalizePrincipalRepoCapabilities:
   both rewrite every key, in any map order, and fail when a key cannot be
   respelled or two keys meet on one spelling with different values.
   */
  method NormalizeKeys<T(!new), C>(entries: map<Text, T>, equal: (T, T) -> bool, ghost cls: T -> C, canon: T -> T,
                                   spell: Text -> Option<Text>)
    returns (r: Option<map<Text, T>>)
    requires Kernel(equal, cls) && forall v :: cls(canon(v)) == cls(v)
    ensures r.Some? <==> Collapsible(entries, cls, spell)
    ensures r.Some? ==> Rewritten(entries, r.value, cls, spell)
    ensures r.Some? ==> forall s | s in r.value :: exists v :: r.value[s] == canon(v)
  {
    var out: map<Text, T> := map[];
    var todo := entries.Keys;
    while todo != {}
      invariant todo <= entries.Keys
      invariant forall k | k in entries && k !in todo ::
                  spell(k).Some? && spell(k).value in out && cls(entries[k]) == cls(out[spell(k).value])
      invariant forall s | s in out :: exists k :: k in entries && k !in todo && spell(k) == Some(s)
      invariant forall s | s in out :: exists v :: out[s] == canon(v)
      decreases |todo|
    {
      var key :| key in todo;
      match spell(key)
      case None =>
        return None;
      case Some(s) =>
        var value := canon(entries[key]);
        if s in out {
          if !equal(out[s], value) {
            ghost var j :| j in entries && j !in todo && spell(j) == Some(s);
            assert cls(entries[j]) != cls(entries[key]);
            return None;
          }
        } else {
          out := out[s := value];
        }
        todo := todo - {key};
        forall t | t in out
          ensures exists k :: k in entries && k !in todo && spell(k) == Some(t)
        {
          if t == s {
            assert key !in todo;
          }
        }
    }
    r := Some(out);
  }

  /** The first occurrence of each capability. */
  function Deduplicated(caps: seq<Capability>): (r: seq<Capability>)
    ensures SameCapabilities(caps, r)
    ensures forall i, j | 0 <= i < j < |r| :: r[i] != r[j]
  {
    if caps == [] then []
    else
      var front, last := Deduplicated(caps[..|caps| - 1]), caps[|caps| - 1];
      assert caps == caps[..|caps| - 1] + [last];
      if last in front then front else front + [last]
  }

  ghost predicate Ascending(caps: seq<Capability>)
    decreases |caps|
  {
    caps != [] ==> (forall c | c in caps[1..] :: Before(caps[0], c)) && Ascending(caps[1..])
  }

  function InsertName(c: Capability, caps: seq<Capability>): (r: seq<Capability>)
    decreases |caps|
  {
    if caps == [] || Before(c, caps[0]) then [c] + caps else [caps[0]] + InsertName(c, caps[1..])
  }

  function SortedNames(caps: seq<Capability>): (r: seq<Capability>)
    decreases |caps|
  {
    if caps == [] then [] else InsertName(caps[0], SortedNames(caps[1..]))
  }

  lemma {:induction false} InsertKeeps(c: Capability, caps: seq<Capability>, x: Capability)
    ensures x in InsertName(c, caps) <==> x == c || x in caps
    decreases |caps|
  {
    if !(caps == [] || Before(c, caps[0])) {
      assert caps == [caps[0]] + caps[1..];
      InsertKeeps(c, caps[1..], x);
    }
  }

  lemma {:induction false} InsertAscends(c: Capability, caps: seq<Capability>)
    requires Ascending(caps) && c !in caps
    ensures Ascending(InsertName(c, caps))
    decreases |caps|
  {
    var r := InsertName(c, caps);
    if caps == [] {
    } else if Before(c, caps[0]) {
      assert r[1..] == caps;
      forall x | x in caps ensures Before(c, x) {
        if x != caps[0] {
          assert x in caps[1..];
          BeforeIsTransitive(c, caps[0], x);
        }
      }
    } else {
      BeforeIsTotal(c, caps[0]);
      InsertAscends(c, caps[1..]);
      assert r[1..] == InsertName(c, caps[1..]);
      forall x | x in r[1..] ensures Before(caps[0], x) {
        InsertKeeps(c, caps[1..], x);
      }
    }
  }

  lemma {:induction false} SortKeeps(caps: seq<Capability>, x: Capability)
    ensures x in SortedNames(caps) <==> x in caps
    decreases |caps|
  {
    if caps != [] {
      SortKeeps(caps[1..], x);
      InsertKeeps(caps[0], SortedNames(caps[1..]), x);
    }
  }

  lemma {:induction false} SortAscends(caps: seq<Capability>)
    requires forall i, j | 0 <= i < j < |caps| :: caps[i] != caps[j]
    ensures Ascending(SortedNames(caps))
    decreases |caps|
  {
    if caps != [] {
      SortAscends(caps[1..]);
      SortKeeps(caps[1..], caps[0]);
      InsertAscends(caps[0], SortedNames(caps[1..]));
    }
  }

  /** canonicalCapabilities: without duplicates, sorted. */
  function CanonicalList(caps: seq<Capability>): (r: seq<Capability>)
    ensures SameCapabilities(caps, r) && Ascending(r)
  {
    CanonicalListHolds(caps);
    SortedNames(Deduplicated(caps))
  }

  lemma CanonicalListHolds(caps: seq<Capability>)
    ensures var r := SortedNames(Deduplicated(caps)); SameCapabilities(caps, r) && Ascending(r)
  {
    hide SortedNames, Ascending;
    var d := Deduplicated(caps);
    SortAscends(d);
    forall c ensures c in SortedNames(d) <==> c in d {
      SortKeeps(d, c);
    }
    assert CapabilitySet(SortedNames(d)) == CapabilitySet(d);
  }

  method CanonicalCapabilities(caps: seq<Capability>) returns (out: seq<Capability>)
    ensures out == CanonicalList(caps)
  {
    out := [];
    var seen := {};
    for i := 0 to |caps|
      invariant out == Deduplicated(caps[..i]) && seen == CapabilitySet(out)
    {
      assert caps[..i + 1][..i] == caps[..i];
      if caps[i] !in seen {
        seen := seen + {caps[i]};
        out := out + [caps[i]];
      }
    }
    assert caps[..|caps|] == caps;
    out := SortedNames(out);
  }

  lemma FirstIsMember(a: seq<Capability>)
    ensures a != [] ==> a[0] in a
  {
  }

  lemma {:induction false} AscendingIsUnique(a: seq<Capability>, b: seq<Capability>)
    requires Ascending(a) && Ascending(b) && forall c :: c in a <==> c in b
    ensures a == b
    decreases |a|
  {
    FirstIsMember(a);
    FirstIsMember(b);
    if a != [] {
      BeforeIsTotal(a[0], b[0]);
      assert a == [a[0]] + a[1..] && b == [b[0]] + b[1..];
      assert a[0] == b[0];
      forall c ensures c in a[1..] <==> c in b[1..] {
        BeforeIsTotal(a[0], c);
        assert c in a[1..] ==> c in a && c != a[0];
        assert c in b[1..] ==> c in b && c != b[0];
      }
      AscendingIsUnique(a[1..], b[1..]);
    }
  }

  /** Lists with the same capabilities are written alike, and only those. */
  lemma CanonicalListsAreEqual(a: seq<Capability>, b: seq<Capability>)
    ensures CanonicalList(a) == CanonicalList(b) <==> SameCapabilities(a, b)
  {
    hide SortedNames, Deduplicated;
    var (x, y) := (CanonicalList(a), CanonicalList(b));
    if SameCapabilities(a, b) {
      forall c ensures c in x <==> c in y {
        SameCapabilitiesSameMembers(x, y, c);
      }
      AscendingIsUnique(x, y);
    }
  }

  /** The two normalizations Save applies to every principal before writing it. */
  method NormalizePrincipal(p: Principal) returns (r: Option<Principal>)
    ensures r.Some? <==>
            Collapsible(p.repositories, PermissionClass, ExplicitKey)
            && Collapsible(p.repositoryCapabilities, CapabilitySet, ExplicitKey)
    ensures r.Some? ==> NormalForm(p, r.value)
  {
    var repositories := NormalizeKeys(p.repositories, SamePermission, PermissionClass, (x: Permission) => x, ExplicitKey);
    if repositories.None? {
      return None;
    }
    var capabilities := CanonicalCapabilities(p.capabilities);
    var repositoryCapabilities := NormalizeKeys(p.repositoryCapabilities, SameCapabilities, CapabilitySet, CanonicalList, ExplicitKey);
    if repositoryCapabilities.None? {
      return None;
    }
    AscendingIsCanonical(capabilities);
    forall s | s in repositoryCapabilities.value ensures Canonical(repositoryCapabilities.value[s]) {
      AscendingIsCanonical(repositoryCapabilities.value[s]);
    }
    r := Some(p.(repositories := repositories.value, capabilities := capabilities,
                 repositoryCapabilities := repositoryCapabilities.value));
  }

  /** A capability list as Save writes it: ascending, so without repetitions. */
  ghost predicate Canonical(caps: seq<Capability>) {
    forall i, j | 0 <= i < j < |caps| :: Before(caps[i], caps[j])
  }

  lemma {:induction false} AscendingIsCanonical(caps: seq<Capability>)
    requires Ascending(caps)
    ensures Canonical(caps)
    decreases |caps|
  {
    if caps != [] {
      AscendingIsCanonical(caps[1..]);
      forall i, j | 0 <= i < j < |caps| ensures Before(caps[i], caps[j]) {
        assert caps[j] == caps[1..][j - 1];
        assert i > 0 ==> caps[i] == caps[1..][i - 1];
      }
    }
  }

  /** `q` is `p` as Save writes it. */
  ghost predicate NormalForm(p: Principal, q: Principal) {
    && q.subject == p.subject && q.roles == p.roles
    && SameCapabilities(p.capabilities, q.capabilities) && Canonical(q.capabilities)
    && (forall s | s in q.repositoryCapabilities :: Canonical(q.repositoryCapabilities[s]))
    && Rewritten(p.repositories, q.repositories, PermissionClass, ExplicitKey)
    && Rewritten(p.repositoryCapabilities, q.repositoryCapabilities, CapabilitySet, ExplicitKey)
  }

  // ---- Stable keys keep their meaning ----------------------------------------------------

  /** The key survives respelling: its grant prints to something that reads back as itself. */
  predicate StableKey(key: Text) {
    ParseStored(key).Ok? && Stable(ParseStored(key).grant)
  }

  predicate StableKeys(p: Principal) {
    && (forall k | k in p.repositories :: StableKey(k))
    && (forall k | k in p.repositoryCapabilities :: StableKey(k))
  }

  /** A stable key and its respelling parse alike, under the strict parser too. */
  lemma RespellingParses(key: Text)
    requires ParseStored(key).Ok?
    ensures ExplicitKey(key).Some?
    ensures StableKey(key) <==> ParseStored(ExplicitKey(key).value) == ParseStored(key)
    ensures StableKey(key) <==> ParseRepoGrant(ExplicitKey(key).value, false) == ParseStored(key)
  {
    var g := ParseStored(key).grant;
    ParsedIsWellFormed(key, true);
    GrantRoundTrip(g, true);
    GrantRoundTrip(g, false);
  }

  /** The grant's printed form is accepted by the strict parser, though perhaps as another grant. */
  predicate Readable(g: Grant) {
    match g
    case Identity(host, full) => ValidHost(Host.CanonicalHost(host))
    case Alias(full) => Count(full, '/') == 1 ==> !Tagged(full)
    case Invalid => false
  }

  /** A token file that holds the key's respelling still loads. */
  predicate Reloads(key: Text) {
    ParseStored(key).Ok? && Readable(ParseStored(key).grant)
  }

  predicate ReloadingKeys(p: Principal) {
    && (forall k | k in p.repositories :: Reloads(k))
    && (forall k | k in p.repositoryCapabilities :: Reloads(k))
  }

  /** The exact condition under which Load accepts what Save makes of a key. */
  lemma RespellingAcceptedExactlyWhen(key: Text)
    requires ParseStored(key).Ok?
    ensures ExplicitKey(key).Some?
    ensures ParseRepoGrant(ExplicitKey(key).value, false).Ok? <==> Reloads(key)
    ensures StableKey(key) ==> Reloads(key)
  {
    RespellingParses(key);
    ParsedIsWellFormed(key, true);
    hide ParseRepoGrant;
    match ParseStored(key).grant
    case Identity(host, full) =>
      ParsePrintedIdentity(host, full, false);
    case Alias(full) =>
      AliasRoundTrip(full, false);
      if Count(full, '/') == 1 && Tagged(full) {
        TaggedSlashRejected(full);
      }
  }

  /** Respelling `k` leaves the slot it is filed under alone. */
  ghost predicate KeepsSlot(slot: Text -> Option<Text>, spell: Text -> Option<Text>, k: Text) {
    spell(k).Some? && slot(spell(k).value) == slot(k)
  }

  lemma SlotImage<T, C>(entries: map<Text, T>, out: map<Text, T>, cls: T -> C, spell: Text -> Option<Text>,
                     slot: Text -> Option<Text>, name: Text)
    requires Rewritten(entries, out, cls, spell)
    requires forall k | k in entries :: KeepsSlot(slot, spell, k)
    ensures SlotKeys(out, slot, name) == Spelled(SlotKeys(entries, slot, name), spell)
    ensures SlotKeys(out, slot, name) == {} <==> SlotKeys(entries, slot, name) == {}
  {
    var a, b := SlotKeys(entries, slot, name), SlotKeys(out, slot, name);
    forall k | k in a ensures spell(k).value in b {
      assert KeepsSlot(slot, spell, k);
    }
    forall s | s in b ensures s in Spelled(a, spell) {
      var k :| k in entries && spell(k) == Some(s);
      assert KeepsSlot(slot, spell, k);
      assert k in a;
    }
    if a != {} {
      var k :| k in a;
      assert spell(k).value in b;
    }
  }

  ghost function Spelled(keys: set<Text>, spell: Text -> Option<Text>): set<Text> {
    set k | k in keys && spell(k).Some? :: spell(k).value
  }

  lemma StableKeysKeepSlots(k: Text)
    requires StableKey(k)
    ensures KeepsSlot(IdentitySlot, ExplicitKey, k)
    ensures KeepsSlot(AliasSlot, ExplicitKey, k)
    ensures KeepsSlot(ForgeSlot, ExplicitKey, k)
  {
    RespellingParses(k);
  }

  /** The level a lookup consults after respelling is the respelling of the level it consulted before. */
  lemma ConsultedImage<T, C>(entries: map<Text, T>, out: map<Text, T>, cls: T -> C, grant: Grant, legacy: bool)
    requires Rewritten(entries, out, cls, ExplicitKey) && forall k | k in entries :: StableKey(k)
    ensures Consulted(out, grant, legacy) == Spelled(Consulted(entries, grant, legacy), ExplicitKey)
  {
    forall k | k in entries
      ensures KeepsSlot(IdentitySlot, ExplicitKey, k) && KeepsSlot(AliasSlot, ExplicitKey, k)
              && KeepsSlot(ForgeSlot, ExplicitKey, k)
    {
      StableKeysKeepSlots(k);
    }
    match Normalized(grant)
    case Invalid =>
    case Identity(host, full) =>
      SlotImage(entries, out, cls, ExplicitKey, IdentitySlot, ID(host, full));
      SlotImage(entries, out, cls, ExplicitKey, AliasSlot, full);
    case Alias(full) =>
      SlotImage(entries, out, cls, ExplicitKey, AliasSlot, full);
      SlotImage(entries, out, cls, ExplicitKey, ForgeSlot, full);
  }

  lemma DescribesImage<T, C>(r: Resolution<T>, entries: map<Text, T>, out: map<Text, T>, cls: T -> C,
                                spell: Text -> Option<Text>, keys: set<Text>)
    requires Rewritten(entries, out, cls, spell) && keys <= entries.Keys
    requires Describes(r, entries, cls, keys)
    ensures Spelled(keys, spell) <= out.Keys
    ensures Describes(r, out, cls, Spelled(keys, spell))
  {
    var image := Spelled(keys, spell);
    match r
    case NoEntry =>
    case Found(v) =>
      var k :| k in keys;
      assert spell(k).value in image;
      forall s | s in image ensures cls(out[s]) == cls(v) {
        var j :| j in keys && spell(j) == Some(s);
        assert cls(entries[j]) == cls(out[s]);
      }
    case Conflict =>
      var i, j :| i in keys && j in keys && cls(entries[i]) != cls(entries[j]);
      assert cls(entries[i]) == cls(out[spell(i).value]) && cls(entries[j]) == cls(out[spell(j).value]);
      assert spell(i).value in image && spell(j).value in image;
      assert cls(out[spell(i).value]) != cls(out[spell(j).value]);
  }

  lemma ResolutionImage<T, C>(r: Resolution<T>, s: Resolution<T>, entries: map<Text, T>, out: map<Text, T>, cls: T -> C,
                                 spell: Text -> Option<Text>, before: set<Text>, after: set<Text>)
    requires Rewritten(entries, out, cls, spell)
    requires before <= entries.Keys && after <= out.Keys && after == Spelled(before, spell)
    requires Describes(r, entries, cls, before) && Describes(s, out, cls, after)
    ensures SameResolution(r, s, cls)
  {
    DescribesImage(r, entries, out, cls, spell, before);
    ResolutionIsUnique(r, s, out, cls, after);
  }

  lemma PermissionsImage(p: Principal, q: Principal, grant: Grant, legacy: bool, spell: Text -> Option<Text>,
                         before: set<Text>, after: set<Text>)
    requires Rewritten(p.repositories, q.repositories, PermissionClass, spell)
    requires before == Consulted(p.repositories, grant, legacy) && after == Consulted(q.repositories, grant, legacy)
    requires after == Spelled(before, spell)
    ensures PermissionEntry(p, grant, legacy) == PermissionEntry(q, grant, legacy)
  {
    hide ParseRepoGrant;
    ResolutionImage(PermissionEntry(p, grant, legacy), PermissionEntry(q, grant, legacy),
                    p.repositories, q.repositories, PermissionClass, spell, before, after);
  }

  lemma CapabilitiesImage(p: Principal, q: Principal, grant: Grant, legacy: bool, spell: Text -> Option<Text>,
                          before: set<Text>, after: set<Text>)
    requires Rewritten(p.repositoryCapabilities, q.repositoryCapabilities, CapabilitySet, spell)
    requires before == Consulted(p.repositoryCapabilities, grant, legacy)
    requires after == Consulted(q.repositoryCapabilities, grant, legacy)
    requires after == Spelled(before, spell)
    ensures SameResolution(CapabilityEntry(p, grant, legacy), CapabilityEntry(q, grant, legacy), CapabilitySet)
  {
    hide ParseRepoGrant;
    ResolutionImage(CapabilityEntry(p, grant, legacy), CapabilityEntry(q, grant, legacy),
                    p.repositoryCapabilities, q.repositoryCapabilities, CapabilitySet, spell, before, after);
  }

  lemma EntriesUnchanged(p: Principal, q: Principal, grant: Grant, legacy: bool)
    requires NormalForm(p, q) && StableKeys(p)
    ensures PermissionEntry(p, grant, legacy) == PermissionEntry(q, grant, legacy)
    ensures SameResolution(CapabilityEntry(p, grant, legacy), CapabilityEntry(q, grant, legacy), CapabilitySet)
  {
    hide ParseRepoGrant;
    ConsultedImage(p.repositories, q.repositories, PermissionClass, grant, legacy);
    PermissionsImage(p, q, grant, legacy, ExplicitKey, Consulted(p.repositories, grant, legacy), Consulted(q.repositories, grant, legacy));
    ConsultedImage(p.repositoryCapabilities, q.repositoryCapabilities, CapabilitySet, grant, legacy);
    CapabilitiesImage(p, q, grant, legacy, ExplicitKey,
                      Consulted(p.repositoryCapabilities, grant, legacy), Consulted(q.repositoryCapabilities, grant, legacy));
  }

  lemma GrantDecisionsUnchanged(p: Principal, q: Principal, action: Action, grant: Grant, trusted: bool, legacy: bool)
    requires NormalForm(p, q) && StableKeys(p)
    ensures AuthorizeGrant(p, action, grant, trusted, legacy) == AuthorizeGrant(q, action, grant, trusted, legacy)
  {
    hide ParseRepoGrant, PermissionEntry, CapabilityEntry, StableKeys;
    EntriesUnchanged(p, q, grant, legacy);
  }

  lemma CapabilityEntryUnchanged(p: Principal, q: Principal, capability: Capability, grant: Grant)
    requires NormalForm(p, q) && StableKeys(p)
    ensures CapabilityGranted(p, capability, grant) == CapabilityGranted(q, capability, grant)
  {
    hide ParseRepoGrant;
    EntriesUnchanged(p, q, grant, true);
    var a, b := CapabilityEntry(p, grant, true), CapabilityEntry(q, grant, true);
    if a.Found? {
      SameCapabilitiesSameMembers(a.value, b.value, capability);
    }
  }

  /**
   Saving a principal whose keys are all stable changes no decision: every entry
   point answers as before for every action, capability, repository and trust flag.
   */
  lemma SavePreservesDecisions(p: Principal, q: Principal, action: Action, capability: Capability, repo: Text, grant: Grant,
                               trusted: bool, legacy: bool)
    requires NormalForm(p, q) && StableKeys(p)
    ensures Authorize(p, action, repo, trusted) == Authorize(q, action, repo, trusted)
    ensures AuthorizeGrant(p, action, grant, trusted, legacy) == AuthorizeGrant(q, action, grant, trusted, legacy)
    ensures AuthorizeCapability(p, capability, repo) == AuthorizeCapability(q, capability, repo)
  {
    hide ParseRepoGrant, AuthorizeGrant, CapabilityGranted, StableKeys;
    GrantDecisionsUnchanged(p, q, action, grant, trusted, legacy);
    SameCapabilitiesSameMembers(p.capabilities, q.capabilities, capability);
    if ParseStored(repo).Ok? {
      var g := ParseStored(repo).grant;
      GrantDecisionsUnchanged(p, q, action, g, trusted, true);
      CapabilityEntryUnchanged(p, q, capability, g);
    }
  }

  // ---- Unstable keys do not ---------------------------------------------------------------

  /** A principal without roles over the given keys, allowed to read exactly the grant `g`. */
  ghost function Reader(keys: set<Text>, g: Grant): (p: Principal) {
    Principal([], [], map k | k in keys :: Permission(ParseStored(k) == Ok(g), false, false, false, false, false, false), [], map[])
  }

  /** The level a grant consults first holds only keys of that very grant. */
  lemma ExactLevel<T>(entries: map<Text, T>, g: Grant, k: Text)
    requires WellFormed(g) && k in entries
    ensures g.Identity? ==> (k in SlotKeys(entries, IdentitySlot, ID(g.host, g.full)) <==> ParseStored(k) == Ok(g))
    ensures g.Alias? ==> (k in SlotKeys(entries, AliasSlot, g.full) <==> ParseStored(k) == Ok(g))
    ensures Normalized(g) == g
  {
    if ParseStored(k).Ok? {
      ParsedIsWellFormed(k, true);
      if g.Identity? && IdentitySlot(k) == Some(ID(g.host, g.full)) {
        IDInjective(ParseStored(k).grant, g);
      }
    }
  }

  lemma ReaderMayRead(keys: set<Text>, key: Text)
    requires key in keys && ParseStored(key).Ok?
    ensures Authorize(Reader(keys, ParseStored(key).grant), ActionRead, key, false)
  {
    hide ParseRepoGrant;
    var g := ParseStored(key).grant;
    var p := Reader(keys, g);
    ParsedIsWellFormed(key, true);
    forall k | k in keys
      ensures g.Identity? ==> (k in SlotKeys(p.repositories, IdentitySlot, ID(g.host, g.full)) <==> ParseStored(k) == Ok(g))
      ensures g.Alias? ==> (k in SlotKeys(p.repositories, AliasSlot, g.full) <==> ParseStored(k) == Ok(g))
      ensures Normalized(g) == g
    {
      ExactLevel(p.repositories, g, k);
    }
    var level := Consulted(p.repositories, g, true);
    assert key in level;
    assert forall k | k in level :: ParseStored(k) == Ok(g);
    assert PermissionEntry(p, g, true).Found?;
  }

  /** Saving the reader succeeds: equal spellings come from equal grants. */
  lemma ReaderCanBeSaved(keys: set<Text>, g: Grant)
    requires forall k | k in keys :: ParseStored(k).Ok?
    ensures Collapsible(Reader(keys, g).repositories, PermissionClass, ExplicitKey)
    ensures Collapsible(Reader(keys, g).repositoryCapabilities, CapabilitySet, ExplicitKey)
  {
    forall k | k in keys ensures ExplicitKey(k).Some? {
      RespellingParses(k);
    }
    forall j, k | j in keys && k in keys && ExplicitKey(j) == ExplicitKey(k)
      ensures ParseStored(j) == ParseStored(k)
    {
      SpellingsDetermineGrants(j, k);
    }
  }

  lemma SpellingsDetermineGrants(j: Text, k: Text)
    requires ParseStored(j).Ok? && ParseStored(k).Ok? && ExplicitKey(j) == ExplicitKey(k)
    ensures ParseStored(j) == ParseStored(k)
  {
    ParsedIsWellFormed(j, true);
    ParsedIsWellFormed(k, true);
    RespellingParses(j);
    RespellingParses(k);
    SerializedInjective(ParseStored(j).grant, ParseStored(k).grant);
  }

  /** A key that reads as another grant, and not as the fallback of this one, is not consulted for it. */
  lemma NotConsulted<T>(out: map<Text, T>, g: Grant, s: Text)
    requires WellFormed(g) && ParseStored(s) != Ok(g)
    requires g.Identity? ==> ParseStored(s).Ok? ==> ParseStored(s).grant.Identity?
    requires g.Alias? ==> ParseStored(s).Bad?
    ensures s !in Consulted(out, g, true)
  {
    hide ParseRepoGrant;
    if s in out {
      ExactLevel(out, g, s);
    }
  }

  /** An unstable key's respelling addresses nothing the grant could be decided by. */
  lemma LostSpelling<T>(out: map<Text, T>, key: Text)
    requires ParseStored(key).Ok? && !StableKey(key)
    requires ExplicitKey(key).Some?
    ensures ExplicitKey(key).value !in Consulted(out, ParseStored(key).grant, true)
  {
    hide ParseRepoGrant, Consulted;
    var g := ParseStored(key).grant;
    ParsedIsWellFormed(key, true);
    RespellingParses(key);
    match g {
      case Identity(host, full) =>
        ParsePrintedIdentity(host, full, true);
      case Alias(full) =>
        TaggedSlashRejected(full);
    }
    NotConsulted(out, g, ExplicitKey(key).value);
  }

  lemma ReaderLosesRead(keys: set<Text>, key: Text, q: Principal)
    requires key in keys && (forall k | k in keys :: ParseStored(k).Ok?) && !StableKey(key)
    requires NormalForm(Reader(keys, ParseStored(key).grant), q)
    ensures !Authorize(q, ActionRead, key, false)
  {
    hide ParseRepoGrant;
    var g := ParseStored(key).grant;
    var p := Reader(keys, g);
    RespellingParses(key);
    LostSpelling(q.repositories, key);
    var level := Consulted(q.repositories, g, true);
    forall s | s in level ensures !q.repositories[s].read {
      var k :| k in p.repositories && ExplicitKey(k) == Some(s);
      if ParseStored(k) == Ok(g) {
        assert ExplicitKey(k) == ExplicitKey(key);
      }
    }
    assert RoleAdmin !in q.roles && RoleRead !in q.roles;
  }

  /**
   Rewriting keys is safe for a set of keys exactly when all of them are stable:
   one unstable key is enough for a principal that Save accepts and whose saved
   form is denied a read the original was allowed.
   */
  lemma UnstableKeyChangesADecision(keys: set<Text>, key: Text, q: Principal)
    requires key in keys && (forall k | k in keys :: ParseStored(k).Ok?) && !StableKey(key)
    requires NormalForm(Reader(keys, ParseStored(key).grant), q)
    ensures var p := Reader(keys, ParseStored(key).grant);
            && p.repositories.Keys == keys
            && Collapsible(p.repositories, PermissionClass, ExplicitKey)
            && Collapsible(p.repositoryCapabilities, CapabilitySet, ExplicitKey)
            && Authorize(p, ActionRead, key, false) && !Authorize(q, ActionRead, key, false)
  {
    ReaderCanBeSaved(keys, ParseStored(key).grant);
    ReaderMayRead(keys, key);
    ReaderLosesRead(keys, key, q);
  }

  /** The same, with the save carried out. */
  method SaveLosesARead(keys: set<Text>, key: Text) returns (p: Principal, q: Principal)
    requires key in keys && (forall k | k in keys :: ParseStored(k).Ok?) && !StableKey(key)
    ensures p.repositories.Keys == keys && NormalForm(p, q)
    ensures Authorize(p, ActionRead, key, false) && !Authorize(q, ActionRead, key, false)
  {
    hide NormalForm, Authorize;
    var g := ParseStored(key).grant;
    p := Principal([], [], map k | k in keys :: Permission(ParseStored(k) == Ok(g), false, false, false, false, false, false), [], map[]);
    assert p == Reader(keys, g);
    ReaderCanBeSaved(keys, g);
    var saved := NormalizePrincipal(p);
    q := saved.value;
    UnstableKeyChangesADecision(keys, key, q);
  }

  // ---- The same for capabilities ------------------------------------------------------------

  /** A principal without roles over the given keys that holds the capability `c` for exactly the grant `g`. */
  ghost function Holder(keys: set<Text>, g: Grant, c: Capability): (p: Principal) {
    Principal([], [], map[], [], map k | k in keys :: if ParseStored(k) == Ok(g) then [c] else [])
  }

  lemma HolderHasCapability(keys: set<Text>, key: Text, c: Capability)
    requires key in keys && ParseStored(key).Ok?
    ensures AuthorizeCapability(Holder(keys, ParseStored(key).grant, c), c, key)
  {
    hide ParseRepoGrant;
    var g := ParseStored(key).grant;
    var p := Holder(keys, g, c);
    ParsedIsWellFormed(key, true);
    ParsedIsNotBlank(key, true);
    forall k | k in keys
      ensures g.Identity? ==> (k in SlotKeys(p.repositoryCapabilities, IdentitySlot, ID(g.host, g.full)) <==> ParseStored(k) == Ok(g))
      ensures g.Alias? ==> (k in SlotKeys(p.repositoryCapabilities, AliasSlot, g.full) <==> ParseStored(k) == Ok(g))
      ensures Normalized(g) == g
    {
      ExactLevel(p.repositoryCapabilities, g, k);
    }
    var level := Consulted(p.repositoryCapabilities, g, true);
    assert key in level;
    assert forall k | k in level :: ParseStored(k) == Ok(g);
    assert CapabilityEntry(p, g, true).Found?;
  }

  lemma HolderCanBeSaved(keys: set<Text>, g: Grant, c: Capability)
    requires forall k | k in keys :: ParseStored(k).Ok?
    ensures Collapsible(Holder(keys, g, c).repositories, PermissionClass, ExplicitKey)
    ensures Collapsible(Holder(keys, g, c).repositoryCapabilities, CapabilitySet, ExplicitKey)
  {
    forall k | k in keys ensures ExplicitKey(k).Some? {
      RespellingParses(k);
    }
    forall j, k | j in keys && k in keys && ExplicitKey(j) == ExplicitKey(k)
      ensures ParseStored(j) == ParseStored(k)
    {
      SpellingsDetermineGrants(j, k);
    }
  }

  lemma HolderLosesCapability(keys: set<Text>, key: Text, c: Capability, q: Principal)
    requires key in keys && (forall k | k in keys :: ParseStored(k).Ok?) && !StableKey(key)
    requires NormalForm(Holder(keys, ParseStored(key).grant, c), q)
    ensures !AuthorizeCapability(q, c, key)
  {
    hide ParseRepoGrant;
    var g := ParseStored(key).grant;
    var p := Holder(keys, g, c);
    RespellingParses(key);
    LostSpelling(q.repositoryCapabilities, key);
    var level := Consulted(q.repositoryCapabilities, g, true);
    forall s | s in level ensures c !in q.repositoryCapabilities[s] {
      var k :| k in p.repositoryCapabilities && ExplicitKey(k) == Some(s);
      assert ParseStored(k) == Ok(g) ==> ExplicitKey(k) == ExplicitKey(key);
      SameCapabilitiesSameMembers(p.repositoryCapabilities[k], q.repositoryCapabilities[s], c);
    }
    SameCapabilitiesSameMembers(p.capabilities, q.capabilities, c);
  }

  /** One unstable key is enough for a principal that Save accepts and whose saved form has lost a capability. */
  lemma UnstableKeyLosesACapability(keys: set<Text>, key: Text, c: Capability, q: Principal)
    requires key in keys && (forall k | k in keys :: ParseStored(k).Ok?) && !StableKey(key)
    requires NormalForm(Holder(keys, ParseStored(key).grant, c), q)
    ensures var p := Holder(keys, ParseStored(key).grant, c);
            && p.repositoryCapabilities.Keys == keys
            && Collapsible(p.repositories, PermissionClass, ExplicitKey)
            && Collapsible(p.repositoryCapabilities, CapabilitySet, ExplicitKey)
            && AuthorizeCapability(p, c, key) && !AuthorizeCapability(q, c, key)
  {
    HolderCanBeSaved(keys, ParseStored(key).grant, c);
    HolderHasCapability(keys, key, c);
    HolderLosesCapability(keys, key, c, q);
  }

  /** The same, with the save carried out. */
  method SaveLosesACapability(keys: set<Text>, key: Text, c: Capability) returns (p: Principal, q: Principal)
    requires key in keys && (forall k | k in keys :: ParseStored(k).Ok?) && !StableKey(key)
    ensures p.repositoryCapabilities.Keys == keys && NormalForm(p, q)
    ensures AuthorizeCapability(p, c, key) && !AuthorizeCapability(q, c, key)
  {
    hide NormalForm, AuthorizeCapability;
    var g := ParseStored(key).grant;
    p := Principal([], [], map[], [], map k | k in keys :: if ParseStored(k) == Ok(g) then [c] else []);
    assert p == Holder(keys, g, c);
    HolderCanBeSaved(keys, g, c);
    var saved := NormalizePrincipal(p);
    q := saved.value;
    UnstableKeyLosesACapability(keys, key, c, q);
  }

  // ---- Unstable keys there are --------------------------------------------------------------

  /** Every owner/name that begins with a tag, given in its encoded spelling. */
  lemma TaggedNameIsUnstable(full: Text, legacy: bool)
    requires WellFormed(Alias(full)) && Count(full, '/') == 1 && Tagged(full)
    ensures ParseRepoGrant(AliasPrefix + Encode(full), legacy) == Ok(Alias(full))
    ensures !StableKey(AliasPrefix + Encode(full)) && !Reloads(AliasPrefix + Encode(full))
  {
    ParseEncodedAlias(full, legacy);
    ParseEncodedAlias(full, true);
  }

  lemma TaggedNameExample()
    ensures WellFormed(Alias("r1:x/y")) && Count("r1:x/y", '/') == 1 && Tagged("r1:x/y")
  {
    assert ValidFullName("r1:x/y", false);
    assert Fold("r1:x/y") == "r1:x/y";
    hide ValidFullName, Fold;
    OneSlashExample();
  }

  lemma OneSlashExample()
    ensures Count("r1:x/y", '/') == 1
  {
    assert "r1:x/y" == Joined("r1:x", '/', "y");
    JoinedSplits("r1:x", '/', "y");
    hide Joined, Count, Index, LastIndex;
  }

  /** The encoded identity of a repository over a raw host. */
  function EncodedIdentity(host: Text, full: Text): (r: Text) {
    IdentityPrefix + Joined(Encode(host), ':', Encode(full))
  }

  /** Every repository over a host that canonicalizing twice turns into another one: it reloads as that other repository. */
  lemma DriftingHostIsUnstable(raw: Text, full: Text, legacy: bool)
    requires var once := Host.CanonicalHost(raw);
             raw != [] && ValidHost(once) && ValidHost(Host.CanonicalHost(once)) && Host.CanonicalHost(once) != once
    requires ValidFullName(full, true) && Fold(full) == full
    ensures var (key, once) := (EncodedIdentity(raw, full), Host.CanonicalHost(raw));
            && ParseRepoGrant(key, legacy) == Ok(Identity(once, full)) && ParseStored(key).Ok? && !StableKey(key) && Reloads(key)
            && ExplicitKey(key).Some? && ParseRepoGrant(ExplicitKey(key).value, legacy) == Ok(Identity(Host.CanonicalHost(once), full))
  {
    hide ValidHost, ValidFullName, Fold, Host.CanonicalHost, Host.CanonicalSpelling, ParseRepoGrant, EncodedIdentity, Serialized;
    var (key, once) := (EncodedIdentity(raw, full), Host.CanonicalHost(raw));
    EncodedIdentityParses(raw, full, legacy);
    EncodedIdentityParses(raw, full, true);
    RespellingAcceptedExactlyWhen(key);
    Host.FixedPointsAreCanonicalSpellings(once);
    ParsePrintedIdentity(once, full, legacy);
  }

  lemma SchemedHostDrifts(h: Text, port: Text)
    requires HostForms.LowerName(h) && HostForms.WellKnown(port)
    ensures var once := Host.CanonicalHost("https://" + Joined(h, ':', port));
            once == Joined(h, ':', port) && ValidHost(once) && Host.CanonicalHost(once) == h && ValidHost(h) && h != once
  {
    assert ValidHost(h);
    assert ValidHost(Joined(h, ':', port)) by {
      HostForms.HarmlessHostPort(h, port);
    }
    hide ValidHost, Host.CanonicalHost, Joined;
    HostForms.SchemedHostsDrift(h, port);
  }

  /** Every https host on the http or ssh port is one. */
  lemma SchemedHostIsUnstable(h: Text, port: Text, full: Text, legacy: bool)
    requires HostForms.LowerName(h) && HostForms.WellKnown(port) && ValidFullName(full, true) && Fold(full) == full
    ensures var key := EncodedIdentity("https://" + Joined(h, ':', port), full);
            && ParseRepoGrant(key, legacy) == Ok(Identity(Joined(h, ':', port), full)) && ParseStored(key).Ok?
            && !StableKey(key) && Reloads(key)
            && ExplicitKey(key).Some? && ParseRepoGrant(ExplicitKey(key).value, legacy) == Ok(Identity(h, full))
  {
    hide ValidHost, ValidFullName, Fold, Host.CanonicalHost, ParseRepoGrant, EncodedIdentity, StableKey, Reloads, ExplicitKey;
    SchemedHostDrifts(h, port);
    DriftingHostIsUnstable("https://" + Joined(h, ':', port), full, legacy);
  }

  lemma EncodedIdentityParses(raw: Text, full: Text, legacy: bool)
    requires raw != [] && ValidHost(Host.CanonicalHost(raw)) && ValidFullName(full, true) && Fold(full) == full
    ensures ParseRepoGrant(EncodedIdentity(raw, full), legacy) == Ok(Identity(Host.CanonicalHost(raw), full))
  {
    EncodedPart(raw);
    EncodedPart(full);
    DecodeUndoesEncode(raw);
    DecodeUndoesEncode(full);
    assert full != [];
    hide Encode, Decode, Host.CanonicalHost, ValidHost, ValidFullName, Fold;
    ParseJoinedParts(Encode(raw), Encode(full));
  }

  /** Every repository over a host that is accepted, and no longer is when canonicalized again. */
  lemma VanishingHostDoesNotReload(raw: Text, full: Text, legacy: bool)
    requires raw != [] && ValidHost(Host.CanonicalHost(raw)) && !ValidHost(Host.CanonicalHost(Host.CanonicalHost(raw)))
    requires ValidFullName(full, true) && Fold(full) == full
    ensures var key := EncodedIdentity(raw, full); ParseRepoGrant(key, legacy).Ok? && ParseStored(key).Ok? && !Reloads(key)
  {
    hide ValidHost, ValidFullName, Fold, Host.CanonicalHost, ParseRepoGrant, EncodedIdentity;
    EncodedIdentityParses(raw, full, legacy);
    EncodedIdentityParses(raw, full, true);
  }

  /** Two dots are such a host. */
  lemma TwoDotsVanish()
    ensures ValidHost(Host.CanonicalHost("..")) && !ValidHost(Host.CanonicalHost(Host.CanonicalHost("..")))
  {
    hide Host.CanonicalHost;
    HostForms.OnlyDotsVanish();
  }
}
