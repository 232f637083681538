/** Repository grant resolution and authorization (internal/auth/rbac.go, capability.go). */
module Rbac {
  import opened Strings
  import opened Base64
  import opened RepoGrant

  datatype Role =
    | RoleRead | RoleRun | RoleTrustedRun | RoleApprove | RoleCancel | RoleRerun
    | RoleArtifactRead | RoleRunnerManage | RolePolicyManage | RoleAdmin | OtherRole(name: Text)

  datatype Action =
    | ActionRead | ActionRun | ActionTrustedRun | ActionApprove | ActionCancel | ActionRerun
    | ActionArtifactRead | ActionRunnerManage | ActionPolicyManage | ActionAdmin | OtherAction(name: Text)

  /** A capability is its name; these are the known ones. */
  type Capability = Text

  const KNOWN_CAPABILITIES: seq<Capability> :=
    ["execution.events:read", "evidence:read", "checkpoints:read", "runs:cancel", "graph.mutations:write"]

  datatype Permission = Permission(
    read: bool, run: bool, trustedRun: bool, approve: bool, cancel: bool, rerun: bool, artifactRead: bool)

  datatype Principal = Principal(
    subject: Text,
    roles: seq<Role>,
    repositories: map<Text, Permission>,
    capabilities: seq<Capability>,
    repositoryCapabilities: map<Text, seq<Capability>>)

  /** How a repository map resolved a grant. */
  datatype Resolution<T> = NoEntry | Found(value: T) | Conflict

  // ---- Which keys a lookup consults ----------------------------------------------

  /** The canonical ID an identity key addresses. */
  function IdentitySlot(key: Text): (r: Option<Text>) {
    var p := ParseStored(key);
    if p.Ok? && p.grant.Identity? then Some(ID(p.grant.host, p.grant.full)) else None
  }

  /** The full name a bare key addresses. */
  function AliasSlot(key: Text): (r: Option<Text>) {
    var p := ParseStored(key);
    if p.Ok? && p.grant.Alias? then Some(p.grant.full) else None
  }

  /** The full name an identity key presents, whatever its forge. */
  function ForgeSlot(key: Text): (r: Option<Text>) {
    var p := ParseStored(key);
    if p.Ok? && p.grant.Identity? then Some(p.grant.full) else None
  }

  ghost function SlotKeys<T>(entries: map<Text, T>, slot: Text -> Option<Text>, name: Text): set<Text> {
    set k | k in entries && slot(k) == Some(name)
  }

  /** The first non-empty level of keys: the ones that decide the lookup. */
  ghost function Consulted<T>(entries: map<Text, T>, grant: Grant, legacy: bool): set<Text> {
    match Normalized(grant)
    case Invalid => {}
    case Identity(host, full) =>
      var exact := SlotKeys(entries, IdentitySlot, ID(host, full));
      if exact != {} then exact else SlotKeys(entries, AliasSlot, full)
    case Alias(full) =>
      var exact := SlotKeys(entries, AliasSlot, full);
      if exact != {} then exact else if legacy then SlotKeys(entries, ForgeSlot, full) else {}
  }

  // ---- The declarative meaning of a resolution --------------------------------------

  ghost predicate Equivalence<T(!new)>(equal: (T, T) -> bool) {
    && (forall a :: equal(a, a))
    && (forall a, b :: equal(a, b) ==> equal(b, a))
    && (forall a, b, c :: equal(a, b) && equal(b, c) ==> equal(a, c))
  }

  /** `equal` says that two values have the same class. */
  ghost predicate Kernel<T(!new), C>(equal: (T, T) -> bool, cls: T -> C) {
    forall a, b :: equal(a, b) <==> cls(a) == cls(b)
  }

  /** Every equivalence is such a comparison, so stating results by classes loses no generality. */
  lemma EquivalenceIsKernel<T(!new)>(equal: (T, T) -> bool)
    requires Equivalence(equal)
    ensures Kernel(equal, (a: T) => iset b | equal(a, b))
  {
    var cls := (a: T) => iset b | equal(a, b);
    forall a, b ensures equal(a, b) <==> cls(a) == cls(b) {
      if cls(a) == cls(b) {
        assert b in cls(b);
      }
    }
  }

  /** `r` is what the entries at `keys` say: nothing, one common value, or a disagreement. */
  ghost predicate Describes<T, C>(r: Resolution<T>, entries: map<Text, T>, cls: T -> C, keys: set<Text>)
    requires keys <= entries.Keys
  {
    match r
    case NoEntry => keys == {}
    case Found(v) => keys != {} && forall k | k in keys :: cls(entries[k]) == cls(v)
    case Conflict => exists j, k :: j in keys && k in keys && cls(entries[j]) != cls(entries[k])
  }

  ghost predicate SameResolution<T, C>(r: Resolution<T>, s: Resolution<T>, cls: T -> C) {
    match r
    case NoEntry => s.NoEntry?
    case Found(v) => s.Found? && cls(v) == cls(s.value)
    case Conflict => s.Conflict?
  }

  /** Two resolutions of the same keys agree, whatever order produced them. */
  lemma ResolutionIsUnique<T, C>(r: Resolution<T>, s: Resolution<T>, entries: map<Text, T>, cls: T -> C, keys: set<Text>)
    requires keys <= entries.Keys
    requires Describes(r, entries, cls, keys) && Describes(s, entries, cls, keys)
    ensures SameResolution(r, s, cls)
  {
    if r.Found? && s.Found? {
      var k :| k in keys;
      assert cls(entries[k]) == cls(r.value) && cls(entries[k]) == cls(s.value);
    }
  }

  /** The resolution of a level, as a function of the entries alone. */
  ghost function Level<T, C>(entries: map<Text, T>, cls: T -> C, keys: set<Text>): (r: Resolution<T>)
    requires keys <= entries.Keys
    ensures Describes(r, entries, cls, keys)
  {
    if keys == {} then NoEntry
    else if exists j, k :: j in keys && k in keys && cls(entries[j]) != cls(entries[k]) then Conflict
    else var k :| k in keys; Found(entries[k])
  }

  ghost function Resolve<T, C>(entries: map<Text, T>, cls: T -> C, grant: Grant, legacy: bool): (r: Resolution<T>)
    ensures Describes(r, entries, cls, Consulted(entries, grant, legacy))
  {
    Level(entries, cls, Consulted(entries, grant, legacy))
  }

  // ---- resolveRepoGrantEntries --------------------------------------------------------

  /** The `record` closure: first value under a key wins, a different later one is a conflict. */
  method Record<T(!new), C>(m: map<Text, T>, conflicts: set<Text>, equal: (T, T) -> bool, ghost cls: T -> C, key: Text, value: T)
    returns (m': map<Text, T>, conflicts': set<Text>)
    requires Kernel(equal, cls)
    ensures key in m ==> m' == m && conflicts' == (if cls(m[key]) == cls(value) then conflicts else conflicts + {key})
    ensures key !in m ==> m' == m[key := value] && conflicts' == conflicts
  {
    m', conflicts' := m, conflicts;
    if key in m {
      if !equal(m[key], value) {
        conflicts' := conflicts + {key};
      }
    } else {
      m' := m[key := value];
    }
  }

  function Lookup<T>(m: map<Text, T>, conflicts: set<Text>, key: Text): (r: Resolution<T>) {
    if key in conflicts then Conflict else if key in m then Found(m[key]) else NoEntry
  }

  /** Every slot of the table says what the entries seen so far say. */
  ghost predicate Table<T, C>(m: map<Text, T>, conflicts: set<Text>, cls: T -> C, seen: map<Text, T>, slot: Text -> Option<Text>) {
    forall name :: Describes(Lookup(m, conflicts, name), seen, cls, SlotKeys(seen, slot, name))
  }

  lemma RecordKeepsTable<T, C>(m: map<Text, T>, c: set<Text>, m': map<Text, T>, c': set<Text>,
                                  cls: T -> C, seen: map<Text, T>, slot: Text -> Option<Text>, k: Text, v: T, name: Text)
    requires Table(m, c, cls, seen, slot) && k !in seen && slot(k) == Some(name)
    requires name in m ==> m' == m && c' == (if cls(m[name]) == cls(v) then c else c + {name})
    requires name !in m ==> m' == m[name := v] && c' == c
    ensures Table(m', c', cls, seen[k := v], slot)
  {
    var seen' := seen[k := v];
    forall n ensures Describes(Lookup(m', c', n), seen', cls, SlotKeys(seen', slot, n)) {
      var before, after := SlotKeys(seen, slot, n), SlotKeys(seen', slot, n);
      assert Describes(Lookup(m, c, n), seen, cls, before);
      if n != name {
        assert after == before;
        assert Lookup(m', c', n) == Lookup(m, c, n);
      } else {
        assert after == before + {k};
        match Lookup(m, c, n)
        case NoEntry =>
        case Found(u) =>
          if cls(u) != cls(v) {
            var j :| j in before;
            assert cls(seen'[j]) == cls(u);
            assert cls(seen'[j]) != cls(seen'[k]);
          }
        case Conflict =>
          var i, j :| i in before && j in before && cls(seen[i]) != cls(seen[j]);
          assert cls(seen'[i]) != cls(seen'[j]);
      }
    }
  }

  lemma SkipKeepsTable<T, C>(m: map<Text, T>, c: set<Text>, cls: T -> C, seen: map<Text, T>, slot: Text -> Option<Text>, k: Text, v: T)
    requires Table(m, c, cls, seen, slot) && k !in seen && slot(k) == None
    ensures Table(m, c, cls, seen[k := v], slot)
  {
    var seen' := seen[k := v];
    forall n ensures Describes(Lookup(m, c, n), seen', cls, SlotKeys(seen', slot, n)) {
      assert SlotKeys(seen', slot, n) == SlotKeys(seen, slot, n);
      assert Describes(Lookup(m, c, n), seen, cls, SlotKeys(seen, slot, n));
    }
  }

  /** The name of an entry is a function of its ID, so the ID table refines the name level. */
  ghost predicate SlotsAgree(id: Text -> Option<Text>, name: Text -> Option<Text>, nameOf: Text -> Text) {
    forall k :: name(k) == if id(k).Some? then Some(nameOf(id(k).value)) else None
  }

  /** Some key of `seen` carries the ID `i` and presents the name `n`. */
  ghost predicate Presented<T>(seen: map<Text, T>, id: Text -> Option<Text>, name: Text -> Option<Text>, n: Text, i: Text) {
    exists k :: k in seen && name(k) == Some(n) && id(k) == Some(i)
  }

  ghost predicate ForgeTable<T>(forges: map<Text, set<Text>>, seen: map<Text, T>, id: Text -> Option<Text>, name: Text -> Option<Text>) {
    && (forall k | k in seen && name(k).Some? && id(k).Some? ::
          name(k).value in forges && id(k).value in forges[name(k).value])
    && (forall n, i | n in forges && i in forges[n] :: Presented(seen, id, name, n, i))
  }

  /** A running merge over the keys `done`: the first value met, and whether a later one differed. */
  ghost predicate Merged<T, C>(r: Resolution<T>, ambiguous: bool, entries: map<Text, T>, cls: T -> C, done: set<Text>)
    requires done <= entries.Keys
  {
    match r
    case NoEntry => done == {} && !ambiguous
    case Found(v) =>
      && (exists j :: j in done && cls(entries[j]) == cls(v))
      && Describes(if ambiguous then Conflict else r, entries, cls, done)
    case Conflict => false
  }

  lemma MergeStep<T, C>(r: Resolution<T>, ambiguous: bool, entries: map<Text, T>, cls: T -> C, done: set<Text>, at: set<Text>, v: T)
    requires done <= entries.Keys && at <= entries.Keys
    requires Merged(r, ambiguous, entries, cls, done) && Describes(Found(v), entries, cls, at)
    ensures r.NoEntry? ==> Merged(Found(v), false, entries, cls, done + at)
    ensures r.Found? ==> Merged(r, ambiguous || cls(v) != cls(r.value), entries, cls, done + at)
  {
    var k :| k in at;
    assert cls(entries[k]) == cls(v);
    if r.Found? {
      var j :| j in done && cls(entries[j]) == cls(r.value);
      if ambiguous {
        var a, b :| a in done && b in done && cls(entries[a]) != cls(entries[b]);
        assert a in done + at && b in done + at;
      } else if cls(v) != cls(r.value) {
        assert j in done + at && k in done + at && cls(entries[j]) != cls(entries[k]);
      }
    }
  }

  /** The keys presenting `full` whose ID has been visited. */
  ghost function Visited<T>(entries: map<Text, T>, id: Text -> Option<Text>, name: Text -> Option<Text>, full: Text,
                            todo: set<Text>): (r: set<Text>)
    ensures r <= entries.Keys
  {
    set k | k in entries && name(k) == Some(full) && id(k).Some? && id(k).value !in todo
  }

  lemma VisitOne<T>(entries: map<Text, T>, id: Text -> Option<Text>, name: Text -> Option<Text>, nameOf: Text -> Text,
                    forges: map<Text, set<Text>>, full: Text, todo: set<Text>, i: Text)
    requires SlotsAgree(id, name, nameOf) && ForgeTable(forges, entries, id, name)
    requires full in forges && todo <= forges[full] && i in todo
    ensures SlotKeys(entries, id, i) <= SlotKeys(entries, name, full)
    ensures Visited(entries, id, name, full, todo - {i}) ==
            Visited(entries, id, name, full, todo) + SlotKeys(entries, id, i)
    ensures SlotKeys(entries, id, i) != {}
  {
    assert i in forges[full];
    assert Presented(entries, id, name, full, i);
    var j :| j in entries && name(j) == Some(full) && id(j) == Some(i);
    assert j in SlotKeys(entries, id, i);
    assert nameOf(i) == full;
  }

  lemma VisitAll<T>(entries: map<Text, T>, id: Text -> Option<Text>, name: Text -> Option<Text>, nameOf: Text -> Text,
                    forges: map<Text, set<Text>>, full: Text)
    requires SlotsAgree(id, name, nameOf) && ForgeTable(forges, entries, id, name)
    ensures Visited(entries, id, name, full, {}) == SlotKeys(entries, name, full)
    ensures Visited(entries, id, name, full, if full in forges then forges[full] else {}) == {}
  {
  }

  lemma ConflictSpreads<T, C>(entries: map<Text, T>, cls: T -> C, at: set<Text>, keys: set<Text>)
    requires at <= keys <= entries.Keys && Describes(Conflict, entries, cls, at)
    ensures Describes(Conflict, entries, cls, keys)
  {
  }

  /** resolveAliasToIdentity: one common value among the identity keys presenting a bare name. */
  method ResolveAliasToIdentity<T(!new), C>(identities: map<Text, T>, conflicts: set<Text>, forges: map<Text, set<Text>>,
                                         ghost entries: map<Text, T>, equal: (T, T) -> bool, ghost cls: T -> C,
                                         ghost id: Text -> Option<Text>, ghost name: Text -> Option<Text>,
                                         ghost nameOf: Text -> Text, full: Text)
    returns (r: Resolution<T>)
    requires Kernel(equal, cls) && SlotsAgree(id, name, nameOf)
    requires Table(identities, conflicts, cls, entries, id) && ForgeTable(forges, entries, id, name)
    ensures Describes(r, entries, cls, SlotKeys(entries, name, full))
  {
    VisitAll(entries, id, name, nameOf, forges, full);
    r := NoEntry;
    if full !in forges {
      return;
    }
    var todo := forges[full];
    var ambiguous := false;
    while todo != {}
      invariant todo <= forges[full]
      invariant Merged(r, ambiguous, entries, cls, Visited(entries, id, name, full, todo))
      decreases |todo|
    {
      var i :| i in todo;
      ghost var at := SlotKeys(entries, id, i);
      VisitOne(entries, id, name, nameOf, forges, full, todo, i);
      var one := Lookup(identities, conflicts, i);
      assert Describes(one, entries, cls, at);
      if one.Conflict? {
        ConflictSpreads(entries, cls, at, SlotKeys(entries, name, full));
        return Conflict;
      }
      MergeStep(r, ambiguous, entries, cls, Visited(entries, id, name, full, todo), at, one.value);
      if r.NoEntry? {
        r := one;
      } else if !equal(one.value, r.value) {
        ambiguous := true;
      }
      todo := todo - {i};
    }
    if ambiguous {
      return Conflict;
    }
  }

  /** The name part of a canonical ID. */
  function NameOfID(id: Text): (r: Text) {
    var slash := Index(id, '/');
    if slash >= 0 then id[slash + 1..] else id
  }

  lemma IDSplits(host: Text, full: Text)
    requires WellFormed(Identity(host, full))
    ensures NameOfID(ID(host, full)) == full
  {
    assert '/' !in host;
    JoinedSplits(host, '/', full);
  }

  lemma ParsedSlotsAgree()
    ensures SlotsAgree(IdentitySlot, ForgeSlot, NameOfID)
  {
    forall k
      ensures ForgeSlot(k) == if IdentitySlot(k).Some? then Some(NameOfID(IdentitySlot(k).value)) else None
    {
      var p := ParseStored(k);
      if p.Ok? && p.grant.Identity? {
        ParsedIsWellFormed(k, true);
        IDSplits(p.grant.host, p.grant.full);
      }
    }
  }

  lemma StillPresented<T>(seen: map<Text, T>, id: Text -> Option<Text>, name: Text -> Option<Text>, k: Text, v: T, n: Text, i: Text)
    ensures Presented(seen, id, name, n, i) ==> Presented(seen[k := v], id, name, n, i)
    ensures id(k) == Some(i) && name(k) == Some(n) ==> Presented(seen[k := v], id, name, n, i)
  {
    if Presented(seen, id, name, n, i) {
      var j :| j in seen && name(j) == Some(n) && id(j) == Some(i);
      assert j in seen[k := v];
    }
    assert k in seen[k := v];
  }

  lemma ForgeTableStep<T>(forges: map<Text, set<Text>>, seen: map<Text, T>, id: Text -> Option<Text>,
                          name: Text -> Option<Text>, k: Text, v: T)
    requires ForgeTable(forges, seen, id, name) && k !in seen
    ensures id(k).None? ==> ForgeTable(forges, seen[k := v], id, name)
    ensures id(k).Some? && name(k).Some? ==>
              var n := name(k).value;
              ForgeTable(forges[n := (if n in forges then forges[n] else {}) + {id(k).value}], seen[k := v], id, name)
  {
    forall n, i
      ensures Presented(seen, id, name, n, i) ==> Presented(seen[k := v], id, name, n, i)
      ensures id(k) == Some(i) && name(k) == Some(n) ==> Presented(seen[k := v], id, name, n, i)
    {
      StillPresented(seen, id, name, k, v, n, i);
    }
  }

  /** The loop of resolveRepoGrantEntries over the map, in any order. */
  method BuildTables<T(!new), C>(entries: map<Text, T>, equal: (T, T) -> bool, ghost cls: T -> C,
                              id: Text -> Option<Text>, alias: Text -> Option<Text>, name: Text -> Option<Text>)
    returns (identities: map<Text, T>, idConflicts: set<Text>, aliases: map<Text, T>, aliasConflicts: set<Text>,
             forges: map<Text, set<Text>>)
    requires Kernel(equal, cls) && forall k :: id(k).Some? ==> name(k).Some? && alias(k).None?
    ensures Table(identities, idConflicts, cls, entries, id)
    ensures Table(aliases, aliasConflicts, cls, entries, alias)
    ensures ForgeTable(forges, entries, id, name)
  {
    identities, idConflicts, aliases, aliasConflicts, forges := map[], {}, map[], {}, map[];
    var todo := entries.Keys;
    ghost var seen: map<Text, T> := map[];
    while todo != {}
      invariant todo <= entries.Keys && seen == map k | k in entries.Keys - todo :: entries[k]
      invariant Table(identities, idConflicts, cls, seen, id)
      invariant Table(aliases, aliasConflicts, cls, seen, alias)
      invariant ForgeTable(forges, seen, id, name)
      decreases |todo|
    {
      var key :| key in todo;
      var value := entries[key];
      ghost var m, c := identities, idConflicts;
      ForgeTableStep(forges, seen, id, name, key, value);
      if alias(key).Some? {
        ghost var ma, ca := aliases, aliasConflicts;
        aliases, aliasConflicts := Record(aliases, aliasConflicts, equal, cls, alias(key).value, value);
        RecordKeepsTable(ma, ca, aliases, aliasConflicts, cls, seen, alias, key, value, alias(key).value);
        SkipKeepsTable(identities, idConflicts, cls, seen, id, key, value);
      } else if id(key).Some? {
        identities, idConflicts := Record(identities, idConflicts, equal, cls, id(key).value, value);
        RecordKeepsTable(m, c, identities, idConflicts, cls, seen, id, key, value, id(key).value);
        SkipKeepsTable(aliases, aliasConflicts, cls, seen, alias, key, value);
        var n := name(key).value;
        forges := forges[n := (if n in forges then forges[n] else {}) + {id(key).value}];
      } else {
        SkipKeepsTable(identities, idConflicts, cls, seen, id, key, value);
        SkipKeepsTable(aliases, aliasConflicts, cls, seen, alias, key, value);
      }
      todo := todo - {key};
      seen := seen[key := value];
    }
    assert seen == entries;
  }

  /**
   resolveRepoGrantEntries. Whatever order the map is walked in, the answer is
   what the entries at the first non-empty level of keys say.
   */
  method ResolveRepoGrantEntries<T(!new), C>(entries: map<Text, T>, equal: (T, T) -> bool, ghost cls: T -> C, grant: Grant, legacy: bool)
    returns (r: Resolution<T>)
    requires Kernel(equal, cls)
    ensures Describes(r, entries, cls, Consulted(entries, grant, legacy))
  {
    if grant.Invalid? {
      return NoEntry;
    }
    ParsedSlotsAgree();
    var identities, idConflicts, aliases, aliasConflicts, forges :=
      BuildTables(entries, equal, cls, IdentitySlot, AliasSlot, ForgeSlot);
    match Normalized(grant)
    case Alias(full) =>
      r := Lookup(aliases, aliasConflicts, full);
      assert Describes(r, entries, cls, SlotKeys(entries, AliasSlot, full));
      if r.NoEntry? && legacy {
        r := ResolveAliasToIdentity(identities, idConflicts, forges, entries, equal, cls, IdentitySlot, ForgeSlot, NameOfID, full);
      }
    case Identity(host, full) =>
      r := Lookup(identities, idConflicts, ID(host, full));
      assert Describes(r, entries, cls, SlotKeys(entries, IdentitySlot, ID(host, full)));
      if r.NoEntry? {
        r := Lookup(aliases, aliasConflicts, full);
      }
  }
}
