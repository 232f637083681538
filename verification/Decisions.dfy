/** Authorization decisions over resolved grants (internal/auth/rbac.go, capability.go). */
module Decisions {
  import opened Strings
  import opened RepoGrant
  import opened Rbac

  predicate SamePermission(a: Permission, b: Permission) { a == b }

  /** Permission sets are compared field by field: the class of a permission set is itself. */
  function PermissionClass(p: Permission): Permission { p }

  /** The set form of a capability list: the class sameCapabilitySet compares. */
  function CapabilitySet(caps: seq<Capability>): (r: set<Capability>)
    ensures forall c :: c in r <==> c in caps
  {
    set c | c in caps
  }

  /** sameCapabilitySet: order and duplicates are irrelevant. */
  predicate SameCapabilities(a: seq<Capability>, b: seq<Capability>) {
    CapabilitySet(a) == CapabilitySet(b)
  }

  lemma SameCapabilitiesSameMembers(a: seq<Capability>, b: seq<Capability>, c: Capability)
    requires SameCapabilities(a, b)
    ensures c in a <==> c in b
  {
    assert c in CapabilitySet(a) <==> c in CapabilitySet(b);
  }

  ghost function PermissionEntry(p: Principal, grant: Grant, legacy: bool): (r: Resolution<Permission>)
  {
    Resolve(p.repositories, PermissionClass, grant, legacy)
  }

  ghost function CapabilityEntry(p: Principal, grant: Grant, legacy: bool): (r: Resolution<seq<Capability>>)
  {
    Resolve(p.repositoryCapabilities, CapabilitySet, grant, legacy)
  }

  predicate GlobalRoles(p: Principal, action: Action, trusted: bool) {
    match action
    case ActionRead => RoleRead in p.roles
    case ActionRun => (if trusted then RoleTrustedRun else RoleRun) in p.roles
    case ActionTrustedRun => RoleTrustedRun in p.roles
    case ActionApprove => RoleApprove in p.roles
    case ActionCancel => RoleCancel in p.roles
    case ActionRerun => RoleRerun in p.roles
    case ActionArtifactRead => RoleArtifactRead in p.roles
    case ActionRunnerManage => RoleRunnerManage in p.roles
    case ActionPolicyManage => RolePolicyManage in p.roles
    case ActionAdmin => false
    case OtherAction(_) => false
  }

  /** The decision once the repository map has been consulted. */
  predicate Decide(p: Principal, action: Action, entry: Resolution<Permission>, trusted: bool) {
    if RoleAdmin in p.roles then true
    else
      match entry
      case Conflict => false
      case NoEntry => GlobalRoles(p, action, trusted)
      case Found(perm) =>
        match action
        case ActionRead => perm.read
        case ActionRun => if trusted then perm.trustedRun else perm.run
        case ActionTrustedRun => perm.trustedRun
        case ActionApprove => perm.approve
        case ActionCancel => perm.cancel
        case ActionRerun => perm.rerun
        case ActionArtifactRead => perm.artifactRead
        case _ => GlobalRoles(p, action, trusted)
  }

  ghost predicate AuthorizeGrant(p: Principal, action: Action, grant: Grant, trusted: bool, legacy: bool) {
    Decide(p, action, PermissionEntry(p, grant, legacy), trusted)
  }

  /** Authorize on a repository string. */
  ghost predicate Authorize(p: Principal, action: Action, repo: Text, trusted: bool) {
    if RoleAdmin in p.roles then true
    else
      match ParseStored(repo)
      case Bad(_) => TrimSpace(repo) == [] && GlobalRoles(p, action, trusted)
      case Ok(grant) => AuthorizeGrant(p, action, grant, trusted, true)
  }

  ghost predicate AuthorizeAlias(p: Principal, action: Action, full: Text, trusted: bool) {
    AuthorizeGrant(p, action, Alias(full), trusted, false)
  }

  ghost predicate CapabilityGranted(p: Principal, capability: Capability, grant: Grant) {
    var entry := CapabilityEntry(p, grant, true);
    entry.Found? && capability in entry.value
  }

  ghost predicate AuthorizeCapability(p: Principal, capability: Capability, repo: Text) {
    || RoleAdmin in p.roles
    || capability in p.capabilities
    || (&& TrimSpace(repo) != []
        && ParseStored(repo).Ok?
        && CapabilityGranted(p, capability, ParseStored(repo).grant))
  }

  // ---- The decision procedures, walking the maps in any order -------------------------

  method AuthorizeGrantMode(p: Principal, action: Action, grant: Grant, trusted: bool, legacy: bool) returns (ok: bool)
    ensures ok == AuthorizeGrant(p, action, grant, trusted, legacy)
  {
    if RoleAdmin in p.roles {
      return true;
    }
    var entry := ResolveRepoGrantEntries(p.repositories, SamePermission, PermissionClass, grant, legacy);
    ResolutionIsUnique(entry, PermissionEntry(p, grant, legacy), p.repositories, PermissionClass,
                       Consulted(p.repositories, grant, legacy));
    ok := Decide(p, action, entry, trusted);
  }

  method AuthorizeString(p: Principal, action: Action, repo: Text, trusted: bool) returns (ok: bool)
    ensures ok == Authorize(p, action, repo, trusted)
  {
    if RoleAdmin in p.roles {
      return true;
    }
    match ParseStored(repo)
    case Bad(_) =>
      ok := TrimSpace(repo) == [] && GlobalRoles(p, action, trusted);
    case Ok(grant) =>
      ok := AuthorizeGrantMode(p, action, grant, trusted, true);
  }

  method AuthorizeCapabilityString(p: Principal, capability: Capability, repo: Text) returns (ok: bool)
    ensures ok == AuthorizeCapability(p, capability, repo)
  {
    if RoleAdmin in p.roles || capability in p.capabilities {
      return true;
    }
    if TrimSpace(repo) == [] || ParseStored(repo).Bad? {
      return false;
    }
    var grant := ParseStored(repo).grant;
    var entry := ResolveRepoGrantEntries(p.repositoryCapabilities, SameCapabilities, CapabilitySet, grant, true);
    var spec := CapabilityEntry(p, grant, true);
    ResolutionIsUnique(entry, spec, p.repositoryCapabilities, CapabilitySet,
                       Consulted(p.repositoryCapabilities, grant, true));
    if entry.Found? {
      SameCapabilitiesSameMembers(entry.value, spec.value, capability);
    }
    ok := entry.Found? && capability in entry.value;
  }

  // ---- Disagreement fails closed -------------------------------------------------------

  /**
   Two different permission sets at the level of keys a grant consults deny it
   every action to everyone but an admin, whatever roles the principal holds.
   */
  lemma ConflictDenies(p: Principal, action: Action, grant: Grant, trusted: bool, legacy: bool, j: Text, k: Text)
    requires RoleAdmin !in p.roles
    requires j in Consulted(p.repositories, grant, legacy) && k in Consulted(p.repositories, grant, legacy)
    requires p.repositories[j] != p.repositories[k]
    ensures !AuthorizeGrant(p, action, grant, trusted, legacy)
  {
    var entry := PermissionEntry(p, grant, legacy);
    assert PermissionClass(p.repositories[j]) != PermissionClass(p.repositories[k]);
    assert entry.Conflict?;
  }

  /**
   A host-less lookup through the typed entry point never borrows an identity
   key: only bare keys of exactly that name can decide it.
   */
  lemma TypedAliasIgnoresIdentities(p: Principal, q: Principal, action: Action, full: Text, trusted: bool)
    requires p.roles == q.roles
    requires forall k :: AliasSlot(k).Some? ==> (k in p.repositories <==> k in q.repositories)
    requires forall k :: AliasSlot(k).Some? && k in p.repositories && k in q.repositories ==> p.repositories[k] == q.repositories[k]
    ensures AuthorizeAlias(p, action, full, trusted) == AuthorizeAlias(q, action, full, trusted)
  {
    var keys := Consulted(p.repositories, Alias(full), false);
    assert Consulted(q.repositories, Alias(full), false) == keys;
    var r, s := PermissionEntry(p, Alias(full), false), PermissionEntry(q, Alias(full), false);
    assert Describes(s, p.repositories, PermissionClass, keys) by {
      assert forall k | k in keys :: p.repositories[k] == q.repositories[k];
      if s.Conflict? {
        var a, b :| a in keys && b in keys && PermissionClass(q.repositories[a]) != PermissionClass(q.repositories[b]);
        assert PermissionClass(p.repositories[a]) != PermissionClass(p.repositories[b]);
      }
    }
    ResolutionIsUnique(r, s, p.repositories, PermissionClass, keys);
  }
}
