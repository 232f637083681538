/**
 What the decisions of internal/auth/rbac.go and capability.go come to for a
 caller: which keys speak for a repository, which permission and which role an
 action needs, and which capabilities a principal has.
 */
module DecisionLaws {
  import opened Strings
  import opened RepoGrant
  import opened Rbac
  import opened Decisions
  import SaveKeys

  // ---- Which keys speak for a repository ----------------------------------------------------

  /** Some key of the map is read as exactly this grant. */
  ghost predicate Mentions<T>(entries: map<Text, T>, g: Grant) {
    exists j :: j in entries && ParseStored(j) == Ok(g)
  }

  /**
   An identity is decided by the keys read as that identity; without any, by the
   bare keys of its name, on whatever forge it is. A bare name is decided by the
   bare keys of that name; without any, and only for a string of unknown host, by
   the identities of that name on any forge.
   */
  lemma ConsultedExactly<T>(entries: map<Text, T>, g: Grant, legacy: bool, k: Text)
    requires WellFormed(g)
    ensures g.Identity? ==>
              (k in Consulted(entries, g, legacy) <==>
               && k in entries
               && (ParseStored(k) == Ok(g) || (ParseStored(k) == Ok(Alias(g.full)) && !Mentions(entries, g))))
    ensures g.Alias? ==>
              (k in Consulted(entries, g, legacy) <==>
               && k in entries
               && (|| ParseStored(k) == Ok(g)
                   || (&& legacy && !Mentions(entries, g)
                       && ParseStored(k).Ok? && ParseStored(k).grant.Identity? && ParseStored(k).grant.full == g.full)))
  {
    hide ParseRepoGrant;
    var exact := if g.Identity? then SlotKeys(entries, IdentitySlot, ID(g.host, g.full)) else SlotKeys(entries, AliasSlot, g.full);
    forall j | j in entries ensures j in exact <==> ParseStored(j) == Ok(g) {
      SaveKeys.ExactLevel(entries, g, j);
    }
    assert exact != {} <==> Mentions(entries, g) by {
      if j :| j in exact {
        assert j in entries && ParseStored(j) == Ok(g);
      }
    }
    assert Normalized(g) == g;
  }

  /** Names are looked up without regard to case. */
  lemma CaseMakesNoDifference<T>(entries: map<Text, T>, host: Text, full: Text, other: Text, legacy: bool)
    requires |full| == |other| && forall i | 0 <= i < |full| :: LowerByte(full[i]) == LowerByte(other[i])
    ensures Consulted(entries, Identity(host, full), legacy) == Consulted(entries, Identity(host, other), legacy)
    ensures Consulted(entries, Alias(full), legacy) == Consulted(entries, Alias(other), legacy)
  {
    assert Fold(full) == Fold(other);
  }

  /** The only entry of a map decides its own repository. */
  lemma OnlyKeyIsConsulted<T>(key: Text, value: T, legacy: bool)
    requires ParseStored(key).Ok?
    ensures Consulted(map[key := value], ParseStored(key).grant, legacy) == {key}
  {
    hide ParseRepoGrant, Consulted;
    var (entries, g) := (map[key := value], ParseStored(key).grant);
    ParsedIsWellFormed(key, true);
    forall k ensures k in Consulted(entries, g, legacy) <==> k == key {
      ConsultedExactly(entries, g, legacy, k);
    }
  }

  // ---- Which permission an action needs -----------------------------------------------------

  lemma UniformEntries(p: Principal, grant: Grant, legacy: bool, perm: Permission)
    requires Consulted(p.repositories, grant, legacy) != {}
    requires forall k | k in Consulted(p.repositories, grant, legacy) :: p.repositories[k] == perm
    ensures PermissionEntry(p, grant, legacy) == Found(perm)
  {
    hide ParseRepoGrant;
    var entry := PermissionEntry(p, grant, legacy);
    var keys := Consulted(p.repositories, grant, legacy);
    var k :| k in keys;
    assert PermissionClass(p.repositories[k]) == perm;
    assert forall j | j in keys :: PermissionClass(p.repositories[j]) == perm;
  }

  /**
   Where entries speak, and speak alike, their flags decide the actions on the
   repository and roles other than admin count for nothing.
   */
  lemma EntriesDecide(p: Principal, action: Action, grant: Grant, trusted: bool, legacy: bool, perm: Permission)
    requires RoleAdmin !in p.roles && Consulted(p.repositories, grant, legacy) != {}
    requires forall k | k in Consulted(p.repositories, grant, legacy) :: p.repositories[k] == perm
    ensures var allowed := AuthorizeGrant(p, action, grant, trusted, legacy);
            match action
            case ActionRead => allowed <==> perm.read
            case ActionRun => allowed <==> (trusted && perm.trustedRun) || (!trusted && perm.run)
            case ActionTrustedRun => allowed <==> perm.trustedRun
            case ActionApprove => allowed <==> perm.approve
            case ActionCancel => allowed <==> perm.cancel
            case ActionRerun => allowed <==> perm.rerun
            case ActionArtifactRead => allowed <==> perm.artifactRead
            case ActionRunnerManage => allowed <==> RoleRunnerManage in p.roles
            case ActionPolicyManage => allowed <==> RolePolicyManage in p.roles
            case ActionAdmin => !allowed
            case OtherAction(_) => !allowed
  {
    hide Consulted, PermissionEntry;
    UniformEntries(p, grant, legacy, perm);
  }

  /** A principal with nothing but one permission set for one repository. */
  function OnlyGrant(key: Text, perm: Permission): Principal {
    Principal([], [], map[key := perm], [], map[])
  }

  /** For every accepted key: each action on its repository needs exactly its own flag. */
  lemma GrantDecides(key: Text, perm: Permission, action: Action, trusted: bool)
    requires ParseStored(key).Ok?
    ensures var allowed := Authorize(OnlyGrant(key, perm), action, key, trusted);
            match action
            case ActionRead => allowed <==> perm.read
            case ActionRun => allowed <==> (trusted && perm.trustedRun) || (!trusted && perm.run)
            case ActionTrustedRun => allowed <==> perm.trustedRun
            case ActionApprove => allowed <==> perm.approve
            case ActionCancel => allowed <==> perm.cancel
            case ActionRerun => allowed <==> perm.rerun
            case ActionArtifactRead => allowed <==> perm.artifactRead
            case _ => !allowed
  {
    hide AuthorizeGrant, ParseRepoGrant, Consulted;
    OnlyKeyIsConsulted(key, perm, true);
    EntriesDecide(OnlyGrant(key, perm), action, ParseStored(key).grant, trusted, true, perm);
  }

  // ---- Which role an action needs -----------------------------------------------------------

  /** A principal with nothing but roles. */
  function OnlyRoles(roles: seq<Role>): Principal {
    Principal([], roles, map[], [], map[])
  }

  /** A repository, or none at all; anything else is no repository and is never decided by roles. */
  predicate Addressable(repo: Text) {
    ParseStored(repo).Ok? || TrimSpace(repo) == []
  }

  lemma RolesDecide(roles: seq<Role>, action: Action, repo: Text, trusted: bool)
    requires RoleAdmin !in roles
    ensures Authorize(OnlyRoles(roles), action, repo, trusted) <==>
            Addressable(repo) && GlobalRoles(OnlyRoles(roles), action, trusted)
  {
    hide ParseRepoGrant;
    var p := OnlyRoles(roles);
    if ParseStored(repo).Ok? {
      var grant := ParseStored(repo).grant;
      assert Consulted(p.repositories, grant, true) == {};
      assert PermissionEntry(p, grant, true) == NoEntry;
    }
  }

  /** What each role alone allows, on any repository or none; the run role never a trusted run. */
  lemma RoleDecides(role: Role, action: Action, repo: Text, trusted: bool)
    requires Addressable(repo)
    ensures var allowed := Authorize(OnlyRoles([role]), action, repo, trusted);
            match role
            case RoleRead => allowed <==> action == ActionRead
            case RoleRun => allowed <==> action == ActionRun && !trusted
            case RoleTrustedRun => allowed <==> action == ActionTrustedRun || (action == ActionRun && trusted)
            case RoleApprove => allowed <==> action == ActionApprove
            case RoleCancel => allowed <==> action == ActionCancel
            case RoleRerun => allowed <==> action == ActionRerun
            case RoleArtifactRead => allowed <==> action == ActionArtifactRead
            case RoleRunnerManage => allowed <==> action == ActionRunnerManage
            case RolePolicyManage => allowed <==> action == ActionPolicyManage
            case RoleAdmin => allowed
            case OtherRole(_) => !allowed
  {
    hide Authorize, Addressable;
    if role == RoleAdmin {
      AdminMayDoAnything(OnlyRoles([role]), action, repo, trusted);
    } else {
      RolesDecide([role], action, repo, trusted);
    }
  }

  /** An admin may do anything anywhere, malformed repositories included. */
  lemma AdminMayDoAnything(p: Principal, action: Action, repo: Text, trusted: bool)
    requires RoleAdmin in p.roles
    ensures Authorize(p, action, repo, trusted)
  {
  }

  /** Roles add up: they allow together what one of them allows, and nothing on a malformed repository. */
  lemma RolesAddUp(roles: seq<Role>, action: Action, repo: Text, trusted: bool)
    ensures Authorize(OnlyRoles(roles), action, repo, trusted) <==>
            exists r :: r in roles && Authorize(OnlyRoles([r]), action, repo, trusted)
    ensures RoleAdmin !in roles && !Addressable(repo) ==> !Authorize(OnlyRoles(roles), action, repo, trusted)
  {
    hide Authorize, Addressable;
    if RoleAdmin in roles {
      AdminMayDoAnything(OnlyRoles(roles), action, repo, trusted);
      AdminMayDoAnything(OnlyRoles([RoleAdmin]), action, repo, trusted);
    } else {
      RolesDecide(roles, action, repo, trusted);
      forall r | r in roles
        ensures Authorize(OnlyRoles([r]), action, repo, trusted) <==> Addressable(repo) && GlobalRoles(OnlyRoles([r]), action, trusted)
      {
        RolesDecide([r], action, repo, trusted);
      }
      assert GlobalRoles(OnlyRoles(roles), action, trusted) ==> exists r :: r in roles && GlobalRoles(OnlyRoles([r]), action, trusted);
    }
  }

  // ---- Capabilities -------------------------------------------------------------------------

  /** The capabilities there are, and no others. */
  lemma CapabilitiesThereAre(c: Capability)
    ensures c in KNOWN_CAPABILITIES <==>
            || c == "execution.events:read" || c == "evidence:read" || c == "checkpoints:read" || c == "runs:cancel"
            || c == "graph.mutations:write"
  {
  }

  /** For every accepted key: a repository entry gives exactly the capabilities it lists. */
  lemma CapabilityEntryDecides(key: Text, caps: seq<Capability>, c: Capability)
    requires ParseStored(key).Ok?
    ensures AuthorizeCapability(Principal([], [], map[], [], map[key := caps]), c, key) <==> c in caps
  {
    hide ParseRepoGrant, Consulted;
    var p := Principal([], [], map[], [], map[key := caps]);
    var grant := ParseStored(key).grant;
    ParsedIsNotBlank(key, true);
    OnlyKeyIsConsulted(key, caps, true);
    var entry := CapabilityEntry(p, grant, true);
    assert CapabilitySet(p.repositoryCapabilities[key]) == CapabilitySet(caps);
    assert entry.Found? && CapabilitySet(entry.value) == CapabilitySet(caps);
    SameCapabilitiesSameMembers(entry.value, caps, c);
  }

  /** A capability of the principal itself counts on every repository and on none; without entries nothing else does. */
  lemma GlobalCapabilityDecides(roles: seq<Role>, caps: seq<Capability>, c: Capability, repo: Text)
    ensures AuthorizeCapability(Principal([], roles, map[], caps, map[]), c, repo) <==> RoleAdmin in roles || c in caps
  {
    hide ParseRepoGrant;
    var p := Principal([], roles, map[], caps, map[]);
    if ParseStored(repo).Ok? {
      var grant := ParseStored(repo).grant;
      assert Consulted(p.repositoryCapabilities, grant, true) == {};
      assert CapabilityEntry(p, grant, true) == NoEntry;
    }
  }
}
