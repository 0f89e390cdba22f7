/** Roles, needs and permissions of auth/permissions.py, and what a user is granted when everything is loaded. */
module Grants {
  import opened Prelude
  import opened Scopes

  datatype Role = NoRole | Read | Write | Member | Creator | Admin

  /** The three role lists; a role is compared by its index in its list. */
  datatype Kind = RepoKind | TeamKind | UserKind

  function Cardinality(kind: Kind): seq<Role> {
    match kind
    case RepoKind => [NoRole, Read, Write, Admin]
    case TeamKind => [NoRole, Member, Creator, Admin]
    case UserKind => [NoRole, Read, Admin]
  }

  /** SCOPE_MAX_REPO_ROLES, SCOPE_MAX_TEAM_ROLES and SCOPE_MAX_USER_ROLES. */
  function MaxRole(kind: Kind, scope: Scope): Role {
    match kind
    case RepoKind =>
      (match scope
       case ReadRepo => Read
       case WriteRepo => Write
       case AdminRepo => Admin
       case DirectLogin => Admin
       case _ => NoRole)
    case TeamKind =>
      (match scope
       case CreateRepo => Creator
       case DirectLogin => Admin
       case OrgAdmin => Admin
       case _ => NoRole)
    case UserKind =>
      (match scope
       case ReadUser => Read
       case DirectLogin => Admin
       case AdminUser => Admin
       case _ => NoRole)
  }

  predicate InKind(kind: Kind, role: Role) {
    match role
    case NoRole => true
    case Read => kind != TeamKind
    case Write => kind == RepoKind
    case Member => kind == TeamKind
    case Creator => kind == TeamKind
    case Admin => true
  }

  /** cardinality.index(role) */
  function Rank(kind: Kind, role: Role): nat
    requires InKind(kind, role)
  {
    match role
    case NoRole => 0
    case Read => 1
    case Member => 1
    case Write => 2
    case Creator => 2
    case Admin => if kind == UserKind then 2 else 3
  }

  /** max({cardinality.index(max_roles[scope]) for scope in scopes}) */
  function BestRank(kind: Kind, scopes: set<Scope>): (best: nat)
    requires scopes != {}
    ensures best < |Cardinality(kind)|
    ensures forall s <- scopes :: Rank(kind, MaxRole(kind, s)) <= best
    ensures exists s :: s in scopes && Rank(kind, MaxRole(kind, s)) == best
  {
    var ranks := set s | s in scopes :: Rank(kind, MaxRole(kind, s));
    var s :| s in scopes;
    assert Rank(kind, MaxRole(kind, s)) in ranks;
    if 3 in ranks then 3 else if 2 in ranks then 2 else if 1 in ranks then 1 else 0
  }

  /** _translate_role_for_scopes */
  function TranslateRole(kind: Kind, scopes: set<Scope>, role: Role): Role
    requires scopes != {} && InKind(kind, role)
  {
    var best := BestRank(kind, scopes);
    if best < Rank(kind, role) then Cardinality(kind)[best] else role
  }

  /** Role translation is the minimum of the role and the best ceiling any scope gives. */
  lemma TranslationIsMinimum(kind: Kind, scopes: set<Scope>, role: Role)
    requires scopes != {} && InKind(kind, role)
    ensures var r := TranslateRole(kind, scopes, role);
            && InKind(kind, r)
            && Rank(kind, r) == (if BestRank(kind, scopes) < Rank(kind, role) then BestRank(kind, scopes) else Rank(kind, role))
            && (r == role || exists s <- scopes :: r == MaxRole(kind, s))
  {}

  /** What a token can carry at most: the role an administrator is reduced to under a set of scopes. */
  lemma ScopeCeilings(scopes: set<Scope>)
    requires scopes != {}
    ensures TranslateRole(RepoKind, scopes, Admin) ==
              if AdminRepo in scopes || DirectLogin in scopes then Admin
              else if WriteRepo in scopes then Write
              else if ReadRepo in scopes then Read else NoRole
    ensures TranslateRole(TeamKind, scopes, Admin) ==
              if OrgAdmin in scopes || DirectLogin in scopes then Admin
              else if CreateRepo in scopes then Creator else NoRole
    ensures TranslateRole(UserKind, scopes, Admin) ==
              if AdminUser in scopes || DirectLogin in scopes then Admin
              else if ReadUser in scopes then Read else NoRole
    ensures DirectLogin in scopes ==> forall kind, role | InKind(kind, role) :: TranslateRole(kind, scopes, role) == role
  {
    CeilingOf(RepoKind, scopes);
    CeilingOf(TeamKind, scopes);
    CeilingOf(UserKind, scopes);
  }

  lemma CeilingOf(kind: Kind, scopes: set<Scope>)
    requires scopes != {}
    ensures forall s <- scopes :: Rank(kind, MaxRole(kind, s)) <= BestRank(kind, scopes)
    ensures exists s <- scopes :: BestRank(kind, scopes) == Rank(kind, MaxRole(kind, s))
  {}

  // ---------------------------------------------------------------- needs and permissions

  datatype Need =
    | RepositoryNeed(ns: string, name: string, role: Role)
    | OrganizationNeed(ns: string, role: Role)
    | OrganizationRepoNeed(ns: string, role: Role)
    | TeamNeed(ns: string, name: string, role: Role)
    | UserNeed(name: string, role: Role)
    | SuperUserNeed
    | GlobalReadOnlySuperUserNeed

  datatype Permission =
    | ModifyRepository(ns: string, name: string)
    | ReadRepository(ns: string, name: string)
    | AdministerRepository(ns: string, name: string)
    | CreateRepository(ns: string)
    | SuperUserPermission
    | GlobalReadOnlySuperUserPermission
    | UserAdmin(username: string)
    | UserRead(username: string)
    | AdministerOrganization(ns: string)
    | OrganizationMember(ns: string)
    | ViewTeam(ns: string, team: string)

  function Needs(p: Permission): set<Need> {
    match p
    case ModifyRepository(ns, name) =>
      {RepositoryNeed(ns, name, Admin), RepositoryNeed(ns, name, Write),
       OrganizationRepoNeed(ns, Admin), OrganizationRepoNeed(ns, Write)}
    case ReadRepository(ns, name) =>
      {RepositoryNeed(ns, name, Admin), RepositoryNeed(ns, name, Write), RepositoryNeed(ns, name, Read),
       OrganizationRepoNeed(ns, Admin), OrganizationRepoNeed(ns, Read), OrganizationRepoNeed(ns, Write)}
    case AdministerRepository(ns, name) => {RepositoryNeed(ns, name, Admin), OrganizationRepoNeed(ns, Admin)}
    case CreateRepository(ns) => {OrganizationNeed(ns, Admin), OrganizationNeed(ns, Creator)}
    case SuperUserPermission => {SuperUserNeed}
    case GlobalReadOnlySuperUserPermission => {GlobalReadOnlySuperUserNeed}
    case UserAdmin(u) => {UserNeed(u, Admin)}
    case UserRead(u) => {UserNeed(u, Read), UserNeed(u, Admin)}
    case AdministerOrganization(ns) => {OrganizationNeed(ns, Admin)}
    case OrganizationMember(ns) =>
      {OrganizationNeed(ns, Admin), OrganizationNeed(ns, Member), OrganizationNeed(ns, Creator)}
    case ViewTeam(ns, team) =>
      {TeamNeed(ns, team, Admin), TeamNeed(ns, team, Creator), TeamNeed(ns, team, Member), OrganizationNeed(ns, Admin)}
  }

  /** The rank a permission class asks for on a repository, or on all repositories of a namespace. */
  function RepoLevel(p: Permission): nat {
    if p.ReadRepository? then 1 else if p.ModifyRepository? then 2 else 3
  }

  /** The rank it asks for in an organization. */
  function OrgLevel(p: Permission): nat {
    if p.OrganizationMember? then 1 else if p.CreateRepository? then 2 else 3
  }

  /** The needs of a permission are exactly the grants on its own object at or above its level. */
  lemma NeedsAreThresholds(p: Permission, n: Need)
    ensures n in Needs(p) <==>
              match n
              case RepositoryNeed(ns, name, r) =>
                && (p.ReadRepository? || p.ModifyRepository? || p.AdministerRepository?)
                && p.ns == ns && p.name == name && InKind(RepoKind, r) && Rank(RepoKind, r) >= RepoLevel(p)
              case OrganizationRepoNeed(ns, r) =>
                && (p.ReadRepository? || p.ModifyRepository? || p.AdministerRepository?)
                && p.ns == ns && InKind(RepoKind, r) && Rank(RepoKind, r) >= RepoLevel(p)
              case OrganizationNeed(ns, r) =>
                && (p.CreateRepository? || p.AdministerOrganization? || p.OrganizationMember? || p.ViewTeam?)
                && p.ns == ns && InKind(TeamKind, r) && Rank(TeamKind, r) >= OrgLevel(p)
              case TeamNeed(ns, team, r) =>
                p.ViewTeam? && p.ns == ns && p.team == team && InKind(TeamKind, r) && Rank(TeamKind, r) >= 1
              case UserNeed(u, r) =>
                && (p.UserAdmin? || p.UserRead?)
                && p.username == u && InKind(UserKind, r) && Rank(UserKind, r) >= (if p.UserRead? then 1 else 2)
              case SuperUserNeed => p.SuperUserPermission?
              case GlobalReadOnlySuperUserNeed => p.GlobalReadOnlySuperUserPermission?
  {}

  /** permission.namespace and permission.repo_name; the empty string also stands for None (both are falsy). */
  function Namespace(p: Permission): string {
    match p
    case ModifyRepository(ns, _) => ns
    case ReadRepository(ns, _) => ns
    case AdministerRepository(ns, _) => ns
    case CreateRepository(ns) => ns
    case AdministerOrganization(ns) => ns
    case OrganizationMember(ns) => ns
    case ViewTeam(ns, _) => ns
    case _ => ""
  }

  function RepoName(p: Permission): string {
    match p
    case ModifyRepository(_, name) => name
    case ReadRepository(_, name) => name
    case AdministerRepository(_, name) => name
    case _ => ""
  }

  predicate IsWrite(p: Permission) { p.ModifyRepository? || p.AdministerRepository? }

  /** Identity.can of Flask-Principal: some need is provided. */
  predicate Allows(granted: set<Need>, p: Permission) { Needs(p) * granted != {} }

  // ---------------------------------------------------------------- the database, as it concerns one user

  type TeamRole = r: Role | r in {Member, Creator, Admin} witness Member
  type RepoRole = r: Role | r in {Read, Write, Admin} witness Read

  datatype TeamGrant = TeamGrant(org: string, team: string, role: TeamRole)
  datatype RepoGrant = RepoGrant(ns: string, name: string, role: RepoRole)

  datatype Account = Account(username: string, superuser: bool, readonlySuperuser: bool)

  /** The user (None for an unknown uuid), the token's scopes, the feature flag, and the primary database. */
  datatype Env = Env(
    account: Option<Account>,
    scopes: set<Scope>,
    fullAccess: bool,
    teams: seq<TeamGrant>,
    primary: seq<RepoGrant>)

  predicate IsReadonlySuper(env: Env) { env.account.Some? && env.account.value.readonlySuperuser }

  predicate IsSuper(env: Env) {
    && env.account.Some? && !env.account.value.readonlySuperuser && env.account.value.superuser
    && (SuperUser in env.scopes || DirectLogin in env.scopes)
  }

  function SuperNeeds(env: Env): set<Need> {
    if IsReadonlySuper(env) then {GlobalReadOnlySuperUserNeed} else if IsSuper(env) then {SuperUserNeed} else {}
  }

  function UserNeeds(scopes: set<Scope>, username: string): set<Need>
    requires scopes != {}
  {
    {UserNeed(username, TranslateRole(UserKind, scopes, Admin)),
     OrganizationNeed(username, TranslateRole(TeamKind, scopes, Admin)),
     OrganizationRepoNeed(username, TranslateRole(RepoKind, scopes, Admin))}
  }

  /** TEAM_ORGWIDE_REPO_ROLES */
  function OrgWideRepoRole(role: TeamRole): Role { if role == Admin then Admin else NoRole }

  function TeamNeeds(scopes: set<Scope>, g: TeamGrant): set<Need>
    requires scopes != {}
  {
    {OrganizationNeed(g.org, TranslateRole(TeamKind, scopes, g.role)),
     OrganizationRepoNeed(g.org, TranslateRole(RepoKind, scopes, OrgWideRepoRole(g.role))),
     TeamNeed(g.org, g.team, TranslateRole(TeamKind, scopes, g.role))}
  }

  function RepoNeed(scopes: set<Scope>, g: RepoGrant): Need
    requires scopes != {}
  {
    RepositoryNeed(g.ns, g.name, TranslateRole(RepoKind, scopes, g.role))
  }

  function AllTeamNeeds(scopes: set<Scope>, teams: seq<TeamGrant>): set<Need>
    requires scopes != {}
  {
    set i, n | 0 <= i < |teams| && n in TeamNeeds(scopes, teams[i]) :: n
  }

  function Orgs(teams: seq<TeamGrant>): set<string> { set g | g in teams :: g.org }

  function AllRepoNeeds(scopes: set<Scope>, grants: seq<RepoGrant>): set<Need>
    requires scopes != {}
  {
    set i | 0 <= i < |grants| :: RepoNeed(scopes, grants[i])
  }

  /** Everything the user is granted when all of it is loaded up front, with `repos` as the repository grants. */
  function EagerProvides(env: Env, repos: seq<RepoGrant>): set<Need>
    requires env.account.Some? && env.scopes != {}
  {
    SuperNeeds(env) + UserNeeds(env.scopes, env.account.value.username)
    + AllTeamNeeds(env.scopes, env.teams) + AllRepoNeeds(env.scopes, repos)
  }

  predicate FullAccess(env: Env, p: Permission) {
    IsSuper(env) && env.fullAccess && (Namespace(p) != "" || RepoName(p) != "")
  }

  /** The answer of an identity that loads everything first. */
  predicate EagerCan(env: Env, repos: seq<RepoGrant>, p: Permission)
    requires env.scopes != {}
  {
    env.account.Some? && (FullAccess(env, p) || Allows(EagerProvides(env, repos), p))
  }

  // ---------------------------------------------------------------- monotonicity

  /** The same grant with a role at least as high. */
  predicate Raised(n: Need, m: Need) {
    match (n, m)
    case (RepositoryNeed(a, b, r), RepositoryNeed(a', b', r')) => a == a' && b == b' && RoleLeq(RepoKind, r, r')
    case (OrganizationNeed(a, r), OrganizationNeed(a', r')) => a == a' && RoleLeq(TeamKind, r, r')
    case (OrganizationRepoNeed(a, r), OrganizationRepoNeed(a', r')) => a == a' && RoleLeq(RepoKind, r, r')
    case (TeamNeed(a, b, r), TeamNeed(a', b', r')) => a == a' && b == b' && RoleLeq(TeamKind, r, r')
    case (UserNeed(a, r), UserNeed(a', r')) => a == a' && RoleLeq(UserKind, r, r')
    case _ => n == m
  }

  predicate RoleLeq(kind: Kind, a: Role, b: Role) {
    InKind(kind, a) && InKind(kind, b) && Rank(kind, a) <= Rank(kind, b)
  }

  /** Every permission class asks for an upward-closed set of roles. */
  lemma NeedsAreUpwardClosed(p: Permission, n: Need, m: Need)
    requires n in Needs(p) && Raised(n, m)
    ensures m in Needs(p)
  {
    NeedsAreThresholds(p, n);
    NeedsAreThresholds(p, m);
  }

  ghost predicate ProvidesRaised(granted: set<Need>, granted': set<Need>) {
    forall n <- granted :: exists m <- granted' :: Raised(n, m)
  }

  lemma RaisedProvidesAllowMore(granted: set<Need>, granted': set<Need>, p: Permission)
    requires ProvidesRaised(granted, granted') && Allows(granted, p)
    ensures Allows(granted', p)
  {
    var n :| n in Needs(p) && n in granted;
    var m :| m in granted' && Raised(n, m);
    NeedsAreUpwardClosed(p, n, m);
    assert m in Needs(p) * granted';
  }

  /** Every ceiling of the first scope set is reached in the second. */
  ghost predicate ScopesRaised(scopes: set<Scope>, scopes': set<Scope>) {
    && (forall kind, s | s in scopes :: exists t <- scopes' :: RoleLeq(kind, MaxRole(kind, s), MaxRole(kind, t)))
    && (SuperUser in scopes || DirectLogin in scopes ==> SuperUser in scopes' || DirectLogin in scopes')
  }

  lemma TranslationIsMonotone(kind: Kind, scopes: set<Scope>, scopes': set<Scope>, role: Role, role': Role)
    requires scopes != {} && scopes' != {} && ScopesRaised(scopes, scopes') && RoleLeq(kind, role, role')
    ensures RoleLeq(kind, TranslateRole(kind, scopes, role), TranslateRole(kind, scopes', role'))
  {
    TranslationIsMinimum(kind, scopes, role);
    TranslationIsMinimum(kind, scopes', role');
    var s :| s in scopes && Rank(kind, MaxRole(kind, s)) == BestRank(kind, scopes);
    var t :| t in scopes' && RoleLeq(kind, MaxRole(kind, s), MaxRole(kind, t));
    assert BestRank(kind, scopes) <= BestRank(kind, scopes');
  }

  predicate TeamRaised(g: TeamGrant, h: TeamGrant) {
    g.org == h.org && g.team == h.team && RoleLeq(TeamKind, g.role, h.role)
  }

  predicate RepoRaised(g: RepoGrant, h: RepoGrant) {
    g.ns == h.ns && g.name == h.name && RoleLeq(RepoKind, g.role, h.role)
  }

  /** The same user, with no scope, no team role and no repository role lowered or lost. */
  ghost predicate EnvRaised(env: Env, repos: seq<RepoGrant>, env': Env, repos': seq<RepoGrant>) {
    && env.account == env'.account && env.fullAccess == env'.fullAccess
    && env.scopes != {} && env'.scopes != {} && ScopesRaised(env.scopes, env'.scopes)
    && (forall g <- env.teams :: exists h <- env'.teams :: TeamRaised(g, h))
    && (forall g <- repos :: exists h <- repos' :: RepoRaised(g, h))
  }

  lemma TeamNeedsRaised(scopes: set<Scope>, scopes': set<Scope>, g: TeamGrant, h: TeamGrant, n: Need) returns (m: Need)
    requires scopes != {} && scopes' != {} && ScopesRaised(scopes, scopes') && TeamRaised(g, h)
    requires n in TeamNeeds(scopes, g)
    ensures m in TeamNeeds(scopes', h) && Raised(n, m)
  {
    var t, t' := TranslateRole(TeamKind, scopes, g.role), TranslateRole(TeamKind, scopes', h.role);
    var o, o' := OrgWideRepoRole(g.role), OrgWideRepoRole(h.role);
    assert RoleLeq(RepoKind, o, o');
    TranslationIsMonotone(TeamKind, scopes, scopes', g.role, h.role);
    TranslationIsMonotone(RepoKind, scopes, scopes', o, o');
    if n == OrganizationNeed(g.org, t) {
      m := OrganizationNeed(h.org, t');
    } else if n == TeamNeed(g.org, g.team, t) {
      m := TeamNeed(h.org, h.team, t');
    } else {
      m := OrganizationRepoNeed(h.org, TranslateRole(RepoKind, scopes', o'));
    }
  }

  lemma UserNeedsRaised(scopes: set<Scope>, scopes': set<Scope>, u: string, n: Need) returns (m: Need)
    requires scopes != {} && scopes' != {} && ScopesRaised(scopes, scopes')
    requires n in UserNeeds(scopes, u)
    ensures m in UserNeeds(scopes', u) && Raised(n, m)
  {
    var kind :=
      if n.UserNeed? then UserKind else if n.OrganizationNeed? then TeamKind else RepoKind;
    TranslationIsMonotone(kind, scopes, scopes', Admin, Admin);
    var role' := TranslateRole(kind, scopes', Admin);
    m := if n.UserNeed? then UserNeed(u, role')
         else if n.OrganizationNeed? then OrganizationNeed(u, role')
         else OrganizationRepoNeed(u, role');
  }

  lemma EagerNeedRaised(env: Env, repos: seq<RepoGrant>, env': Env, repos': seq<RepoGrant>, n: Need)
    returns (m: Need)
    requires EnvRaised(env, repos, env', repos') && env.account.Some?
    requires n in EagerProvides(env, repos)
    requires IsSuper(env) ==> IsSuper(env')
    ensures m in EagerProvides(env', repos') && Raised(n, m)
  {
    if n in SuperNeeds(env) {
      m := n;
    } else if n in UserNeeds(env.scopes, env.account.value.username) {
      m := UserNeedsRaised(env.scopes, env'.scopes, env.account.value.username, n);
    } else if n in AllTeamNeeds(env.scopes, env.teams) {
      var i :| 0 <= i < |env.teams| && n in TeamNeeds(env.scopes, env.teams[i]);
      assert env.teams[i] in env.teams;
      var h :| h in env'.teams && TeamRaised(env.teams[i], h);
      m := TeamNeedsRaised(env.scopes, env'.scopes, env.teams[i], h, n);
      var j :| 0 <= j < |env'.teams| && env'.teams[j] == h;
      assert m in AllTeamNeeds(env'.scopes, env'.teams);
    } else {
      var i :| 0 <= i < |repos| && n == RepoNeed(env.scopes, repos[i]);
      assert repos[i] in repos;
      var h :| h in repos' && RepoRaised(repos[i], h);
      TranslationIsMonotone(RepoKind, env.scopes, env'.scopes, repos[i].role, h.role);
      m := RepoNeed(env'.scopes, h);
      var j :| 0 <= j < |repos'| && repos'[j] == h;
      assert m in AllRepoNeeds(env'.scopes, repos');
    }
  }

  /** Enlarging the scopes or raising any role never turns a yes into a no, for any permission class. */
  lemma PermissionMonotonicity(env: Env, repos: seq<RepoGrant>, env': Env, repos': seq<RepoGrant>, p: Permission)
    requires EnvRaised(env, repos, env', repos') && EagerCan(env, repos, p)
    ensures EagerCan(env', repos', p)
  {
    if !FullAccess(env, p) {
      forall n | n in EagerProvides(env, repos) ensures exists m <- EagerProvides(env', repos') :: Raised(n, m) {
        var m := EagerNeedRaised(env, repos, env', repos', n);
      }
      RaisedProvidesAllowMore(EagerProvides(env, repos), EagerProvides(env', repos'), p);
    }
  }

  lemma EnvWithScopesRaised(env: Env, scopes': set<Scope>)
    requires env.scopes != {} && scopes' != {} && ScopesRaised(env.scopes, scopes')
    ensures EnvRaised(env, env.primary, env.(scopes := scopes'), env.primary)
  {}

  lemma LargerScopesAreRaised(scopes: set<Scope>, scopes': set<Scope>)
    requires scopes <= scopes'
    ensures ScopesRaised(scopes, scopes')
  {}

  /** Adding scopes to a token never turns a yes into a no. */
  lemma MoreScopesAllowMore(env: Env, scopes': set<Scope>, p: Permission)
    requires env.scopes != {} && env.scopes <= scopes' && EagerCan(env, env.primary, p)
    ensures scopes' != {} && EagerCan(env.(scopes := scopes'), env.primary, p)
  {
    LargerScopesAreRaised(env.scopes, scopes');
    EnvWithScopesRaised(env, scopes');
    PermissionMonotonicity(env, env.primary, env.(scopes := scopes'), env.primary, p);
  }

  /** A scope implied by another is below it in every role list. */
  lemma ImpliedScopeIsLower(kind: Kind, full: Scope, s: Scope)
    requires s in ImpliedBy(full)
    ensures RoleLeq(kind, MaxRole(kind, s), MaxRole(kind, full))
  {}

  /**
    is_subset_string is sound for permissions: whatever the expected scopes allow,
    for any user and database, the full scopes allow too.
   */
  lemma ScopeSubsetIsSound(full: string, expected: string, env: Env, p: Permission)
    requires IsSubsetString(full, expected) && ScopesFromString(expected) != {}
    requires env.scopes == ScopesFromString(expected) && EagerCan(env, env.primary, p)
    ensures var env' := env.(scopes := ScopesFromString(full));
            env'.scopes != {} && EagerCan(env', env.primary, p)
  {
    var scopes, scopes' := ScopesFromString(expected), ScopesFromString(full);
    assert forall s <- scopes :: exists f <- scopes' :: s in ImpliedBy(f);
    ImpliedScopesAreRaised(scopes, scopes');
    DirectLoginIsNeverParsed(expected);
    EnvWithScopesRaised(env, scopes');
    PermissionMonotonicity(env, env.primary, env.(scopes := scopes'), env.primary, p);
  }

  lemma ImpliedScopesAreRaised(scopes: set<Scope>, scopes': set<Scope>)
    requires forall s <- scopes :: exists f <- scopes' :: s in ImpliedBy(f)
    ensures ScopesRaised(scopes, scopes')
  {
    forall kind, s | s in scopes ensures exists f <- scopes' :: RoleLeq(kind, MaxRole(kind, s), MaxRole(kind, f)) {
      var f :| f in scopes' && s in ImpliedBy(f);
      ImpliedScopeIsLower(kind, f, s);
    }
  }

  /** Administer implies Modify implies Read on the same repository, whatever is provided. */
  lemma RepositoryPermissionsNest(granted: set<Need>, ns: string, name: string)
    ensures Allows(granted, AdministerRepository(ns, name)) ==> Allows(granted, ModifyRepository(ns, name))
    ensures Allows(granted, ModifyRepository(ns, name)) ==> Allows(granted, ReadRepository(ns, name))
  {}

  // ---------------------------------------------------------------- tokens stay within their scopes

  /** No repository role exceeds the best ceiling of the scopes. */
  ghost predicate RepoRolesCapped(granted: set<Need>, scopes: set<Scope>)
    requires scopes != {}
  {
    forall n <- granted :: n.RepositoryNeed? || n.OrganizationRepoNeed? ==>
      InKind(RepoKind, n.role) && Rank(RepoKind, n.role) <= BestRank(RepoKind, scopes)
  }

  lemma EagerRolesAreCapped(env: Env, repos: seq<RepoGrant>)
    requires env.account.Some? && env.scopes != {}
    ensures RepoRolesCapped(EagerProvides(env, repos), env.scopes)
  {
    forall n | n in EagerProvides(env, repos) && (n.RepositoryNeed? || n.OrganizationRepoNeed?)
      ensures InKind(RepoKind, n.role) && Rank(RepoKind, n.role) <= BestRank(RepoKind, env.scopes)
    {
      EagerRoleIsCapped(env, repos, n);
    }
  }

  lemma EagerRoleIsCapped(env: Env, repos: seq<RepoGrant>, n: Need)
    requires env.account.Some? && env.scopes != {}
    requires n in EagerProvides(env, repos) && (n.RepositoryNeed? || n.OrganizationRepoNeed?)
    ensures InKind(RepoKind, n.role) && Rank(RepoKind, n.role) <= BestRank(RepoKind, env.scopes)
  {
    if n in UserNeeds(env.scopes, env.account.value.username) {
      TranslationIsMinimum(RepoKind, env.scopes, Admin);
    } else if n in AllTeamNeeds(env.scopes, env.teams) {
      var i :| 0 <= i < |env.teams| && n in TeamNeeds(env.scopes, env.teams[i]);
      TranslationIsMinimum(RepoKind, env.scopes, OrgWideRepoRole(env.teams[i].role));
    } else {
      var i :| 0 <= i < |repos| && n == RepoNeed(env.scopes, repos[i]);
      TranslationIsMinimum(RepoKind, env.scopes, repos[i].role);
    }
  }

  /** One of the scopes is for this use of a repository. */
  predicate ScopedFor(scopes: set<Scope>, p: Permission) {
    || AdminRepo in scopes || DirectLogin in scopes
    || (WriteRepo in scopes && !p.AdministerRepository?)
    || (ReadRepo in scopes && p.ReadRepository?)
  }

  lemma CappedRolesServeScopedUse(granted: set<Need>, scopes: set<Scope>, p: Permission)
    requires p.AdministerRepository? || p.ModifyRepository? || p.ReadRepository?
    requires scopes != {} && RepoRolesCapped(granted, scopes) && Allows(granted, p)
    ensures ScopedFor(scopes, p)
  {
    var n :| n in Needs(p) * granted;
    NeedsAreThresholds(p, n);
    TranslationIsMinimum(RepoKind, scopes, Admin);
    ScopeCeilings(scopes);
  }
}
