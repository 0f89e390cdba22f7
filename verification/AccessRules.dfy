/**
  Who may do what, said from the account, its teams, its repository grants and the scopes of the token
  alone: a reference for the answers of auth/permissions.py, without needs, roles in lists or loading.
 */
module AccessRules {
  import opened Prelude
  import opened Scopes
  import opened Grants
  import opened DeferredIdentity

  /** The most that the scopes let a token do on repositories: 1 read, 2 write, 3 administer. */
  function RepoCeiling(scopes: set<Scope>): nat {
    if AdminRepo in scopes || DirectLogin in scopes then 3
    else if WriteRepo in scopes then 2
    else if ReadRepo in scopes then 1 else 0
  }

  /** In organizations: 1 be a member, 2 create repositories, 3 administer. */
  function TeamCeiling(scopes: set<Scope>): nat {
    if OrgAdmin in scopes || DirectLogin in scopes then 3 else if CreateRepo in scopes then 2 else 0
  }

  /** On the own account: 1 read, 2 administer. */
  function UserCeiling(scopes: set<Scope>): nat {
    if AdminUser in scopes || DirectLogin in scopes then 2 else if ReadUser in scopes then 1 else 0
  }

  function RepoLevelOf(role: RepoRole): nat { if role == Admin then 3 else if role == Write then 2 else 1 }

  function TeamLevelOf(role: TeamRole): nat { if role == Admin then 3 else if role == Creator then 2 else 1 }

  /** A superuser whose token carries that power; a read-only superuser is none. */
  predicate Superuser(env: Env) {
    && env.account.Some? && env.account.value.superuser && !env.account.value.readonlySuperuser
    && (SuperUser in env.scopes || DirectLogin in env.scopes)
  }

  predicate HasTeam(teams: seq<TeamGrant>, org: string, level: nat) {
    exists g <- teams :: g.org == org && TeamLevelOf(g.role) >= level
  }

  predicate HasGrant(repos: seq<RepoGrant>, ns: string, name: string, level: nat) {
    exists g <- repos :: g.ns == ns && g.name == name && RepoLevelOf(g.role) >= level
  }

  /** Users own their namespace, administrators of an organization its repositories; others need a grant. */
  predicate MayUseRepository(env: Env, repos: seq<RepoGrant>, ns: string, name: string, level: nat)
    requires env.account.Some?
  {
    && RepoCeiling(env.scopes) >= level
    && (ns == env.account.value.username || HasTeam(env.teams, ns, 3) || HasGrant(repos, ns, name, level))
  }

  predicate MayInOrganization(env: Env, ns: string, level: nat)
    requires env.account.Some?
  {
    TeamCeiling(env.scopes) >= level && (ns == env.account.value.username || HasTeam(env.teams, ns, level))
  }

  /** Superusers may do anything that concerns a namespace, where that feature is on. */
  predicate Unlimited(env: Env, ns: string, name: string) {
    Superuser(env) && env.fullAccess && (ns != "" || name != "")
  }

  predicate Declared(env: Env, repos: seq<RepoGrant>, p: Permission) {
    env.account.Some? &&
    match p
    case ReadRepository(ns, name) => MayUseRepository(env, repos, ns, name, 1) || Unlimited(env, ns, name)
    case ModifyRepository(ns, name) => MayUseRepository(env, repos, ns, name, 2) || Unlimited(env, ns, name)
    case AdministerRepository(ns, name) => MayUseRepository(env, repos, ns, name, 3) || Unlimited(env, ns, name)
    case OrganizationMember(ns) => MayInOrganization(env, ns, 1) || Unlimited(env, ns, "")
    case CreateRepository(ns) => MayInOrganization(env, ns, 2) || Unlimited(env, ns, "")
    case AdministerOrganization(ns) => MayInOrganization(env, ns, 3) || Unlimited(env, ns, "")
    case ViewTeam(ns, team) =>
      || MayInOrganization(env, ns, 3)
      || (TeamCeiling(env.scopes) >= 1 && exists g <- env.teams :: g.org == ns && g.team == team)
      || Unlimited(env, ns, "")
    case UserRead(username) => username == env.account.value.username && UserCeiling(env.scopes) >= 1
    case UserAdmin(username) => username == env.account.value.username && UserCeiling(env.scopes) >= 2
    case SuperUserPermission => Superuser(env)
    case GlobalReadOnlySuperUserPermission => env.account.value.readonlySuperuser
  }

  // ---------------------------------------------------------------- one source of grants at a time

  lemma Ceilings(scopes: set<Scope>)
    requires scopes != {}
    ensures BestRank(RepoKind, scopes) == RepoCeiling(scopes)
    ensures BestRank(TeamKind, scopes) == TeamCeiling(scopes)
    ensures BestRank(UserKind, scopes) == UserCeiling(scopes)
  {
    ScopeCeilings(scopes);
    TranslationIsMinimum(RepoKind, scopes, Admin);
    TranslationIsMinimum(TeamKind, scopes, Admin);
    TranslationIsMinimum(UserKind, scopes, Admin);
  }

  /** A translated role reaches a level exactly if the role and the ceiling do. */
  lemma TranslatedReaches(kind: Kind, scopes: set<Scope>, role: Role, level: nat)
    requires scopes != {} && InKind(kind, role)
    ensures InKind(kind, TranslateRole(kind, scopes, role))
    ensures Rank(kind, TranslateRole(kind, scopes, role)) >= level <==> BestRank(kind, scopes) >= level && Rank(kind, role) >= level
  {
    TranslationIsMinimum(kind, scopes, role);
  }

  /** The level a permission asks for on repositories or in an organization. */
  function Level(p: Permission): nat {
    match p
    case ReadRepository(_, _) => 1
    case ModifyRepository(_, _) => 2
    case OrganizationMember(_) => 1
    case CreateRepository(_) => 2
    case _ => 3
  }

  predicate OnRepository(p: Permission) { p.ReadRepository? || p.ModifyRepository? || p.AdministerRepository? }

  predicate InOrganization(p: Permission) {
    p.CreateRepository? || p.AdministerOrganization? || p.OrganizationMember? || p.ViewTeam?
  }

  lemma OneNeedAllows(n: Need, p: Permission)
    ensures Allows({n}, p) <==> n in Needs(p)
  {
    assert n in Needs(p) ==> n in Needs(p) * {n};
  }

  lemma UnionAllows(a: set<Need>, b: set<Need>, p: Permission)
    ensures Allows(a + b, p) <==> Allows(a, p) || Allows(b, p)
  {
    OneOfTwoAllows(a + b, a, b, p);
    MoreGrantsAllowMore(a, a + b, p);
    MoreGrantsAllowMore(b, a + b, p);
  }

  lemma ThreeAllow(a: Need, b: Need, c: Need, p: Permission)
    ensures Allows({a, b, c}, p) <==> a in Needs(p) || b in Needs(p) || c in Needs(p)
  {
    assert a in Needs(p) ==> a in Needs(p) * {a, b, c};
    assert b in Needs(p) ==> b in Needs(p) * {a, b, c};
    assert c in Needs(p) ==> c in Needs(p) * {a, b, c};
  }

  lemma OwnNeedsAllow(scopes: set<Scope>, username: string, p: Permission)
    requires scopes != {}
    ensures Allows(UserNeeds(scopes, username), p) <==>
              || (OnRepository(p) && p.ns == username && RepoCeiling(scopes) >= Level(p))
              || (InOrganization(p) && p.ns == username && TeamCeiling(scopes) >= Level(p))
              || (p.UserRead? && p.username == username && UserCeiling(scopes) >= 1)
              || (p.UserAdmin? && p.username == username && UserCeiling(scopes) >= 2)
  {
    var a := UserNeed(username, TranslateRole(UserKind, scopes, Admin));
    var b := OrganizationNeed(username, TranslateRole(TeamKind, scopes, Admin));
    var c := OrganizationRepoNeed(username, TranslateRole(RepoKind, scopes, Admin));
    ThreeAllow(a, b, c, p);
    Ceilings(scopes);
    TranslatedReaches(RepoKind, scopes, Admin, Level(p));
    TranslatedReaches(TeamKind, scopes, Admin, Level(p));
    TranslatedReaches(UserKind, scopes, Admin, if p.UserRead? then 1 else 2);
    NeedsAreThresholds(p, a);
    NeedsAreThresholds(p, b);
    NeedsAreThresholds(p, c);
  }

  lemma TeamAllows(scopes: set<Scope>, g: TeamGrant, p: Permission)
    requires scopes != {}
    ensures Allows(TeamNeeds(scopes, g), p) <==>
              || (OnRepository(p) && p.ns == g.org && g.role == Admin && RepoCeiling(scopes) >= Level(p))
              || (InOrganization(p) && p.ns == g.org && TeamLevelOf(g.role) >= Level(p) && TeamCeiling(scopes) >= Level(p))
              || (p.ViewTeam? && p.ns == g.org && p.team == g.team && TeamCeiling(scopes) >= 1)
  {
    var a := OrganizationNeed(g.org, TranslateRole(TeamKind, scopes, g.role));
    var b := OrganizationRepoNeed(g.org, TranslateRole(RepoKind, scopes, OrgWideRepoRole(g.role)));
    var c := TeamNeed(g.org, g.team, TranslateRole(TeamKind, scopes, g.role));
    ThreeAllow(a, b, c, p);
    Ceilings(scopes);
    TranslatedReaches(TeamKind, scopes, g.role, Level(p));
    TranslatedReaches(TeamKind, scopes, g.role, 1);
    TranslatedReaches(RepoKind, scopes, OrgWideRepoRole(g.role), Level(p));
    NeedsAreThresholds(p, a);
    NeedsAreThresholds(p, b);
    NeedsAreThresholds(p, c);
  }

  lemma GrantAllows(scopes: set<Scope>, g: RepoGrant, p: Permission)
    requires scopes != {}
    ensures RepoNeed(scopes, g) in Needs(p) <==>
              && OnRepository(p) && p.ns == g.ns && p.name == g.name
              && RepoLevelOf(g.role) >= Level(p) && RepoCeiling(scopes) >= Level(p)
  {
    Ceilings(scopes);
    TranslatedReaches(RepoKind, scopes, g.role, Level(p));
    NeedsAreThresholds(p, RepoNeed(scopes, g));
  }

  // ---------------------------------------------------------------- all sources together

  lemma TeamsAllow(scopes: set<Scope>, teams: seq<TeamGrant>, p: Permission)
    requires scopes != {}
    ensures Allows(AllTeamNeeds(scopes, teams), p) <==>
              || (OnRepository(p) && HasTeam(teams, p.ns, 3) && RepoCeiling(scopes) >= Level(p))
              || (InOrganization(p) && HasTeam(teams, p.ns, Level(p)) && TeamCeiling(scopes) >= Level(p))
              || (p.ViewTeam? && TeamCeiling(scopes) >= 1 && exists g <- teams :: g.org == p.ns && g.team == p.team)
  {
    forall g | g in teams ensures Allows(TeamNeeds(scopes, g), p) ==> Allows(AllTeamNeeds(scopes, teams), p) {
      forall n | n in TeamNeeds(scopes, g) ensures n in AllTeamNeeds(scopes, teams) { AllTeamNeedsOf(scopes, teams, n); }
      MoreGrantsAllowMore(TeamNeeds(scopes, g), AllTeamNeeds(scopes, teams), p);
    }
    forall g | g in teams { TeamAllows(scopes, g, p); }
    if Allows(AllTeamNeeds(scopes, teams), p) {
      var n :| n in Needs(p) * AllTeamNeeds(scopes, teams);
      AllTeamNeedsOf(scopes, teams, n);
      var g :| g in teams && n in TeamNeeds(scopes, g);
      assert n in Needs(p) * TeamNeeds(scopes, g);
      TeamAllows(scopes, g, p);
    }
  }

  lemma GrantsAllow(scopes: set<Scope>, repos: seq<RepoGrant>, p: Permission)
    requires scopes != {}
    ensures Allows(AllRepoNeeds(scopes, repos), p) <==>
              OnRepository(p) && HasGrant(repos, p.ns, p.name, Level(p)) && RepoCeiling(scopes) >= Level(p)
  {
    forall g | g in repos ensures RepoNeed(scopes, g) in Needs(p) ==> Allows(AllRepoNeeds(scopes, repos), p) {
      AllRepoNeedsOf(scopes, repos, RepoNeed(scopes, g));
      assert RepoNeed(scopes, g) in Needs(p) ==> RepoNeed(scopes, g) in Needs(p) * AllRepoNeeds(scopes, repos);
    }
    forall g | g in repos { GrantAllows(scopes, g, p); }
    if Allows(AllRepoNeeds(scopes, repos), p) {
      var n :| n in Needs(p) * AllRepoNeeds(scopes, repos);
      AllRepoNeedsOf(scopes, repos, n);
      var g :| g in repos && n == RepoNeed(scopes, g);
      GrantAllows(scopes, g, p);
    }
  }

  lemma SuperNeedsAllow(env: Env, p: Permission)
    requires env.account.Some?
    ensures Allows(SuperNeeds(env), p) <==>
              || (p.SuperUserPermission? && Superuser(env))
              || (p.GlobalReadOnlySuperUserPermission? && env.account.value.readonlySuperuser)
  {
    OneNeedAllows(SuperUserNeed, p);
    OneNeedAllows(GlobalReadOnlySuperUserNeed, p);
    NeedsAreThresholds(p, SuperUserNeed);
    NeedsAreThresholds(p, GlobalReadOnlySuperUserNeed);
  }

  lemma FullAccessMeans(env: Env, p: Permission)
    ensures FullAccess(env, p) <==>
              || (OnRepository(p) && Unlimited(env, p.ns, p.name))
              || (InOrganization(p) && Unlimited(env, p.ns, ""))
  {}

  /** Loading everything up front answers exactly as declared, for every permission, user, token and database. */
  lemma EagerIsDeclared(env: Env, repos: seq<RepoGrant>, p: Permission)
    requires env.scopes != {}
    ensures EagerCan(env, repos, p) <==> Declared(env, repos, p)
  {
    if env.account.Some? {
      var own := UserNeeds(env.scopes, env.account.value.username);
      var teams, grants := AllTeamNeeds(env.scopes, env.teams), AllRepoNeeds(env.scopes, repos);
      UnionAllows(SuperNeeds(env) + own + teams, grants, p);
      UnionAllows(SuperNeeds(env) + own, teams, p);
      UnionAllows(SuperNeeds(env), own, p);
      SuperNeedsAllow(env, p);
      OwnNeedsAllow(env.scopes, env.account.value.username, p);
      TeamsAllow(env.scopes, env.teams, p);
      GrantsAllow(env.scopes, repos, p);
      FullAccessMeans(env, p);
    }
  }

  // ---------------------------------------------------------------- the answers of can()

  /** With an exact replica can() answers as declared, after any checks in any order. */
  lemma AnswersAreDeclared(env: Env, checks: seq<Check>, p: Permission, view: View)
    requires env.scopes != {} && WellNamed(env) && AllUnambiguous(env, checks)
    requires ExactReplica(env, checks) && view.replica == env.primary
    ensures Can(env, After(env, checks), p, view).1 == Ok(Declared(env, env.primary, p))
  {
    LazyIsEager(env, checks, p, view);
    EagerIsDeclared(env, env.primary, p);
  }

  /** All the repository grants that any database showed. */
  function Shown(env: Env, checks: seq<Check>): seq<RepoGrant> {
    if checks == [] then env.primary
    else Shown(env, checks[..|checks| - 1]) + checks[|checks| - 1].view.replica
  }

  lemma {:induction false} PrimaryIsShown(env: Env, checks: seq<Check>)
    ensures forall g <- env.primary :: g in Shown(env, checks)
  {
    if checks != [] { PrimaryIsShown(env, checks[..|checks| - 1]); }
  }

  lemma {:induction false} HeldIsShown(env: Env, checks: seq<Check>)
    requires env.account.Some? && env.scopes != {}
    ensures After(env, checks).granted <= EagerProvides(env, Shown(env, checks))
  {
    if checks != [] {
      var front, last := checks[..|checks| - 1], checks[|checks| - 1];
      var id := After(env, front);
      HeldIsShown(env, front);
      SubsetGrantsLess(env, Shown(env, front), Shown(env, checks));
      PrimaryIsShown(env, front);
      LoadAllAdds(env, id, last.p, last.view);
      SubsetGrantsLess(env, Seen(env, id, last.p, last.view), Shown(env, checks));
      MarksKeptAfter(env, front);
      CanDecides(env, id, last.p, last.view);
    }
  }

  /**
    Whatever replicas show: what is declared without any repository grant is answered yes, and every yes is declared
    with the repository grants that some database has shown.
   */
  lemma AnswersAreBounded(env: Env, checks: seq<Check>, p: Permission, view: View)
    requires env.scopes != {} && WellNamed(env)
    ensures var answer := Can(env, After(env, checks), p, view).1;
            && (Declared(env, [], p) ==> answer == Ok(true))
            && (answer == Ok(true) ==> Declared(env, Shown(env, checks + [Check(p, view)]), p))
            && answer.Ok?
  {
    var id, all := After(env, checks), checks + [Check(p, view)];
    var seen := Seen(env, id, p, view);
    ChecksExactly(env, checks, p, view);
    EagerIsDeclared(env, [], p);
    EagerIsDeclared(env, Shown(env, all), p);
    assert all[..|checks|] == checks;
    if env.account.None? {
      UnknownUserStaysFresh(env, checks);
    } else {
      SubsetGrantsLess(env, [], seen);
      MoreGrantsAllowMore(EagerProvides(env, []), EagerProvides(env, seen), p);
      PrimaryIsShown(env, checks);
      SubsetGrantsLess(env, seen, Shown(env, all));
      MoreGrantsAllowMore(EagerProvides(env, seen), EagerProvides(env, Shown(env, all)), p);
      HeldIsShown(env, checks);
      SubsetGrantsLess(env, Shown(env, checks), Shown(env, all));
      MoreGrantsAllowMore(id.granted, EagerProvides(env, Shown(env, all)), p);
    }
  }

  /** So what does not concern a repository is answered as declared, after any checks and whatever replicas show. */
  lemma OtherAnswersAreDeclared(env: Env, checks: seq<Check>, p: Permission, view: View)
    requires env.scopes != {} && WellNamed(env) && !OnRepository(p)
    ensures Can(env, After(env, checks), p, view).1 == Ok(Declared(env, [], p))
  {
    AnswersAreBounded(env, checks, p, view);
  }

  /** Superusers are known by their account and their scopes, after any checks and whatever replicas show. */
  lemma SuperuserAnswers(env: Env, checks: seq<Check>, view: View)
    requires env.scopes != {} && WellNamed(env)
    ensures Can(env, After(env, checks), SuperUserPermission, view).1 ==
              Ok(&& env.account.Some? && env.account.value.superuser && !env.account.value.readonlySuperuser
                 && (SuperUser in env.scopes || DirectLogin in env.scopes))
    ensures Can(env, After(env, checks), GlobalReadOnlySuperUserPermission, view).1 ==
              Ok(env.account.Some? && env.account.value.readonlySuperuser)
  {
    OtherAnswersAreDeclared(env, checks, SuperUserPermission, view);
    OtherAnswersAreDeclared(env, checks, GlobalReadOnlySuperUserPermission, view);
  }

  /** A yes on a repository beyond the token's scopes takes a superuser with that power and the feature. */
  lemma BeyondScopesTakesSuperuser(env: Env, checks: seq<Check>, p: Permission, view: View)
    requires env.scopes != {} && WellNamed(env) && OnRepository(p)
    requires Can(env, After(env, checks), p, view).1 == Ok(true)
    ensures || AdminRepo in env.scopes || DirectLogin in env.scopes
            || (WriteRepo in env.scopes && !p.AdministerRepository?)
            || (ReadRepo in env.scopes && p.ReadRepository?)
            || (&& env.fullAccess && env.account.Some? && env.account.value.superuser
                && !env.account.value.readonlySuperuser && SuperUser in env.scopes)
  {
    AnswersAreBounded(env, checks, p, view);
  }
}
