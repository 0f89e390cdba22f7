/** QuayDeferredPermissionUser as the object it is: fields that the methods update in place. */
module DeferredUser {
  import opened Prelude
  import opened Scopes
  import opened Grants
  import DI = DeferredIdentity

  class QuayDeferredPermissionUser {
    const env: Env
    var granted: set<Need>
    var namespaceWideLoaded: set<string>
    var repositoriesLoaded: set<string>
    var repositoriesLoadedFromPrimary: set<string>
    var personalLoaded: bool
    var superuserLoaded: bool
    var readonlySuperuserLoaded: bool
    var superuserChecked: bool
    var allNamespacesLoaded: bool

    /** The fields as a value. */
    ghost function Loaded(): DI.Identity reads this {
      DI.Identity(granted, namespaceWideLoaded, repositoriesLoaded, repositoriesLoadedFromPrimary, personalLoaded,
                  superuserLoaded, readonlySuperuserLoaded, superuserChecked, allNamespacesLoaded)
    }

    constructor (env: Env)
      ensures this.env == env && Loaded() == DI.Fresh()
    {
      this.env := env;
      granted, namespaceWideLoaded, repositoriesLoaded, repositoriesLoadedFromPrimary := {}, {}, {}, {};
      personalLoaded, superuserLoaded, readonlySuperuserLoaded := false, false, false;
      superuserChecked, allNamespacesLoaded := false, false;
    }

    method PopulateUserProvides(username: string)
      requires env.scopes != {}
      modifies this`granted
      ensures granted == old(granted) + UserNeeds(env.scopes, username)
    {
      granted := granted + {UserNeed(username, TranslateRole(UserKind, env.scopes, Admin))};
      granted := granted + {OrganizationNeed(username, TranslateRole(TeamKind, env.scopes, Admin))};
      granted := granted + {OrganizationRepoNeed(username, TranslateRole(RepoKind, env.scopes, Admin))};
    }

    method AddTeam(team: TeamGrant, recordOrg: bool)
      requires env.scopes != {}
      modifies this`granted, this`namespaceWideLoaded
      ensures granted == old(granted) + TeamNeeds(env.scopes, team)
      ensures namespaceWideLoaded == old(namespaceWideLoaded) + if recordOrg then {team.org} else {}
    {
      granted := granted + {OrganizationNeed(team.org, TranslateRole(TeamKind, env.scopes, team.role))};
      var teamRepoRole := OrgWideRepoRole(team.role);
      granted := granted + {OrganizationRepoNeed(team.org, TranslateRole(RepoKind, env.scopes, teamRepoRole))};
      granted := granted + {TeamNeed(team.org, team.team, TranslateRole(TeamKind, env.scopes, team.role))};
      if recordOrg {
        namespaceWideLoaded := namespaceWideLoaded + {team.org};
      }
    }

    method AddTeams(teams: seq<TeamGrant>, recordOrgs: bool)
      requires env.scopes != {}
      modifies this`granted, this`namespaceWideLoaded
      ensures granted == old(granted) + AllTeamNeeds(env.scopes, teams)
      ensures namespaceWideLoaded == old(namespaceWideLoaded) + if recordOrgs then Orgs(teams) else {}
    {
      ghost var needs: set<Need>, orgs: set<string> := {}, {};
      for i := 0 to |teams|
        invariant needs == AllTeamNeeds(env.scopes, teams[..i]) && orgs == Orgs(teams[..i])
        invariant granted == old(granted) + needs
        invariant namespaceWideLoaded == old(namespaceWideLoaded) + if recordOrgs then orgs else {}
      {
        TeamNeedsSnoc(env.scopes, teams, i);
        OrgsSnoc(teams, i);
        needs, orgs := needs + TeamNeeds(env.scopes, teams[i]), orgs + {teams[i].org};
        AddTeam(teams[i], recordOrgs);
      }
      assert teams[..|teams|] == teams;
    }

    /** An empty filter selects the teams of every organization. */
    method PopulateNamespaceWideProvides(filter: string)
      requires env.scopes != {}
      modifies this`granted, this`namespaceWideLoaded
      ensures var teams := if filter == "" then env.teams else DI.OfOrg(env.teams, filter);
              granted == old(granted) + AllTeamNeeds(env.scopes, teams)
      ensures namespaceWideLoaded == old(namespaceWideLoaded) + if filter == "" then Orgs(env.teams) else {}
    {
      if filter == "" {
        AddTeams(env.teams, true);
      } else {
        AddTeams(DI.OfOrg(env.teams, filter), false);
      }
    }

    method AddGrants(permissions: seq<RepoGrant>)
      requires env.scopes != {}
      modifies this`granted
      ensures granted == old(granted) + AllRepoNeeds(env.scopes, permissions)
    {
      ghost var needs: set<Need> := {};
      for i := 0 to |permissions|
        invariant needs == AllRepoNeeds(env.scopes, permissions[..i])
        invariant granted == old(granted) + needs
      {
        RepoNeedsSnoc(env.scopes, permissions, i);
        needs := needs + {RepoNeed(env.scopes, permissions[i])};
        granted := granted + {RepoNeed(env.scopes, permissions[i])};
      }
      assert permissions[..|permissions|] == permissions;
    }

    method PopulateRepositoryProvides(ns: string, name: string, forWrite: bool, view: DI.View)
      requires env.scopes != {}
      modifies this`granted, this`repositoriesLoadedFromPrimary
      ensures var fromPrimary := forWrite || view.preferPrimary;
              var grants := DI.OfRepo(if fromPrimary then env.primary else view.replica, ns, name);
              && granted == old(granted) + AllRepoNeeds(env.scopes, grants)
              && repositoriesLoadedFromPrimary ==
                   old(repositoriesLoadedFromPrimary) + if fromPrimary then {DI.Key(ns, name)} else {}
    {
      var usePrimary := forWrite;
      if !forWrite && view.preferPrimary {
        usePrimary := true;
      }
      if usePrimary {
        repositoriesLoadedFromPrimary := repositoriesLoadedFromPrimary + {DI.Key(ns, name)};
        AddGrants(DI.OfRepo(env.primary, ns, name));
      } else {
        AddGrants(DI.OfRepo(view.replica, ns, name));
      }
    }

    method CheckSuperuser()
      requires env.account.Some?
      modifies this
      ensures Loaded() == DI.CheckSuperuser(env, old(Loaded()))
    {
      if !superuserChecked {
        var user := env.account.value;
        if user.readonlySuperuser {
          granted := granted + {GlobalReadOnlySuperUserNeed};
          readonlySuperuserLoaded := true;
        } else if (SuperUser in env.scopes || DirectLogin in env.scopes) && user.superuser {
          granted := granted + {SuperUserNeed};
          superuserLoaded := true;
        }
        superuserChecked := true;
      }
    }

    /** The loads that do not depend on the permission asked for. */
    method LoadOwn()
      requires env.account.Some? && env.scopes != {}
      modifies this
      ensures Loaded() == DI.LoadAllNamespaces(env, DI.LoadPersonal(env, old(Loaded())))
    {
      if !personalLoaded {
        PopulateUserProvides(env.account.value.username);
        personalLoaded := true;
      }
      if !allNamespacesLoaded && DirectLogin in env.scopes {
        PopulateNamespaceWideProvides("");
        allNamespacesLoaded := true;
      }
    }

    method LoadRepository(p: Permission, view: DI.View) returns (loaded: bool)
      requires env.scopes != {}
      modifies this
      ensures loaded == DI.NeedsRepositoryLoad(old(Loaded()), p)
      ensures Loaded() == DI.LoadRepository(env, old(Loaded()), p, view)
    {
      var ns, name := Namespace(p), RepoName(p);
      if ns == "" || name == "" { return false; }
      var key := DI.Key(ns, name);
      var isWriteCheck := IsWrite(p);
      var needsLoad := key !in repositoriesLoaded;
      var needsPrimaryReload := isWriteCheck && key in repositoriesLoaded && key !in repositoriesLoadedFromPrimary;
      loaded := needsLoad || needsPrimaryReload;
      if loaded {
        PopulateRepositoryProvides(ns, name, isWriteCheck, view);
        repositoriesLoaded := repositoriesLoaded + {key};
      }
    }

    method LoadNamespace(p: Permission)
      requires env.scopes != {}
      modifies this
      ensures Loaded() == DI.LoadNamespace(env, old(Loaded()), p)
    {
      var ns := Namespace(p);
      if ns != "" && ns !in namespaceWideLoaded && !allNamespacesLoaded {
        PopulateNamespaceWideProvides(ns);
        namespaceWideLoaded := namespaceWideLoaded + {ns};
      }
    }

    /** can() does what the pure description does, field by field and answer for answer. */
    method Can(p: Permission, view: DI.View) returns (answer: Result<bool, DI.Error>)
      modifies this
      ensures (Loaded(), answer) == DI.Can(env, old(Loaded()), p, view)
    {
      if env.account.None? {
        return Ok(Allows(granted, p));
      }
      CheckSuperuser();
      if superuserLoaded && env.fullAccess {
        if Namespace(p) != "" || RepoName(p) != "" {
          return Ok(true);
        }
      }
      if env.scopes == {} {
        return Err(DI.ValueError);
      }
      LoadOwn();
      if Allows(granted, p) {
        return Ok(true);
      }
      if Namespace(p) == "" && RepoName(p) == "" {
        return Ok(Allows(granted, p));
      }
      var loaded := LoadRepository(p, view);
      if loaded && Allows(granted, p) {
        return Ok(true);
      }
      LoadNamespace(p);
      answer := Ok(Allows(granted, p));
    }
  }

  lemma OrgsSnoc(teams: seq<TeamGrant>, i: nat)
    requires i < |teams|
    ensures Orgs(teams[..i + 1]) == Orgs(teams[..i]) + {teams[i].org}
  {}

  lemma TeamNeedsSnoc(scopes: set<Scope>, teams: seq<TeamGrant>, i: nat)
    requires scopes != {} && i < |teams|
    ensures AllTeamNeeds(scopes, teams[..i + 1]) == AllTeamNeeds(scopes, teams[..i]) + TeamNeeds(scopes, teams[i])
  {
    var a, b := teams[..i + 1], teams[..i];
    forall n | n in AllTeamNeeds(scopes, a) ensures n in AllTeamNeeds(scopes, b) + TeamNeeds(scopes, teams[i]) {
      var k :| 0 <= k < |a| && n in TeamNeeds(scopes, a[k]);
      if k < i { assert b[k] == a[k]; }
    }
    forall n | n in AllTeamNeeds(scopes, b) + TeamNeeds(scopes, teams[i]) ensures n in AllTeamNeeds(scopes, a) {
      if n in AllTeamNeeds(scopes, b) {
        var k :| 0 <= k < |b| && n in TeamNeeds(scopes, b[k]);
        assert a[k] == b[k];
      } else {
        assert a[i] == teams[i];
      }
    }
  }

  lemma RepoNeedsSnoc(scopes: set<Scope>, grants: seq<RepoGrant>, i: nat)
    requires scopes != {} && i < |grants|
    ensures AllRepoNeeds(scopes, grants[..i + 1]) == AllRepoNeeds(scopes, grants[..i]) + {RepoNeed(scopes, grants[i])}
  {}
}
