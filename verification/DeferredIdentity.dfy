/**
  The lazily loading identity of auth/permissions.py as a pure function of its loaded state, and
  its comparison with loading everything up front.
 */
module DeferredIdentity {
  import opened Prelude
  import opened Scopes
  import opened Grants

  /** The mutable fields of QuayDeferredPermissionUser. */
  datatype Identity = Identity(
    granted: set<Need>,
    namespaceWideLoaded: set<string>,
    repositoriesLoaded: set<string>,
    loadedFromPrimary: set<string>,
    personalLoaded: bool,
    superuserLoaded: bool,
    readonlySuperuserLoaded: bool,
    superuserChecked: bool,
    allNamespacesLoaded: bool)

  function Fresh(): Identity {
    Identity({}, {}, {}, {}, false, false, false, false, false)
  }

  /**
    What one call of can() meets: the replica's repository grants at that moment, and whether
    the modification tracker (unavailable, failing, or flagging the repository) sends a read to the primary.
   */
  datatype View = View(replica: seq<RepoGrant>, preferPrimary: bool)

  /** ValueError: max() of an empty scope set. */
  datatype Error = ValueError

  function Key(ns: string, name: string): string { ns + "/" + name }

  function OfOrg(teams: seq<TeamGrant>, ns: string): (r: seq<TeamGrant>)
    ensures forall g :: g in r <==> g in teams && g.org == ns
  {
    if teams == [] then []
    else
      assert teams == [teams[0]] + teams[1..];
      (if teams[0].org == ns then [teams[0]] else []) + OfOrg(teams[1..], ns)
  }

  function OfRepo(grants: seq<RepoGrant>, ns: string, name: string): (r: seq<RepoGrant>)
    ensures forall g :: g in r <==> g in grants && g.ns == ns && g.name == name
  {
    if grants == [] then []
    else
      assert grants == [grants[0]] + grants[1..];
      (if grants[0].ns == ns && grants[0].name == name then [grants[0]] else []) + OfRepo(grants[1..], ns, name)
  }

  // ---------------------------------------------------------------- can(), stage by stage

  predicate SameRepositories(id: Identity, id': Identity) {
    id'.repositoriesLoaded == id.repositoriesLoaded && id'.loadedFromPrimary == id.loadedFromPrimary
  }

  function CheckSuperuser(env: Env, id: Identity): (id': Identity)
    ensures id.granted <= id'.granted && id'.superuserChecked
    ensures SameRepositories(id, id')
  {
    if id.superuserChecked then id
    else
      var id := id.(granted := id.granted + SuperNeeds(env), superuserChecked := true);
      if IsReadonlySuper(env) then id.(readonlySuperuserLoaded := true)
      else if IsSuper(env) then id.(superuserLoaded := true)
      else id
  }

  function LoadPersonal(env: Env, id: Identity): (id': Identity)
    requires env.account.Some? && env.scopes != {}
    ensures id.granted <= id'.granted && id'.personalLoaded
  {
    if id.personalLoaded then id
    else id.(granted := id.granted + UserNeeds(env.scopes, env.account.value.username), personalLoaded := true)
  }

  function LoadAllNamespaces(env: Env, id: Identity): (id': Identity)
    requires env.scopes != {}
    ensures id.granted <= id'.granted && (DirectLogin in env.scopes ==> id'.allNamespacesLoaded)
  {
    if id.allNamespacesLoaded || DirectLogin !in env.scopes then id
    else id.(granted := id.granted + AllTeamNeeds(env.scopes, env.teams),
             namespaceWideLoaded := id.namespaceWideLoaded + Orgs(env.teams),
             allNamespacesLoaded := true)
  }

  predicate NeedsRepositoryLoad(id: Identity, p: Permission) {
    var key := Key(Namespace(p), RepoName(p));
    && Namespace(p) != "" && RepoName(p) != ""
    && (key !in id.repositoriesLoaded || (IsWrite(p) && key !in id.loadedFromPrimary))
  }

  function LoadRepository(env: Env, id: Identity, p: Permission, view: View): (id': Identity)
    requires env.scopes != {}
    ensures id.granted <= id'.granted && !NeedsRepositoryLoad(id', p)
  {
    if !NeedsRepositoryLoad(id, p) then id
    else
      var key := Key(Namespace(p), RepoName(p));
      var fromPrimary := IsWrite(p) || view.preferPrimary;
      var grants := OfRepo(if fromPrimary then env.primary else view.replica, Namespace(p), RepoName(p));
      id.(granted := id.granted + AllRepoNeeds(env.scopes, grants),
          repositoriesLoaded := id.repositoriesLoaded + {key},
          loadedFromPrimary := if fromPrimary then id.loadedFromPrimary + {key} else id.loadedFromPrimary)
  }

  function LoadNamespace(env: Env, id: Identity, p: Permission): (id': Identity)
    requires env.scopes != {}
    ensures id.granted <= id'.granted
    ensures Namespace(p) != "" ==> id'.allNamespacesLoaded || Namespace(p) in id'.namespaceWideLoaded
    ensures SameRepositories(id, id')
  {
    var ns := Namespace(p);
    if ns == "" || ns in id.namespaceWideLoaded || id.allNamespacesLoaded then id
    else id.(granted := id.granted + AllTeamNeeds(env.scopes, OfOrg(env.teams, ns)),
             namespaceWideLoaded := id.namespaceWideLoaded + {ns})
  }

  /** The stages that do not depend on the permission. */
  function LoadOwn(env: Env, id: Identity): (id': Identity)
    requires env.account.Some? && env.scopes != {}
    ensures id.granted <= id'.granted && id'.superuserChecked && id'.personalLoaded
    ensures SameRepositories(id, id')
  {
    LoadAllNamespaces(env, LoadPersonal(env, CheckSuperuser(env, id)))
  }

  /** All stages, as if can() never returned early. */
  function LoadAll(env: Env, id: Identity, p: Permission, view: View): (id': Identity)
    requires env.account.Some? && env.scopes != {}
    ensures id.granted <= id'.granted && id'.superuserChecked && id'.personalLoaded
  {
    LoadNamespace(env, LoadRepository(env, LoadOwn(env, id), p, view), p)
  }

  /** can(): the identity afterwards, and the answer. */
  function Can(env: Env, id: Identity, p: Permission, view: View): (Identity, Result<bool, Error>) {
    if env.account.None? then (id, Ok(Allows(id.granted, p)))
    else
      var checked := CheckSuperuser(env, id);
      if checked.superuserLoaded && env.fullAccess && (Namespace(p) != "" || RepoName(p) != "") then (checked, Ok(true))
      else if env.scopes == {} then (checked, Err(ValueError))
      else
        var own := LoadAllNamespaces(env, LoadPersonal(env, checked)); // the permission may be settled now
        if Allows(own.granted, p) || (Namespace(p) == "" && RepoName(p) == "")
        then (own, Ok(Allows(own.granted, p)))
        else
          var repo := LoadRepository(env, own, p, view);
          if NeedsRepositoryLoad(own, p) && Allows(repo.granted, p) then (repo, Ok(true))
          else
            var all := LoadNamespace(env, repo, p);
            (all, Ok(Allows(all.granted, p)))
  }

  // ---------------------------------------------------------------- runs of checks

  datatype Check = Check(p: Permission, view: View)

  /** The identity after a sequence of checks. */
  function After(env: Env, checks: seq<Check>): Identity {
    if checks == [] then Fresh()
    else
      var last := checks[|checks| - 1];
      Can(env, After(env, checks[..|checks| - 1]), last.p, last.view).0
  }

  /** Nothing in the database is nameless. */
  predicate WellNamed(env: Env) {
    && (forall g <- env.teams :: g.org != "")
    && (forall g <- env.primary :: g.ns != "" && g.name != "")
  }

  /** The key that a check may mark as loaded is not the key of another repository with a grant. */
  predicate Unambiguous(env: Env, p: Permission) {
    Namespace(p) != "" && RepoName(p) != "" ==>
      forall g <- env.primary :: Key(g.ns, g.name) == Key(Namespace(p), RepoName(p))
                                 ==> g.ns == Namespace(p) && g.name == RepoName(p)
  }

  predicate AllUnambiguous(env: Env, checks: seq<Check>) {
    forall i | 0 <= i < |checks| :: Unambiguous(env, checks[i].p)
  }

  predicate SlashFree(s: string) { '/' !in s }

  lemma KeyIsInjective(ns: string, name: string, ns': string, name': string)
    requires SlashFree(ns) && SlashFree(ns') && Key(ns, name) == Key(ns', name')
    ensures ns == ns' && name == name'
  {
    var k := Key(ns, name);
    assert forall i | 0 <= i < |ns| :: k[i] == ns[i] && ns[i] in ns;
    assert forall i | 0 <= i < |ns'| :: k[i] == ns'[i] && ns'[i] in ns';
    assert k[|ns|] == '/' && k[|ns'|] == '/';
    assert ns == k[..|ns|] && ns' == k[..|ns'|];
    assert name == k[|ns| + 1..] && name' == k[|ns'| + 1..];
  }

  /** With namespaces that are single path segments, as the registry has them, no key is ambiguous. */
  lemma SlashFreeIsUnambiguous(env: Env, p: Permission)
    requires SlashFree(Namespace(p)) && forall g <- env.primary :: SlashFree(g.ns)
    ensures Unambiguous(env, p)
  {
    forall g | g in env.primary && Key(g.ns, g.name) == Key(Namespace(p), RepoName(p))
      ensures g.ns == Namespace(p) && g.name == RepoName(p)
    {
      KeyIsInjective(g.ns, g.name, Namespace(p), RepoName(p));
    }
  }

  // ---------------------------------------------------------------- the cache invariant

  /** What the marks other than those of repositories promise about the grants that are present. */
  ghost predicate MarksKept(env: Env, id: Identity)
    requires env.account.Some? && env.scopes != {}
  {
    && (id.superuserChecked ==> SuperNeeds(env) <= id.granted)
    && (id.superuserLoaded <==> id.superuserChecked && IsSuper(env))
    && (id.readonlySuperuserLoaded <==> id.superuserChecked && env.account.value.readonlySuperuser)
    && (id.personalLoaded ==> UserNeeds(env.scopes, env.account.value.username) <= id.granted)
    && (id.allNamespacesLoaded ==> AllTeamNeeds(env.scopes, env.teams) <= id.granted)
    && (forall g <- env.teams :: g.org in id.namespaceWideLoaded ==> TeamNeeds(env.scopes, g) <= id.granted)
  }

  /** The primary's grants of the repositories with a marked key are present. */
  ghost predicate Kept(env: Env, id: Identity, marked: set<string>)
    requires env.scopes != {}
  {
    forall g <- env.primary :: Key(g.ns, g.name) in marked ==> RepoNeed(env.scopes, g) in id.granted
  }

  lemma AllTeamNeedsOf(scopes: set<Scope>, teams: seq<TeamGrant>, n: Need)
    requires scopes != {}
    ensures n in AllTeamNeeds(scopes, teams) <==> exists g <- teams :: n in TeamNeeds(scopes, g)
  {}

  lemma AllRepoNeedsOf(scopes: set<Scope>, grants: seq<RepoGrant>, n: Need)
    requires scopes != {}
    ensures n in AllRepoNeeds(scopes, grants) <==> exists g <- grants :: n == RepoNeed(scopes, g)
  {}

  lemma MoreGrantsAllowMore(granted: set<Need>, granted': set<Need>, p: Permission)
    requires granted <= granted'
    ensures Allows(granted, p) ==> Allows(granted', p)
  {}

  lemma OneOfTwoAllows(granted: set<Need>, a: set<Need>, b: set<Need>, p: Permission)
    requires granted <= a + b
    ensures Allows(granted, p) ==> Allows(a, p) || Allows(b, p)
  {}

  /** Where can() returns, in terms of its stages. */
  lemma CanByStages(env: Env, id: Identity, p: Permission, view: View)
    requires env.account.Some? && env.scopes != {}
    requires id.superuserLoaded <==> id.superuserChecked && IsSuper(env)
    ensures var own := LoadOwn(env, id);
            var repo := LoadRepository(env, own, p, view);
            var all := LoadAll(env, id, p, view);
            Can(env, id, p, view) ==
              if FullAccess(env, p) then (CheckSuperuser(env, id), Ok(true))
              else if Allows(own.granted, p) || (Namespace(p) == "" && RepoName(p) == "") then (own, Ok(Allows(own.granted, p)))
              else if NeedsRepositoryLoad(own, p) && Allows(repo.granted, p) then (repo, Ok(true))
              else (all, Ok(Allows(all.granted, p)))
  {
    assert CheckSuperuser(env, id).superuserLoaded <==> IsSuper(env);
  }

  lemma StagesOnlyAdd(env: Env, id: Identity, p: Permission, view: View)
    requires env.account.Some? && env.scopes != {}
    ensures var own := LoadOwn(env, id);
            var repo := LoadRepository(env, own, p, view);
            var all := LoadAll(env, id, p, view);
            && id.granted <= CheckSuperuser(env, id).granted <= own.granted <= repo.granted <= all.granted
            && (Namespace(p) == "" && RepoName(p) == "" ==> all == own)
  {}

  /** Returning early never changes the answer, and never loads more than the full sequence of stages. */
  lemma CanDecides(env: Env, id: Identity, p: Permission, view: View)
    requires env.account.Some? && env.scopes != {}
    requires id.superuserLoaded <==> id.superuserChecked && IsSuper(env)
    ensures var r := Can(env, id, p, view);
            var all := LoadAll(env, id, p, view);
            && r.1 == Ok(FullAccess(env, p) || Allows(all.granted, p))
            && id.granted <= r.0.granted <= all.granted
            && (r.1 == Ok(true) ==> FullAccess(env, p) || Allows(r.0.granted, p))
  {
    var own, all := LoadOwn(env, id), LoadAll(env, id, p, view);
    var repo := LoadRepository(env, own, p, view);
    CanByStages(env, id, p, view);
    StagesOnlyAdd(env, id, p, view);
    MoreGrantsAllowMore(own.granted, all.granted, p);
    MoreGrantsAllowMore(repo.granted, all.granted, p);
  }

  lemma CanStopsAtAStage(env: Env, id: Identity, p: Permission, view: View)
    requires env.account.Some? && env.scopes != {}
    ensures var id', own := Can(env, id, p, view).0, LoadOwn(env, id);
            || id' == CheckSuperuser(env, id)
            || id' == own
            || id' == LoadRepository(env, own, p, view)
            || id' == LoadAll(env, id, p, view)
  {}

  lemma OwnStagesKeepMarks(env: Env, id: Identity)
    requires env.account.Some? && env.scopes != {} && MarksKept(env, id)
    ensures MarksKept(env, CheckSuperuser(env, id)) && MarksKept(env, LoadOwn(env, id))
  {
    var own := LoadOwn(env, id);
    forall g | g in env.teams && own.allNamespacesLoaded ensures TeamNeeds(env.scopes, g) <= own.granted {
      forall n | n in TeamNeeds(env.scopes, g) ensures n in own.granted { AllTeamNeedsOf(env.scopes, env.teams, n); }
    }
  }

  lemma LaterStagesKeepMarks(env: Env, id: Identity, p: Permission, view: View)
    requires env.account.Some? && env.scopes != {} && MarksKept(env, id)
    ensures MarksKept(env, LoadRepository(env, id, p, view)) && MarksKept(env, LoadNamespace(env, id, p))
  {}

  lemma AllStagesKeepMarks(env: Env, id: Identity, p: Permission, view: View)
    requires env.account.Some? && env.scopes != {} && MarksKept(env, id)
    ensures MarksKept(env, LoadAll(env, id, p, view)) && MarksKept(env, Can(env, id, p, view).0)
  {
    OwnStagesKeepMarks(env, id);
    var own := LoadOwn(env, id);
    LaterStagesKeepMarks(env, own, p, view);
    LaterStagesKeepMarks(env, LoadRepository(env, own, p, view), p, view);
    CanStopsAtAStage(env, id, p, view);
  }

  /** The marks are honest after any checks, whatever the replica showed. */
  lemma {:induction false} MarksKeptAfter(env: Env, checks: seq<Check>)
    requires env.account.Some? && env.scopes != {}
    ensures MarksKept(env, After(env, checks))
  {
    if checks != [] {
      var front, last := checks[..|checks| - 1], checks[|checks| - 1];
      MarksKeptAfter(env, front);
      AllStagesKeepMarks(env, After(env, front), last.p, last.view);
    }
  }

  // ---------------------------------------------------------------- what one call answers

  /** The repository grants a call reads: none if it reads nothing, else the primary's or the replica's. */
  function Seen(env: Env, id: Identity, p: Permission, view: View): seq<RepoGrant> {
    if !NeedsRepositoryLoad(id, p) then []
    else if IsWrite(p) || view.preferPrimary then env.primary
    else view.replica
  }

  lemma OwnStagesAdd(env: Env, id: Identity, repos: seq<RepoGrant>)
    requires env.account.Some? && env.scopes != {}
    ensures LoadOwn(env, id).granted <= id.granted + EagerProvides(env, repos)
  {}

  lemma RepositoryStageAdds(env: Env, id: Identity, p: Permission, view: View)
    requires env.account.Some? && env.scopes != {}
    ensures LoadRepository(env, id, p, view).granted <= id.granted + EagerProvides(env, Seen(env, id, p, view))
  {}

  lemma NamespaceStageAdds(env: Env, id: Identity, p: Permission, repos: seq<RepoGrant>)
    requires env.account.Some? && env.scopes != {}
    ensures LoadNamespace(env, id, p).granted <= id.granted + EagerProvides(env, repos)
  {}

  /** All that a call can add is granted eagerly, with the repository grants the call reads. */
  lemma LoadAllAdds(env: Env, id: Identity, p: Permission, view: View)
    requires env.account.Some? && env.scopes != {}
    ensures LoadAll(env, id, p, view).granted <= id.granted + EagerProvides(env, Seen(env, id, p, view))
  {
    var own, seen := LoadOwn(env, id), Seen(env, id, p, view);
    assert seen == Seen(env, own, p, view);
    OwnStagesAdd(env, id, seen);
    RepositoryStageAdds(env, own, p, view);
    NamespaceStageAdds(env, LoadRepository(env, own, p, view), p, seen);
  }

  /** No need of a permission is served by a repository grant of another repository or by a team of another namespace. */
  lemma OnlyOwnGrantsServe(scopes: set<Scope>, p: Permission, n: Need)
    requires scopes != {} && n in Needs(p)
    ensures forall g: RepoGrant :: n == RepoNeed(scopes, g) ==> g.ns == Namespace(p) && g.name == RepoName(p)
    ensures forall g: TeamGrant :: n in TeamNeeds(scopes, g) ==> g.org == Namespace(p)
  {}

  lemma RepositoryStageLoads(env: Env, id: Identity, p: Permission, view: View, n: Need)
    requires env.scopes != {} && n in Needs(p) && n in AllRepoNeeds(env.scopes, Seen(env, id, p, view))
    ensures n in LoadRepository(env, id, p, view).granted
  {
    var seen := Seen(env, id, p, view);
    AllRepoNeedsOf(env.scopes, seen, n);
    var g :| g in seen && n == RepoNeed(env.scopes, g);
    OnlyOwnGrantsServe(env.scopes, p, n);
    AllRepoNeedsOf(env.scopes, OfRepo(seen, g.ns, g.name), n);
  }

  lemma NamespaceStageLoads(env: Env, id: Identity, p: Permission, n: Need)
    requires env.account.Some? && env.scopes != {} && MarksKept(env, LoadNamespace(env, id, p)) && Namespace(p) != ""
    requires n in Needs(p) && n in AllTeamNeeds(env.scopes, env.teams)
    ensures n in LoadNamespace(env, id, p).granted
  {
    AllTeamNeedsOf(env.scopes, env.teams, n);
    var g :| g in env.teams && n in TeamNeeds(env.scopes, g);
    OnlyOwnGrantsServe(env.scopes, p, n);
  }

  /** Whatever eager loading with the grants the call reads would use for this permission, the stages load. */
  lemma LoadAllMissesNothing(env: Env, id: Identity, p: Permission, view: View)
    requires env.account.Some? && env.scopes != {} && WellNamed(env) && MarksKept(env, id)
    requires Allows(EagerProvides(env, Seen(env, id, p, view)), p)
    ensures Allows(LoadAll(env, id, p, view).granted, p)
  {
    var n :| n in Needs(p) * EagerProvides(env, Seen(env, id, p, view));
    var own, all := LoadOwn(env, id), LoadAll(env, id, p, view);
    var repo := LoadRepository(env, own, p, view);
    AllStagesKeepMarks(env, id, p, view);
    OwnStagesKeepMarks(env, id);
    if n in AllRepoNeeds(env.scopes, Seen(env, id, p, view)) {
      assert Seen(env, id, p, view) == Seen(env, own, p, view);
      RepositoryStageLoads(env, own, p, view, n);
    } else if n in AllTeamNeeds(env.scopes, env.teams) {
      AllTeamNeedsOf(env.scopes, env.teams, n);
      OnlyOwnGrantsServe(env.scopes, p, n);
      NamespaceStageLoads(env, repo, p, n);
    } else {
      assert n in SuperNeeds(env) + UserNeeds(env.scopes, env.account.value.username) && n in own.granted;
    }
    assert n in Needs(p) * all.granted;
  }

  /** One call, exactly: yes if a grant already held says yes, or eager loading with the grants the call reads does. */
  lemma CanExactly(env: Env, id: Identity, p: Permission, view: View)
    requires env.account.Some? && env.scopes != {} && WellNamed(env) && MarksKept(env, id)
    ensures Can(env, id, p, view).1 == Ok(EagerCan(env, Seen(env, id, p, view), p) || Allows(id.granted, p))
  {
    var all, seen := LoadAll(env, id, p, view), Seen(env, id, p, view);
    CanDecides(env, id, p, view);
    LoadAllAdds(env, id, p, view);
    OneOfTwoAllows(all.granted, id.granted, EagerProvides(env, seen), p);
    MoreGrantsAllowMore(id.granted, all.granted, p);
    if Allows(EagerProvides(env, seen), p) { LoadAllMissesNothing(env, id, p, view); }
  }

  /**
    Every answer, exactly, after any checks and with any replica at every call.  Which repository
    grants a call reads depends on the marks, the kind of check and the tracker.
   */
  lemma ChecksExactly(env: Env, checks: seq<Check>, p: Permission, view: View)
    requires env.scopes != {} && WellNamed(env)
    ensures var id := After(env, checks);
            Can(env, id, p, view).1 == Ok(EagerCan(env, Seen(env, id, p, view), p) || Allows(id.granted, p))
  {
    if env.account.None? {
      UnknownUserStaysFresh(env, checks);
    } else {
      MarksKeptAfter(env, checks);
      CanExactly(env, After(env, checks), p, view);
    }
  }

  /** An unknown user is granted nothing, ever. */
  lemma {:induction false} UnknownUserStaysFresh(env: Env, checks: seq<Check>)
    requires env.account.None?
    ensures After(env, checks) == Fresh()
  {
    if checks != [] { UnknownUserStaysFresh(env, checks[..|checks| - 1]); }
  }

  // ---------------------------------------------------------------- which repository grants are held

  /** A repository load from the primary, or from a replica that equals it, leaves its key rightly marked. */
  lemma RepositoryStageKeeps(env: Env, id: Identity, p: Permission, view: View, exact: bool)
    requires env.scopes != {} && Unambiguous(env, p) && (exact ==> view.replica == env.primary)
    requires Kept(env, id, if exact then id.repositoriesLoaded else id.loadedFromPrimary)
    ensures var id' := LoadRepository(env, id, p, view);
            Kept(env, id', if exact then id'.repositoriesLoaded else id'.loadedFromPrimary)
  {
    var id' := LoadRepository(env, id, p, view);
    var marked := if exact then id.repositoriesLoaded else id.loadedFromPrimary;
    forall g | g in env.primary && RepoNeed(env.scopes, g) !in id'.granted
      ensures Key(g.ns, g.name) !in if exact then id'.repositoriesLoaded else id'.loadedFromPrimary
    {
      assert Key(g.ns, g.name) !in marked;
      if NeedsRepositoryLoad(id, p) && (exact || IsWrite(p) || view.preferPrimary) {
        AllRepoNeedsOf(env.scopes, OfRepo(env.primary, g.ns, g.name), RepoNeed(env.scopes, g));
      }
    }
  }

  lemma KeptGrows(env: Env, id: Identity, id': Identity, exact: bool)
    requires env.scopes != {} && id.granted <= id'.granted
    requires SameRepositories(id, id')
    requires Kept(env, id, if exact then id.repositoriesLoaded else id.loadedFromPrimary)
    ensures Kept(env, id', if exact then id'.repositoriesLoaded else id'.loadedFromPrimary)
  {}

  lemma CanKeeps(env: Env, id: Identity, p: Permission, view: View, exact: bool)
    requires env.scopes != {} && Unambiguous(env, p) && (exact ==> view.replica == env.primary)
    requires Kept(env, id, if exact then id.repositoriesLoaded else id.loadedFromPrimary)
    ensures var id' := Can(env, id, p, view).0;
            Kept(env, id', if exact then id'.repositoriesLoaded else id'.loadedFromPrimary)
  {
    if env.account.Some? {
      var own := LoadOwn(env, id);
      var repo := LoadRepository(env, own, p, view);
      CanStopsAtAStage(env, id, p, view);
      KeptGrows(env, id, CheckSuperuser(env, id), exact);
      KeptGrows(env, id, own, exact);
      RepositoryStageKeeps(env, own, p, view, exact);
      KeptGrows(env, repo, LoadNamespace(env, repo, p), exact);
    }
  }

  /** Every view shows exactly the primary. */
  predicate ExactReplica(env: Env, checks: seq<Check>) {
    forall i | 0 <= i < |checks| :: checks[i].view.replica == env.primary
  }

  /** After any checks the marks of the primary are honest; with an exact replica all repository marks are. */
  lemma {:induction false} KeptAfter(env: Env, checks: seq<Check>, exact: bool)
    requires env.scopes != {} && AllUnambiguous(env, checks) && (exact ==> ExactReplica(env, checks))
    ensures var id := After(env, checks);
            Kept(env, id, if exact then id.repositoriesLoaded else id.loadedFromPrimary)
  {
    if checks != [] {
      var front, last := checks[..|checks| - 1], checks[|checks| - 1];
      KeptAfter(env, front, exact);
      CanKeeps(env, After(env, front), last.p, last.view, exact);
    }
  }

  lemma EagerAllowsBySource(env: Env, repos: seq<RepoGrant>, p: Permission)
    requires env.account.Some? && env.scopes != {}
    ensures Allows(EagerProvides(env, repos), p) <==>
              Allows(EagerProvides(env, []), p) || Allows(AllRepoNeeds(env.scopes, repos), p)
  {
    var all, own, repo := EagerProvides(env, repos), EagerProvides(env, []), AllRepoNeeds(env.scopes, repos);
    assert AllRepoNeeds(env.scopes, []) == {};
    assert all == own + repo;
    OneOfTwoAllows(all, own, repo, p);
    MoreGrantsAllowMore(own, all, p);
    MoreGrantsAllowMore(repo, all, p);
  }

  lemma HeldGrantsAllow(env: Env, id: Identity, p: Permission, marked: set<string>)
    requires env.scopes != {} && WellNamed(env) && Kept(env, id, marked)
    requires Namespace(p) != "" && RepoName(p) != "" ==> Key(Namespace(p), RepoName(p)) in marked
    ensures Allows(AllRepoNeeds(env.scopes, env.primary), p) ==> Allows(id.granted, p)
  {
    if Allows(AllRepoNeeds(env.scopes, env.primary), p) {
      var n :| n in Needs(p) * AllRepoNeeds(env.scopes, env.primary);
      AllRepoNeedsOf(env.scopes, env.primary, n);
      OnlyOwnGrantsServe(env.scopes, p, n);
      assert n in Needs(p) * id.granted;
    }
  }

  /** Where the primary's grants of a repository are held, reading none of them again changes no answer. */
  lemma HeldGrantsSuffice(env: Env, id: Identity, p: Permission, marked: set<string>)
    requires env.account.Some? && env.scopes != {} && WellNamed(env) && Kept(env, id, marked)
    requires Namespace(p) != "" && RepoName(p) != "" ==> Key(Namespace(p), RepoName(p)) in marked
    ensures EagerCan(env, env.primary, p) || Allows(id.granted, p) <==> EagerCan(env, [], p) || Allows(id.granted, p)
  {
    EagerAllowsBySource(env, env.primary, p);
    HeldGrantsAllow(env, id, p, marked);
  }

  /** The replica never shows a grant the primary does not have. */
  predicate NoStaleGrants(env: Env, checks: seq<Check>) {
    forall i, g | 0 <= i < |checks| && g in checks[i].view.replica :: g in env.primary
  }

  lemma SubsetGrantsLess(env: Env, repos: seq<RepoGrant>, repos': seq<RepoGrant>)
    requires env.account.Some? && env.scopes != {} && forall g <- repos :: g in repos'
    ensures EagerProvides(env, repos) <= EagerProvides(env, repos')
  {
    forall n | n in AllRepoNeeds(env.scopes, repos) ensures n in AllRepoNeeds(env.scopes, repos') {
      AllRepoNeedsOf(env.scopes, repos, n);
      AllRepoNeedsOf(env.scopes, repos', n);
    }
  }

  /** Without stale grants nothing beyond the eager grants is ever loaded. */
  lemma {:induction false} NothingExtraAfter(env: Env, checks: seq<Check>)
    requires env.account.Some? && env.scopes != {} && NoStaleGrants(env, checks)
    ensures After(env, checks).granted <= EagerProvides(env, env.primary)
  {
    if checks != [] {
      var front, last := checks[..|checks| - 1], checks[|checks| - 1];
      var id := After(env, front);
      NothingExtraAfter(env, front);
      LoadAllAdds(env, id, last.p, last.view);
      SubsetGrantsLess(env, Seen(env, id, last.p, last.view), env.primary);
      MarksKeptAfter(env, front);
      CanDecides(env, id, last.p, last.view);
    }
  }

  // ---------------------------------------------------------------- an exact replica

  lemma CanKeepsSuperuserFlags(env: Env, id: Identity, p: Permission, view: View)
    requires env.account.Some? && env.scopes == {}
    ensures Can(env, id, p, view).0 == CheckSuperuser(env, id)
  {}

  /** Without scopes nobody passes as a superuser. */
  lemma {:induction false} NoScopesNoSuperuser(env: Env, checks: seq<Check>)
    requires env.account.Some? && env.scopes == {}
    ensures !After(env, checks).superuserLoaded
  {
    if checks != [] {
      var front, last := checks[..|checks| - 1], checks[|checks| - 1];
      NoScopesNoSuperuser(env, front);
      CanKeepsSuperuserFlags(env, After(env, front), last.p, last.view);
    }
  }

  /**
    Lazy loading is eager loading: after any checks in any order, the answer to any check is the
    one that loading everything up front gives; without scopes every check of a known user fails with
    the same error.  No check before may have had an ambiguous key.
   */
  lemma LazyIsEager(env: Env, checks: seq<Check>, p: Permission, view: View)
    requires WellNamed(env) && AllUnambiguous(env, checks)
    requires ExactReplica(env, checks) && view.replica == env.primary
    ensures env.scopes != {} ==> Can(env, After(env, checks), p, view).1 == Ok(EagerCan(env, env.primary, p))
    ensures env.scopes == {} && env.account.Some? ==> Can(env, After(env, checks), p, view).1 == Err(ValueError)
    ensures env.scopes == {} && env.account.None? ==> Can(env, After(env, checks), p, view).1 == Ok(false)
  {
    var id := After(env, checks);
    if env.account.None? {
      UnknownUserStaysFresh(env, checks);
    } else if env.scopes == {} {
      NoScopesNoSuperuser(env, checks);
    } else {
      ChecksExactly(env, checks, p, view);
      KeptAfter(env, checks, true);
      NothingExtraAfter(env, checks);
      MoreGrantsAllowMore(id.granted, EagerProvides(env, env.primary), p);
      if !NeedsRepositoryLoad(id, p) { HeldGrantsSuffice(env, id, p, id.repositoriesLoaded); }
    }
  }

  /**
    With an exact replica, and no demand on keys: the answer is the eager one if and only if the call still reads the
    repository's grants, or the answer does not hang on a repository grant that is not held.
   */
  lemma LazyIsEagerIff(env: Env, checks: seq<Check>, p: Permission, view: View)
    requires env.account.Some? && env.scopes != {} && WellNamed(env)
    requires ExactReplica(env, checks) && view.replica == env.primary
    ensures var id := After(env, checks);
            Can(env, id, p, view).1 == Ok(EagerCan(env, env.primary, p)) <==>
              || NeedsRepositoryLoad(id, p)
              || EagerCan(env, [], p) || Allows(id.granted, p)
              || !Allows(AllRepoNeeds(env.scopes, env.primary), p)
  {
    var id := After(env, checks);
    ChecksExactly(env, checks, p, view);
    NothingExtraAfter(env, checks);
    MoreGrantsAllowMore(id.granted, EagerProvides(env, env.primary), p);
    EagerAllowsBySource(env, env.primary, p);
  }

  /** Consequently the answer does not depend on what was asked before. */
  lemma AnswersIgnoreHistory(env: Env, checks: seq<Check>, checks': seq<Check>, p: Permission, view: View)
    requires WellNamed(env) && AllUnambiguous(env, checks) && AllUnambiguous(env, checks')
    requires ExactReplica(env, checks) && ExactReplica(env, checks') && view.replica == env.primary
    ensures Can(env, After(env, checks), p, view).1 == Can(env, After(env, checks'), p, view).1
  {
    LazyIsEager(env, checks, p, view);
    LazyIsEager(env, checks', p, view);
  }

  /** is_subset_string, down to the answers of two lazily loading identities of one user. */
  lemma ScopeSubsetAnswers(full: string, expected: string, env: Env, checks: seq<Check>, checks': seq<Check>,
                           p: Permission, view: View)
    requires IsSubsetString(full, expected) && ScopesFromString(expected) != {}
    requires env.scopes == ScopesFromString(expected)
    requires WellNamed(env) && AllUnambiguous(env, checks) && AllUnambiguous(env, checks')
    requires ExactReplica(env, checks) && ExactReplica(env, checks') && view.replica == env.primary
    requires Can(env, After(env, checks), p, view).1 == Ok(true)
    ensures var env' := env.(scopes := ScopesFromString(full)); Can(env', After(env', checks'), p, view).1 == Ok(true)
  {
    var env' := env.(scopes := ScopesFromString(full));
    LazyIsEager(env, checks, p, view);
    ScopeSubsetIsSound(full, expected, env, p);
    LazyIsEager(env', checks', p, view);
  }

  // ---------------------------------------------------------------- any replica

  /**
    Modify and Administer checks, with a fixed primary and any replica at every call: the answer is yes
    exactly when eager loading from the primary says yes, or a grant that is already held says yes.
   */
  lemma WriteChecksExactly(env: Env, checks: seq<Check>, p: Permission, view: View)
    requires env.scopes != {} && WellNamed(env) && AllUnambiguous(env, checks) && IsWrite(p)
    ensures Can(env, After(env, checks), p, view).1
         == Ok(EagerCan(env, env.primary, p) || Allows(After(env, checks).granted, p))
  {
    var id := After(env, checks);
    ChecksExactly(env, checks, p, view);
    if env.account.Some? && !NeedsRepositoryLoad(id, p) {
      KeptAfter(env, checks, false);
      HeldGrantsSuffice(env, id, p, id.loadedFromPrimary);
    }
  }

  /** If no replica ever shows a grant the primary lacks, write checks answer exactly as the primary does. */
  lemma WriteChecksFollowPrimary(env: Env, checks: seq<Check>, p: Permission, view: View)
    requires env.scopes != {} && WellNamed(env) && AllUnambiguous(env, checks)
    requires IsWrite(p) && NoStaleGrants(env, checks)
    ensures Can(env, After(env, checks), p, view).1 == Ok(EagerCan(env, env.primary, p))
  {
    WriteChecksExactly(env, checks, p, view);
    if env.account.None? {
      UnknownUserStaysFresh(env, checks);
    } else {
      NothingExtraAfter(env, checks);
      MoreGrantsAllowMore(After(env, checks).granted, EagerProvides(env, env.primary), p);
    }
  }

  /**
    Administer implies Modify on the same repository after any checks, whatever replicas the
    checks and the two calls meet.
   */
  lemma AdministerImpliesModify(env: Env, checks: seq<Check>, ns: string, name: string, view: View, view': View)
    requires env.scopes != {} && WellNamed(env) && AllUnambiguous(env, checks)
    requires Can(env, After(env, checks), AdministerRepository(ns, name), view).1 == Ok(true)
    ensures Can(env, After(env, checks), ModifyRepository(ns, name), view').1 == Ok(true)
  {
    WriteChecksExactly(env, checks, AdministerRepository(ns, name), view);
    WriteChecksExactly(env, checks, ModifyRepository(ns, name), view');
    RepositoryPermissionsNest(After(env, checks).granted, ns, name);
    if env.account.Some? { RepositoryPermissionsNest(EagerProvides(env, env.primary), ns, name); }
  }

  /** No repository role held after any checks, from whatever replica, exceeds the best ceiling of the scopes. */
  lemma {:induction false} HeldRolesAreCapped(env: Env, checks: seq<Check>)
    requires env.account.Some? && env.scopes != {}
    ensures RepoRolesCapped(After(env, checks).granted, env.scopes)
  {
    if checks != [] {
      var front, last := checks[..|checks| - 1], checks[|checks| - 1];
      var id := After(env, front);
      HeldRolesAreCapped(env, front);
      LoadAllAdds(env, id, last.p, last.view);
      EagerRolesAreCapped(env, Seen(env, id, last.p, last.view));
      MarksKeptAfter(env, front);
      CanDecides(env, id, last.p, last.view);
    }
  }

  /**
    Tokens stay within their scopes: after any checks, and whatever replicas they meet, a yes on a repository without full
    access takes the admin scope, for modifying that or the write scope, for reading any of the three.
   */
  lemma AnswersStayWithinScopes(env: Env, checks: seq<Check>, p: Permission, view: View)
    requires p.AdministerRepository? || p.ModifyRepository? || p.ReadRepository?
    requires env.scopes != {} && WellNamed(env) && !FullAccess(env, p)
    requires Can(env, After(env, checks), p, view).1 == Ok(true)
    ensures ScopedFor(env.scopes, p)
  {
    var id := After(env, checks);
    ChecksExactly(env, checks, p, view);
    if env.account.None? {
      UnknownUserStaysFresh(env, checks);
    } else if Allows(id.granted, p) {
      HeldRolesAreCapped(env, checks);
      CappedRolesServeScopedUse(id.granted, env.scopes, p);
    } else {
      EagerRolesAreCapped(env, Seen(env, id, p, view));
      CappedRolesServeScopedUse(EagerProvides(env, Seen(env, id, p, view)), env.scopes, p);
    }
  }

  /**
    The primary grants a write on the repository, but a read check will not learn of any grant that reads it: the
    repository's key is marked from a replica, or the read goes to a replica that shows none, and
    neither full access, nor the namespace, nor a grant already held reads it.
   */
  ghost predicate ReadLagsWrite(env: Env, id: Identity, ns: string, name: string, view: View)
    requires env.account.Some? && env.scopes != {}
  {
    var read := ReadRepository(ns, name);
    var marked := Key(ns, name) in id.repositoriesLoaded;
    && Allows(AllRepoNeeds(env.scopes, env.primary), ModifyRepository(ns, name))
    && (marked || (!view.preferPrimary && !Allows(AllRepoNeeds(env.scopes, view.replica), read)))
    && !FullAccess(env, read)
    && !Allows(EagerProvides(env, []), read)
    && !Allows(id.granted, read)
  }

  /**
    Modify implies Read on the same repository exactly where no read check lags: after any checks, and
    whatever replicas the checks and the two calls meet.
   */
  lemma ModifyImpliesReadIff(env: Env, checks: seq<Check>, ns: string, name: string, view: View, view': View)
    requires env.account.Some? && env.scopes != {} && WellNamed(env) && AllUnambiguous(env, checks)
    ensures var id := After(env, checks);
            (Can(env, id, ModifyRepository(ns, name), view').1 == Ok(true)
             ==> Can(env, id, ReadRepository(ns, name), view).1 == Ok(true))
            <==> !ReadLagsWrite(env, id, ns, name, view)
  {
    var id, read, write := After(env, checks), ReadRepository(ns, name), ModifyRepository(ns, name);
    var seen := Seen(env, id, read, view);
    WriteChecksExactly(env, checks, write, view');
    ChecksExactly(env, checks, read, view);
    RepositoryPermissionsNest(id.granted, ns, name);
    RepositoryPermissionsNest(EagerProvides(env, []), ns, name);
    RepositoryPermissionsNest(AllRepoNeeds(env.scopes, env.primary), ns, name);
    EagerAllowsBySource(env, env.primary, write);
    EagerAllowsBySource(env, seen, read);
    if ns == "" || name == "" { NamelessRepositoriesHaveNoGrants(env, write); }
    assert !Allows(AllRepoNeeds(env.scopes, []), read);
  }

  lemma NamelessRepositoriesHaveNoGrants(env: Env, p: Permission)
    requires env.scopes != {} && WellNamed(env) && (Namespace(p) == "" || RepoName(p) == "")
    ensures !Allows(AllRepoNeeds(env.scopes, env.primary), p)
  {
    forall n | n in Needs(p) ensures n !in AllRepoNeeds(env.scopes, env.primary) {
      OnlyOwnGrantsServe(env.scopes, p, n);
      AllRepoNeedsOf(env.scopes, env.primary, n);
    }
  }

  /** Once a Modify check has said yes, Read checks say yes: what answered it is held from then on. */
  lemma ModifiedIsReadable(env: Env, checks: seq<Check>, ns: string, name: string, view: View, view': View)
    requires env.account.Some? && env.scopes != {} && WellNamed(env)
    requires Can(env, After(env, checks), ModifyRepository(ns, name), view').1 == Ok(true)
    ensures var later := checks + [Check(ModifyRepository(ns, name), view')];
            Can(env, After(env, later), ReadRepository(ns, name), view).1 == Ok(true)
  {
    var id, write := After(env, checks), ModifyRepository(ns, name);
    var later := checks + [Check(write, view')];
    assert later[..|checks|] == checks;
    MarksKeptAfter(env, checks);
    CanDecides(env, id, write, view');
    RepositoryPermissionsNest(After(env, later).granted, ns, name);
    ChecksExactly(env, later, ReadRepository(ns, name), view);
  }

  /** With an exact replica Administer implies Modify implies Read, after any checks. */
  lemma AnswersNest(env: Env, checks: seq<Check>, ns: string, name: string, view: View)
    requires env.scopes != {} && WellNamed(env) && AllUnambiguous(env, checks)
    requires ExactReplica(env, checks) && view.replica == env.primary
    ensures var id := After(env, checks);
            var admin := Can(env, id, AdministerRepository(ns, name), view).1;
            var write := Can(env, id, ModifyRepository(ns, name), view).1;
            var read := Can(env, id, ReadRepository(ns, name), view).1;
            (admin == Ok(true) ==> write == Ok(true)) && (write == Ok(true) ==> read == Ok(true))
  {
    LazyIsEager(env, checks, AdministerRepository(ns, name), view);
    LazyIsEager(env, checks, ModifyRepository(ns, name), view);
    LazyIsEager(env, checks, ReadRepository(ns, name), view);
    if env.account.Some? { RepositoryPermissionsNest(EagerProvides(env, env.primary), ns, name); }
  }

  // ---------------------------------------------------------------- where the promises fail

  /** An ordinary user without teams. */
  function Plain(username: string, scope: Scope, primary: seq<RepoGrant>): Env {
    Env(Some(Account(username, false, false)), {scope}, false, [], primary)
  }

  lemma PlainGrants(username: string, scope: Scope, primary: seq<RepoGrant>, ns: string, name: string)
    requires username != ns
    ensures var env := Plain(username, scope, primary);
            && EagerProvides(env, []) == UserNeeds({scope}, username)
            && !Allows(UserNeeds({scope}, username), ReadRepository(ns, name))
  {
    var env := Plain(username, scope, primary);
    assert AllTeamNeeds(env.scopes, []) == {} && AllRepoNeeds(env.scopes, []) == {};
    assert Needs(ReadRepository(ns, name)) * UserNeeds({scope}, username) == {};
  }

  /** A grant of a role within the scope's ceiling serves the permissions that ask for it. */
  lemma OneGrantServes(scope: Scope, ns: string, name: string, role: RepoRole, p: Permission)
    requires RoleLeq(RepoKind, role, MaxRole(RepoKind, scope)) && RepositoryNeed(ns, name, role) in Needs(p)
    ensures Allows(AllRepoNeeds({scope}, [RepoGrant(ns, name, role)]), p)
  {
    var grants := [RepoGrant(ns, name, role)];
    assert BestRank(RepoKind, {scope}) == Rank(RepoKind, MaxRole(RepoKind, scope));
    assert RepoNeed({scope}, grants[0]) == RepositoryNeed(ns, name, role);
    assert RepoNeed({scope}, grants[0]) in Needs(p) * AllRepoNeeds({scope}, grants);
  }

  /** Modify yes, Read no: for every repository, a replica that has not seen the grant yet. */
  lemma WriteWithoutRead(ns: string, name: string, username: string)
    requires ns != "" && name != "" && username != ns
    ensures var env := Plain(username, AdminRepo, [RepoGrant(ns, name, Write)]);
            && Can(env, Fresh(), ModifyRepository(ns, name), View([], false)).1 == Ok(true)
            && Can(env, Fresh(), ReadRepository(ns, name), View([], false)).1 == Ok(false)
  {
    var env := Plain(username, AdminRepo, [RepoGrant(ns, name, Write)]);
    var view := View([], false);
    PlainGrants(username, AdminRepo, env.primary, ns, name);
    OneGrantServes(AdminRepo, ns, name, Write, ModifyRepository(ns, name));
    EagerAllowsBySource(env, env.primary, ModifyRepository(ns, name));
    WriteChecksExactly(env, [], ModifyRepository(ns, name), view);
    ChecksExactly(env, [], ReadRepository(ns, name), view);
  }

  /**
    A grant revoked on the primary but still shown by the replica to an earlier read check keeps
    answering write checks: it is found before the primary is asked again, and a reload removes nothing.
   */
  lemma StaleReadGrantAnswersWrites(ns: string, name: string, username: string)
    requires ns != "" && name != "" && username != ns
    ensures var env := Plain(username, AdminRepo, []);
            var stale := View([RepoGrant(ns, name, Write)], false);
            var p := ModifyRepository(ns, name);
            && !EagerCan(env, env.primary, p)
            && Can(env, After(env, [Check(ReadRepository(ns, name), stale)]), p, View([], false)).1 == Ok(true)
  {
    var env, stale := Plain(username, AdminRepo, []), View([RepoGrant(ns, name, Write)], false);
    var read, p := ReadRepository(ns, name), ModifyRepository(ns, name);
    var checks := [Check(read, stale)];
    assert checks[..0] == [] && After(env, []) == Fresh();
    PlainGrants(username, AdminRepo, [], ns, name);
    RepositoryPermissionsNest(EagerProvides(env, []), ns, name);
    var own := LoadOwn(env, Fresh());
    OwnStagesAdd(env, Fresh(), []);
    MoreGrantsAllowMore(own.granted, EagerProvides(env, []), read);
    var repo := LoadRepository(env, own, read, stale);
    OneGrantServes(AdminRepo, ns, name, Write, p);
    assert OfRepo(stale.replica, ns, name) == stale.replica;
    MoreGrantsAllowMore(AllRepoNeeds(env.scopes, stale.replica), repo.granted, p);
    RepositoryPermissionsNest(repo.granted, ns, name);
    CanByStages(env, Fresh(), read, stale);
    assert After(env, checks) == repo;
    ChecksExactly(env, checks, p, View([], false));
  }

  /** A read check of a repository without grants loads nothing beyond the user's own needs, and marks the key. */
  lemma FruitlessCheck(username: string, g: RepoGrant, ns: string, name: string)
    requires ns != "" && name != "" && ns != username && !(g.ns == ns && g.name == name)
    ensures var env := Plain(username, ReadRepo, [g]);
            var id := After(env, [Check(ReadRepository(ns, name), View(env.primary, false))]);
            && id.granted == UserNeeds(env.scopes, username)
            && Key(ns, name) in id.repositoriesLoaded
  {
    var env := Plain(username, ReadRepo, [g]);
    var view, asked := View(env.primary, false), ReadRepository(ns, name);
    var checks := [Check(asked, view)];
    assert checks[..0] == [];
    assert After(env, []) == Fresh();
    var own := LoadOwn(env, Fresh());
    assert own.granted == UserNeeds(env.scopes, username);
    var repo := LoadRepository(env, own, asked, view);
    assert OfRepo(env.primary, ns, name) == [];
    assert AllRepoNeeds(env.scopes, []) == {} && AllTeamNeeds(env.scopes, []) == {};
    assert repo.granted == own.granted;
    assert OfOrg(env.teams, ns) == [];
    var all := LoadNamespace(env, repo, asked);
    assert all.granted == own.granted;
    assert !Allows(own.granted, asked);
    assert After(env, checks) == all;
  }

  /**
    The demand on keys is needed: a user with one grant is answered rightly after asking about any other
    repository if and only if that repository's key is not the key of the granted one.
   */
  lemma CollidingCheckHidesGrant(username: string, ns: string, name: string, ns': string, name': string)
    requires ns != "" && name != "" && ns' != "" && name' != "" && username != ns && username != ns'
    ensures var env := Plain(username, ReadRepo, [RepoGrant(ns, name, Read)]);
            var view := View(env.primary, false);
            var p, asked := ReadRepository(ns, name), ReadRepository(ns', name');
            && EagerCan(env, env.primary, p)
            && (Can(env, After(env, [Check(asked, view)]), p, view).1 == Ok(true) <==> Unambiguous(env, asked))
  {
    var g := RepoGrant(ns, name, Read);
    var env := Plain(username, ReadRepo, [g]);
    var view, p, asked := View(env.primary, false), ReadRepository(ns, name), ReadRepository(ns', name');
    var checks := [Check(asked, view)];
    OneGrantServes(ReadRepo, ns, name, Read, p);
    EagerAllowsBySource(env, env.primary, p);
    if Unambiguous(env, asked) {
      LazyIsEager(env, checks, p, view);
    } else {
      assert g.ns != ns' || g.name != name';
      FruitlessCheck(username, g, ns', name');
      PlainGrants(username, ReadRepo, env.primary, ns, name);
      ChecksExactly(env, checks, p, view);
    }
  }
}
