/** Who holds which grants, the two operations that change it, and what no
    sequence of them can do. */
module GrantRuns {
  import opened Wrappers
  import opened Privileges
  import opened Authz

  /** The grants table in id order, and the (user, role) pairs. */
  datatype Access = Access(grants: seq<Grant>, members: set<(int, int)>)

  function ForRole(grants: seq<Grant>, role: int): (r: seq<Grant>)
    ensures forall g :: g in r <==> g in grants && g.role == role
  {
    if grants == [] then []
    else
      var n := |grants| - 1;
      assert grants == grants[..n] + [grants[n]];
      ForRole(grants[..n], role) + (if grants[n].role == role then [grants[n]] else [])
  }

  /** Every grant carried by every role the user holds. */
  function ForUser(grants: seq<Grant>, members: set<(int, int)>, user: int): (r: seq<Grant>)
    ensures forall g :: g in r <==> g in grants && (user, g.role) in members
  {
    if grants == [] then []
    else
      var n := |grants| - 1;
      assert grants == grants[..n] + [grants[n]];
      ForUser(grants[..n], members, user) + (if (user, grants[n].role) in members then [grants[n]] else [])
  }

  function GrantsOf(st: Access, user: int): seq<Grant> {
    ForUser(st.grants, st.members, user)
  }

  /** What a successful CreateGrant does, on the strength of the grants its actor presented. */
  ghost predicate Creates(held: seq<Grant>, pre: Access, post: Access, g: Grant) {
    && ValidScope(g.scope)
    && CanGrant(held, g.scope, g.privilege) == Granted
    && post == Access(pre.grants + [g], pre.members)
  }

  /** What a successful AssignRole does, on the strength of the grants its actor
      presented and of those it found the role to carry. */
  ghost predicate Assigns(held: seq<Grant>, carried: seq<Grant>, pre: Access, post: Access, user: int, role: int) {
    && (forall g :: g in carried ==> CanGrant(held, g.scope, g.privilege) == Granted)
    && post == Access(pre.grants, pre.members + {(user, role)})
  }

  // ---------------------------------------------------------------------
  // The service
  // ---------------------------------------------------------------------

  /** Which of a request's reads, its write and the event after it succeed. */
  datatype Storage = Storage(category: bool, role: bool, user: bool, carried: bool, write: bool, event: bool)

  /** Fault is a read or write that failed; Unrecorded is a write that stands although
      the event that says so could not be written after it. */
  datatype Error = Invalid | NotFound | Forbidden | Fault | Unrecorded

  datatype Category = Category(id: int, path: string)

  /** A grant somebody is asking to create. A category named by its path is resolved to
      the pair of its id and path; a scope that carries a pair already is taken at its word. */
  datatype GrantRequest = GrantRequest(role: string, privilege: Privilege, scope: Scope, categoryPath: string)

  class Service {
    const roles: map<string, int>
    const users: map<string, int>
    const categories: map<(int, string), Category>
    const paths: map<int, string>
    var grants: seq<Grant>
    var members: set<(int, int)>

    constructor (roles: map<string, int>, users: map<string, int>, categories: map<(int, string), Category>,
                 paths: map<int, string>, grants: seq<Grant>, members: set<(int, int)>)
      requires forall key :: key in categories ==> Lookup(paths, categories[key].id) == Some(categories[key].path)
      ensures Valid() && State() == Access(grants, members)
      ensures this.roles == roles && this.users == users && this.categories == categories && this.paths == paths
    {
      this.roles, this.users, this.categories, this.paths := roles, users, categories, paths;
      this.grants, this.members := grants, members;
    }

    /** The two ways to look a category up read one table. */
    ghost predicate Valid() {
      forall key :: key in categories ==> Lookup(paths, categories[key].id) == Some(categories[key].path)
    }

    /** A row keeps a category's id alone: read back, the path is that category's. */
    function Stored(s: Scope): Scope {
      if s.categoryID.Some? && s.categoryID.value in paths then s.(categoryPath := Some(paths[s.categoryID.value]))
      else s
    }

    function State(): Access
      reads this
    {
      Access(grants, members)
    }

    /** The scope a request asks for once its category is looked up. */
    function Wanted(req: GrantRequest): Result<Scope, Error> {
      if req.categoryPath == "" then Ok(req.scope)
      else if req.scope.site.None? then Err(Invalid)
      else if (req.scope.site.value, req.categoryPath) !in categories then Err(NotFound)
      else
        var c := categories[(req.scope.site.value, req.categoryPath)];
        Ok(req.scope.(categoryID := Some(c.id), categoryPath := Some(c.path)))
    }

    /** Everything a request names exists, and the actor may hand out that much. */
    predicate Grantable(held: seq<Grant>, req: GrantRequest) {
      && Wanted(req).Ok? && ValidScope(Wanted(req).value)
      && CanGrant(held, Wanted(req).value, req.privilege) == Granted
      && req.role in roles && roles[req.role] != 0
    }

    /** The category is looked up only for a path and within a site. */
    predicate CategoryRead(req: GrantRequest, storage: Storage) {
      req.categoryPath == "" || req.scope.site.None? || storage.category
    }

    /** The row can name the scope's category. */
    predicate Storable(req: GrantRequest) {
      Wanted(req).Ok? && Wanted(req).value.categoryID.Some? ==> Wanted(req).value.categoryID.value in paths
    }

    /** Writes a grant, refusing an escalation. */
    method CreateGrant(held: seq<Grant>, req: GrantRequest, storage: Storage) returns (r: Result<Grant, Error>)
      requires Valid()
      modifies this`grants
      // Written exactly when it may be and storage works, also when the event is then not recorded.
      ensures r.Ok? || r == Err(Unrecorded) <==>
                Grantable(held, req) && Storable(req) && CategoryRead(req, storage) && storage.role && storage.write
      ensures (r.Ok? ==> storage.event) && (r == Err(Unrecorded) ==> !storage.event)
      ensures r == Err(Fault) ==> !CategoryRead(req, storage) || !storage.role || !storage.write || !Storable(req)
      ensures r.Err? && r != Err(Unrecorded) ==> State() == old(State())
      // What is written: the level asked for, over the scope asked for and the category of its path.
      ensures r.Ok? ==> && r.value.role == roles[req.role] && r.value.privilege == req.privilege
                        && (req.categoryPath == "" ==> r.value.scope == req.scope)
                        && (req.categoryPath != "" ==>
                              && req.scope.site.Some? && (req.scope.site.value, req.categoryPath) in categories
                              && var c := categories[(req.scope.site.value, req.categoryPath)];
                                 r.value.scope == req.scope.(categoryID := Some(c.id), categoryPath := Some(c.path)))
      ensures r.Ok? || r == Err(Unrecorded) ==>
                && Grantable(held, req)
                && var scope := Wanted(req).value;
                   && (r.Ok? ==> r.value.scope == scope)
                   && (scope.categoryID.Some? ==> Stored(scope).categoryPath == Some(paths[scope.categoryID.value]))
                   && Stored(scope).(categoryPath := scope.categoryPath) == scope
                   && State() == Access(old(grants) + [Grant(roles[req.role], req.privilege, Stored(scope))], members)
                   // What was checked is what was stored, unless the scope brought a pair of its own.
                   && (req.categoryPath != "" || req.scope.categoryID.None? ==>
                         Creates(held, old(State()), State(), Grant(roles[req.role], req.privilege, scope)))
      ensures r == Err(Forbidden) <==>
                && CategoryRead(req, storage) && Wanted(req).Ok? && ValidScope(Wanted(req).value)
                && CanGrant(held, Wanted(req).value, req.privilege) == Escalation
    {
      var scope := req.scope;
      if req.categoryPath != "" {
        if scope.site.None? {
          return Err(Invalid);
        }
        if !storage.category {
          return Err(Fault);
        }
        if (scope.site.value, req.categoryPath) !in categories {
          return Err(NotFound);
        }
        var c := categories[(scope.site.value, req.categoryPath)];
        scope := scope.(categoryID := Some(c.id), categoryPath := Some(c.path));
      }
      if !ValidScope(scope) {
        return Err(Invalid);
      }
      match CanGrant(held, scope, req.privilege)
      case NotOnScale => return Err(Invalid);
      case Escalation => return Err(Forbidden);
      case Granted =>
        if !storage.role {
          return Err(Fault);
        }
        if req.role !in roles {
          return Err(NotFound);
        }
        if roles[req.role] == 0 {
          return Err(Invalid);
        }
        if !storage.write || (scope.categoryID.Some? && scope.categoryID.value !in paths) {
          return Err(Fault);
        }
        var g := Grant(roles[req.role], req.privilege, scope);
        grants := grants + [g.(scope := Stored(scope))];
        if !storage.event {
          return Err(Unrecorded);
        }
        return Ok(g);
    }

    /** The role and the user exist, and the actor could have granted all the role carries. */
    predicate Assignable(held: seq<Grant>, user: string, role: string)
      reads this`grants
    {
      && role in roles && user in users
      && forall g :: g in ForRole(grants, roles[role]) ==> CanGrant(held, g.scope, g.privilege) == Granted
    }

    /** Gives a user a role, refusing to hand over any grant the actor could not. */
    method AssignRole(held: seq<Grant>, user: string, role: string, storage: Storage) returns (r: Result<(), Error>)
      modifies this`members
      ensures r.Ok? || r == Err(Unrecorded) <==>
                && Assignable(held, user, role)
                && storage.role && storage.user && storage.carried && storage.write
      ensures (r.Ok? ==> storage.event) && (r == Err(Unrecorded) ==> !storage.event)
      ensures r == Err(Fault) ==> !storage.role || !storage.user || !storage.carried || !storage.write
      ensures r.Ok? || r == Err(Unrecorded) ==>
                && Assignable(held, user, role)
                && Assigns(held, ForRole(grants, roles[role]), old(State()), State(), users[user], roles[role])
      ensures r.Err? && r != Err(Unrecorded) ==> State() == old(State())
      ensures r == Err(NotFound) <==>
                storage.role && (role !in roles || (storage.user && user !in users))
      ensures r == Err(Forbidden) ==>
                && role in roles
                && exists g :: g in ForRole(grants, roles[role]) && CanGrant(held, g.scope, g.privilege) == Escalation
    {
      if !storage.role {
        return Err(Fault);
      }
      if role !in roles {
        return Err(NotFound);
      }
      if !storage.user {
        return Err(Fault);
      }
      if user !in users {
        return Err(NotFound);
      }
      if !storage.carried {
        return Err(Fault);
      }
      var carried := ForRole(grants, roles[role]);
      for k := 0 to |carried|
        invariant forall j :: 0 <= j < k ==> CanGrant(held, carried[j].scope, carried[j].privilege) == Granted
        invariant members == old(members)
      {
        var g := carried[k];
        match CanGrant(held, g.scope, g.privilege)
        case NotOnScale => assert g in carried; return Err(Invalid);
        case Escalation => assert g in carried; return Err(Forbidden);
        case Granted =>
      }
      if !storage.write {
        return Err(Fault);
      }
      members := members + {(users[user], roles[role])};
      if !storage.event {
        return Err(Unrecorded);
      }
      return Ok(());
    }
  }

  // ---------------------------------------------------------------------
  // Runs
  // ---------------------------------------------------------------------

  /** One write. The actor's grants were loaded when the request was authenticated
      and the role's grants when the assignment was checked, each at some earlier
      point of the run: other requests may have written in between. */
  datatype Step =
    | CreateGrant(actor: int, loadedAt: nat, grant: Grant)
    | AssignRole(actor: int, loadedAt: nat, carriedAt: nat, user: int, role: int)

  ghost predicate StepAt(run: seq<Access>, k: nat, step: Step)
    requires k + 1 < |run|
  {
    match step
    case CreateGrant(actor, loadedAt, g) =>
      loadedAt <= k && Creates(GrantsOf(run[loadedAt], actor), run[k], run[k + 1], g)
    case AssignRole(actor, loadedAt, carriedAt, user, role) =>
      && loadedAt <= k && carriedAt <= k
      && Assigns(GrantsOf(run[loadedAt], actor), ForRole(run[carriedAt].grants, role), run[k], run[k + 1], user, role)
  }

  ghost predicate Stepped(run: seq<Access>, k: nat)
    requires k + 1 < |run|
  {
    exists step :: StepAt(run, k, step)
  }

  /** Any interleaving of grant creation and role assignment, from any initial tables. */
  ghost predicate IsRun(run: seq<Access>) {
    && run != []
    && ValidGrants(run[0].grants)
    && forall k: nat :: k + 1 < |run| ==> Stepped(run, k)
  }

  lemma {:induction false} RunGrows(run: seq<Access>, j: nat, k: nat)
    requires IsRun(run) && j <= k < |run|
    ensures forall g :: g in run[j].grants ==> g in run[k].grants
    ensures run[j].members <= run[k].members
    ensures ValidGrants(run[k].grants)
    decreases k
  {
    hide ForUser, ForRole, CanGrant, ValidScope;
    if k == 0 {
    } else {
      var i := k - 1;
      RunGrows(run, if j == k then i else j, i);
      assert Stepped(run, i);
      var step :| StepAt(run, i, step);
    }
  }

  /** A grant that would let whoever holds its role do want to subj. */
  ghost predicate Telling(g: Grant, subj: Subject, want: Privilege) {
    Matches(g.scope, subj) && g.privilege >= want && g.privilege != Deny
  }

  ghost predicate NobodyAllowed(st: Access, subj: Subject, want: Privilege) {
    forall user :: !Allows(GrantsOf(st, user), subj, want)
  }

  /** Conferring a telling grant takes an actor who is already allowed as much. */
  lemma ConferringNeedsHolding(held: seq<Grant>, g: Grant, subj: Subject, want: Privilege)
    requires ValidGrants(held) && ValidScope(g.scope) && want > NoPrivilege
    requires CanGrant(held, g.scope, g.privilege) == Granted && Telling(g, subj, want)
    ensures Allows(held, subj, want)
  {
    hide Matches, ValidScope, ResolveOf, DelegableOf;
    CanGrantExact(held, g.scope, g.privilege);
  }

  /** At some point up to k somebody was allowed want over subj. */
  ghost predicate AllowedBy(run: seq<Access>, k: nat, subj: Subject, want: Privilege)
    requires k < |run|
  {
    exists j: nat :: j <= k && !NobodyAllowed(run[j], subj, want)
  }

  /** A telling grant written during the run was written by somebody already allowed as much. */
  lemma {:induction false} TellingGrantsAreOld(run: seq<Access>, subj: Subject, want: Privilege, k: nat, g: Grant)
    requires IsRun(run) && k < |run| && want > NoPrivilege
    requires g in run[k].grants && Telling(g, subj, want) && g !in run[0].grants
    ensures AllowedBy(run, k, subj, want)
    decreases k
  {
    hide ForUser, ForRole, CanGrant, ValidScope, Telling, Allows, ValidGrants;
    if k > 0 {
      var i := k - 1;
      if g in run[i].grants {
        TellingGrantsAreOld(run, subj, want, i, g);
      } else {
        assert Stepped(run, i);
        var step :| StepAt(run, i, step);
        assert step.CreateGrant? && g == step.grant;
        UserGrantsValid(run, step.loadedAt, step.actor);
        ConferringNeedsHolding(GrantsOf(run[step.loadedAt], step.actor), g, subj, want);
        assert !NobodyAllowed(run[step.loadedAt], subj, want);
      }
    }
  }

  lemma UserGrantsValid(run: seq<Access>, j: nat, user: int)
    requires IsRun(run) && j < |run|
    ensures ValidGrants(GrantsOf(run[j], user))
  {
    RunGrows(run, 0, j);
  }

  /** Whoever is allowed after a step, somebody was allowed before it. */
  lemma StepAllowsNobodyNew(run: seq<Access>, subj: Subject, want: Privilege, k: nat, user: int)
    requires IsRun(run) && k + 1 < |run| && want > NoPrivilege
    requires Allows(GrantsOf(run[k + 1], user), subj, want)
    ensures AllowedBy(run, k, subj, want)
  {
    hide IsRun, ForRole, ForUser, CanGrant, ValidScope, Allows, Matches, ValidGrants;
    var before, after := GrantsOf(run[k], user), GrantsOf(run[k + 1], user);
    AllowsMeans(after, subj, want);
    AllowsMeans(before, subj, want);
    var g :| g in after && Matches(g.scope, subj) && g.privilege >= want;
    RunGrows(run, k, k + 1);
    assert forall d :: d in before ==> d in after;
    if g in before {
      assert !NobodyAllowed(run[k], subj, want);
    } else {
      NewlyHeldWasConferred(run, subj, want, k, user, g);
    }
  }

  /** A telling grant a user comes to hold was conferred by somebody allowed as much. */
  lemma NewlyHeldWasConferred(run: seq<Access>, subj: Subject, want: Privilege, k: nat, user: int, g: Grant)
    requires IsRun(run) && k + 1 < |run| && want > NoPrivilege
    requires g in GrantsOf(run[k + 1], user) && g !in GrantsOf(run[k], user)
    requires Telling(g, subj, want)
    ensures AllowedBy(run, k, subj, want)
  {
    hide ForRole, ForUser, CanGrant, ValidScope, Allows, Telling, ValidGrants;
    assert Stepped(run, k);
    var step :| StepAt(run, k, step);
    RunGrows(run, 0, k + 1);
    ScopeIsValid(run[k + 1].grants, g);
    if step.AssignRole? && g !in run[0].grants {
      TellingGrantsAreOld(run, subj, want, k, g);
    } else {
      RunGrows(run, 0, match step case CreateGrant(_, _, _) => 0 case AssignRole(_, _, c, _, _) => c);
      UserGrantsValid(run, step.loadedAt, step.actor);
      assert step.AssignRole? ==> g in ForRole(run[step.carriedAt].grants, step.role);
      ConferringNeedsHolding(GrantsOf(run[step.loadedAt], step.actor), g, subj, want);
      assert !NobodyAllowed(run[step.loadedAt], subj, want);
    }
  }

  lemma ScopeIsValid(grants: seq<Grant>, g: Grant)
    requires ValidGrants(grants) && g in grants
    ensures ValidScope(g.scope)
  {
  }

  /** Whatever nobody may do over a subject at the start, nobody ever comes to do. */
  lemma {:induction false} NoEscalation(run: seq<Access>, subj: Subject, want: Privilege)
    requires IsRun(run) && want > NoPrivilege
    requires NobodyAllowed(run[0], subj, want)
    ensures forall k: nat :: k < |run| ==> NobodyAllowed(run[k], subj, want)
  {
    assert |run| >= 1;
    hide IsRun, NobodyAllowed;
    for k := 1 to |run|
      invariant forall j: nat :: j < k ==> NobodyAllowed(run[j], subj, want)
    {
      OneStepFurther(run, subj, want, k - 1);
    }
  }

  lemma OneStepFurther(run: seq<Access>, subj: Subject, want: Privilege, k: nat)
    requires IsRun(run) && k + 1 < |run| && want > NoPrivilege
    requires forall j: nat :: j <= k ==> NobodyAllowed(run[j], subj, want)
    ensures NobodyAllowed(run[k + 1], subj, want)
  {
    var st := run[k + 1];
    if user :| Allows(GrantsOf(st, user), subj, want) {
      hide IsRun, Allows, ForUser, NobodyAllowed;
      StepAllowsNobodyNew(run, subj, want, k, user);
    }
  }

  /** Conferring a veto over a subject takes an actor who is allowed to publish there. */
  lemma VetoingNeedsPublish(held: seq<Grant>, g: Grant, subj: Subject)
    requires ValidGrants(held) && ValidScope(g.scope) && g.privilege == Deny && Matches(g.scope, subj)
    requires CanGrant(held, g.scope, g.privilege) == Granted
    ensures Allows(held, subj, Publish)
  {
    hide Matches, ValidScope, ResolveOf, DelegableOf, CanGrant;
    CanGrantExact(held, g.scope, g.privilege);
  }

  /** Where nobody may publish at the start, no veto is ever written. */
  lemma {:induction false} NoNewVeto(run: seq<Access>, subj: Subject, k: nat, g: Grant)
    requires IsRun(run) && k < |run| && NobodyAllowed(run[0], subj, Publish)
    requires g in run[k].grants && g.privilege == Deny && Matches(g.scope, subj)
    ensures g in run[0].grants
    decreases k
  {
    hide ForUser, ForRole, CanGrant, ValidScope, Allows, Matches, ValidGrants;
    if k > 0 {
      var i := k - 1;
      if g in run[i].grants {
        NoNewVeto(run, subj, i, g);
      } else {
        assert Stepped(run, i);
        var step :| StepAt(run, i, step);
        assert step.CreateGrant? && g == step.grant;
        NoEscalation(run, subj, Publish);
        UserGrantsValid(run, step.loadedAt, step.actor);
        VetoingNeedsPublish(GrantsOf(run[step.loadedAt], step.actor), g, subj);
        assert false;
      }
    }
  }

  /** Where nobody may publish at the start, nobody ever comes to be denied. */
  lemma {:induction false} NobodyNewlyVetoed(run: seq<Access>, subj: Subject, k: nat, user: int, g: Grant)
    requires IsRun(run) && k < |run| && NobodyAllowed(run[0], subj, Publish)
    requires g in GrantsOf(run[k], user) && g.privilege == Deny && Matches(g.scope, subj)
    ensures g in GrantsOf(run[0], user)
    decreases k
  {
    hide ForUser, ForRole, CanGrant, ValidScope, Allows, Matches, ValidGrants;
    NoNewVeto(run, subj, k, g);
    if k > 0 {
      var i := k - 1;
      RunGrows(run, 0, i);
      if g in GrantsOf(run[i], user) {
        NobodyNewlyVetoed(run, subj, i, user, g);
      } else {
        assert Stepped(run, i);
        var step :| StepAt(run, i, step);
        NotNewlyConferred(run, subj, i, user, g, step);
      }
    }
  }

  lemma NotNewlyConferred(run: seq<Access>, subj: Subject, k: nat, user: int, g: Grant, step: Step)
    requires IsRun(run) && k + 1 < |run| && NobodyAllowed(run[0], subj, Publish) && StepAt(run, k, step)
    requires g in run[0].grants && g in run[k].grants && g.privilege == Deny && Matches(g.scope, subj)
    ensures g in GrantsOf(run[k + 1], user) ==> g in GrantsOf(run[k], user)
  {
    hide ForUser, ForRole, CanGrant, ValidScope, Allows, Matches, ValidGrants;
    if step.AssignRole? && step.role == g.role {
      RunGrows(run, 0, step.carriedAt);
      assert g in ForRole(run[step.carriedAt].grants, step.role);
      NoEscalation(run, subj, Publish);
      UserGrantsValid(run, step.loadedAt, step.actor);
      ScopeIsValid(run[0].grants, g);
      VetoingNeedsPublish(GrantsOf(run[step.loadedAt], step.actor), g, subj);
      assert false;
    }
  }

  /** A veto outlasts every later grant and assignment. */
  lemma DeniedStaysDenied(run: seq<Access>, user: int, subj: Subject, j: nat, k: nat)
    requires IsRun(run) && j <= k < |run|
    requires ResolveOf(GrantsOf(run[j], user), subj) == Deny
    ensures ResolveOf(GrantsOf(run[k], user), subj) == Deny
  {
    hide IsRun, ForUser, ResolveOf, Matches;
    RunGrows(run, j, k);
    ResolveIsMax(GrantsOf(run[j], user), subj);
    ResolveIsMax(GrantsOf(run[k], user), subj);
  }
}
