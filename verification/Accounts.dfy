/** Accounts: the user table, registration with its bootstrap rule, role changes, and authorization by table lookup. */
module Accounts {
  import opened Base
  import opened Sorting

  datatype Role = Viewer | Operator | Admin

  function RoleLevel(r: Role): nat {
    match r
    case Viewer => 0
    case Operator => 1
    case Admin => 2
  }

  datatype User = User(id: nat, username: string, email: string, role: Role, isActive: bool)

  /** The Authorization header: absent, not decodable, or a valid token for a username. */
  datatype Credentials = NoHeader | InvalidToken | Token(username: string)

  datatype Request =
    | Register(credentials: Credentials, username: string, email: string, role: Role)
    | UpdateUser(credentials: Credentials, id: nat, newRole: Option<Role>, newActive: Option<bool>)

  datatype Reply = Created(id: nat) | Updated | Unauthorized | Forbidden | Conflict | NotFound

  datatype Users = Users(table: seq<User>, next: nat)

  // ---------- Lookups ----------

  function Named(username: string): User -> bool {
    (u: User) => u.username == username
  }

  function WithId(id: nat): User -> bool {
    (u: User) => u.id == id
  }

  function WithEmail(email: string): User -> bool {
    (u: User) => u.email == email
  }

  function First(p: User -> bool, table: seq<User>): Option<User> {
    var found := Filter(p, table);
    if found == [] then None else Some(found[0])
  }

  /** `get_current_user`: the active account the token names, read from the table now. */
  function CurrentUser(table: seq<User>, c: Credentials): Option<User> {
    if !c.Token? then None
    else
      var u := First(Named(c.username), table);
      if u.Some? && u.value.isActive then u else None
  }

  /** The reply that stops a request requiring an admin, if any. */
  function AdminGate(table: seq<User>, c: Credentials): Option<Reply> {
    var u := CurrentUser(table, c);
    if u == None then Some(Unauthorized)
    else if RoleLevel(u.value.role) < RoleLevel(Admin) then Some(Forbidden)
    else None
  }

  // ---------- Steps ----------

  function ReplyTo(s: Users, r: Request): Reply {
    match r
    case Register(c, username, email, _) =>
      if c != NoHeader && CurrentUser(s.table, c) == None then Unauthorized
      else if s.table != [] && AdminGate(s.table, c).Some? then AdminGate(s.table, c).value
      else if exists u :: u in s.table && (u.username == username || u.email == email) then Conflict
      else Created(s.next)
    case UpdateUser(c, id, _, _) =>
      if AdminGate(s.table, c).Some? then AdminGate(s.table, c).value
      else if First(WithId(id), s.table) == None then NotFound
      else Updated
  }

  function Or<T>(change: Option<T>, current: T): T {
    if change.Some? then change.value else current
  }

  function Changed(id: nat, role: Option<Role>, active: Option<bool>): User -> User {
    (u: User) => if u.id == id then u.(role := Or(role, u.role), isActive := Or(active, u.isActive)) else u
  }

  function Step(s: Users, r: Request): Users {
    match r
    case Register(_, username, email, role) =>
      if ReplyTo(s, r).Created? then
        Users(s.table + [User(s.next, username, email, if s.table == [] then Admin else role, true)], s.next + 1)
      else s
    case UpdateUser(_, id, role, active) =>
      if ReplyTo(s, r) == Updated then s.(table := Map(Changed(id, role, active), s.table)) else s
  }

  const NOBODY := Users([], 1)

  function Run(requests: seq<Request>): Users {
    if requests == [] then NOBODY else Step(Run(requests[..|requests| - 1]), requests[|requests| - 1])
  }

  // ---------- Uniqueness, and a table that never shrinks ----------

  predicate Distinct(a: User, b: User) {
    a.id != b.id && a.username != b.username && a.email != b.email
  }

  ghost predicate Ok(s: Users) {
    Pairwise(Distinct, s.table) && forall u :: u in s.table ==> u.id < s.next
  }

  /** Position by position, `b` continues `a` with the same identities. */
  predicate Continues(a: seq<User>, b: seq<User>) {
    |a| <= |b| && forall i :: 0 <= i < |a| ==>
      b[i].id == a[i].id && b[i].username == a[i].username && b[i].email == a[i].email
  }

  lemma FirstMatches(p: User -> bool, table: seq<User>)
    ensures First(p, table).Some? ==> First(p, table).value in table && p(First(p, table).value)
    ensures First(p, table) == None <==> forall u :: u in table ==> !p(u)
  {
    var found := Filter(p, table);
    if found != [] {
      assert found[0] in found;
    } else {
      assert forall u :: u in table && p(u) ==> u in found;
    }
  }

  lemma AccountAdded(s: Users, u: User)
    requires Ok(s) && u.id == s.next && forall v :: v in s.table ==> v.username != u.username && v.email != u.email
    ensures Ok(Users(s.table + [u], s.next + 1)) && Continues(s.table, s.table + [u])
  {
    forall i | 0 <= i < |s.table| ensures Distinct(s.table[i], u) {
      assert s.table[i] in s.table;
    }
  }

  lemma AccountsChanged(s: Users, id: nat, role: Option<Role>, active: Option<bool>)
    requires Ok(s)
    ensures Ok(Users(Map(Changed(id, role, active), s.table), s.next))
    ensures Continues(s.table, Map(Changed(id, role, active), s.table))
  {
    var t := Map(Changed(id, role, active), s.table);
    forall i, j | 0 <= i < j < |t| ensures Distinct(t[i], t[j]) {
      assert Distinct(s.table[i], s.table[j]);
    }
    forall u | u in t ensures u.id < s.next {
      var k :| 0 <= k < |t| && t[k] == u;
      assert s.table[k] in s.table;
    }
  }

  lemma StepKeeps(s: Users, r: Request)
    requires Ok(s)
    ensures Ok(Step(s, r)) && Continues(s.table, Step(s, r).table)
  {
    if r.Register? && ReplyTo(s, r).Created? {
      AccountAdded(s, User(s.next, r.username, r.email, if s.table == [] then Admin else r.role, true));
    } else if r.UpdateUser? && ReplyTo(s, r) == Updated {
      AccountsChanged(s, r.id, r.newRole, r.newActive);
    }
  }

  lemma {:induction false} RunKeeps(requests: seq<Request>)
    ensures Ok(Run(requests))
  {
    if requests != [] {
      RunKeeps(requests[..|requests| - 1]);
      StepKeeps(Run(requests[..|requests| - 1]), requests[|requests| - 1]);
    }
  }

  lemma ContinuesTransitive(a: seq<User>, b: seq<User>, c: seq<User>)
    requires Continues(a, b) && Continues(b, c)
    ensures Continues(a, c)
  {
  }

  // ---------- Bootstrap and provenance ----------

  /** The state in which request number `k` is made. */
  function Before(requests: seq<Request>, k: nat): Users
    requires k <= |requests|
  {
    Run(requests[..k])
  }

  lemma BeforeNext(requests: seq<Request>, k: nat, next: nat)
    requires k < |requests| && next == k + 1
    ensures Before(requests, next) == Step(Before(requests, k), requests[k])
  {
    assert requests[..next][..k] == requests[..k];
  }

  lemma {:induction false} GrowsFrom(requests: seq<Request>, j: nat, k: nat, table: seq<User>)
    requires j <= k <= |requests| && table == Before(requests, j).table
    ensures Ok(Before(requests, k)) && Continues(table, Before(requests, k).table)
  {
    RunKeeps(requests[..k]);
    if j < k {
      GrowsFrom(requests, j, k - 1, table);
      BeforeNext(requests, k - 1, k);
      var s := Before(requests, k - 1);
      StepKeeps(s, requests[k - 1]);
      ContinuesTransitive(table, s.table, Before(requests, k).table);
    }
  }

  lemma TableGrows(requests: seq<Request>, j: nat, k: nat)
    requires j <= k <= |requests|
    ensures Ok(Before(requests, k)) && Continues(Before(requests, j).table, Before(requests, k).table)
  {
    GrowsFrom(requests, j, k, Before(requests, j).table);
  }

  /** Over every run no account ever disappears or changes its name, and names and addresses stay unique. */
  lemma AccountsOnlyGrow(earlier: seq<Request>, later: seq<Request>)
    ensures Ok(Run(earlier + later)) && Continues(Run(earlier).table, Run(earlier + later).table)
  {
    var requests := earlier + later;
    TableGrows(requests, |earlier|, |requests|);
    assert requests[..|earlier|] == earlier && requests[..|requests|] == requests;
  }

  /** Request number `k` was made by account `actor`, active and admin at that moment. */
  predicate MadeByAdmin(requests: seq<Request>, k: nat, actor: nat) {
    k < |requests| &&
    var u := CurrentUser(Before(requests, k).table, requests[k].credentials);
    u.Some? && u.value.id == actor && u.value.role == Admin && u.value.isActive
  }

  /** Request number `k` created account `id` in an empty table. */
  predicate Bootstraps(requests: seq<Request>, k: nat, id: nat) {
    && k < |requests| && requests[k].Register? && Before(requests, k).table == []
    && ReplyTo(Before(requests, k), requests[k]) == Created(id)
  }

  /** Request number `k` created account `id` on behalf of the admin `actor`. */
  predicate Creates(requests: seq<Request>, k: nat, actor: nat, id: nat) {
    && MadeByAdmin(requests, k, actor) && requests[k].Register?
    && ReplyTo(Before(requests, k), requests[k]) == Created(id)
  }

  /** Request number `k`, made by the admin `actor`, gave account `id` the admin role. */
  predicate Grants(requests: seq<Request>, k: nat, actor: nat, id: nat) {
    || (Creates(requests, k, actor, id) && requests[k].role == Admin)
    || (MadeByAdmin(requests, k, actor) && requests[k].UpdateUser? && requests[k].id == id
        && requests[k].newRole == Some(Admin) && ReplyTo(Before(requests, k), requests[k]) == Updated)
  }

  /** The admin role of `id` goes back, by grants made before request `n`, to the bootstrap account. */
  ghost predicate Trusted(requests: seq<Request>, n: nat, id: nat)
    decreases n, 0
  {
    exists k: nat :: k < n && (Bootstraps(requests, k, id) || GrantedByTrusted(requests, k, id))
  }

  ghost predicate GrantedByTrusted(requests: seq<Request>, k: nat, id: nat)
    decreases k, 1
  {
    exists actor: nat :: Grants(requests, k, actor, id) && Trusted(requests, k, actor)
  }

  lemma TrustedLater(requests: seq<Request>, n: nat, id: nat)
    requires Trusted(requests, n, id)
    ensures Trusted(requests, n + 1, id)
  {
    var k: nat :| k < n && (Bootstraps(requests, k, id) || GrantedByTrusted(requests, k, id));
    assert k < n + 1;
  }

  /** A request that got past the gate was made by an active admin. */
  lemma GatePassed(table: seq<User>, c: Credentials)
    ensures AdminGate(table, c) == None <==>
              CurrentUser(table, c).Some? && CurrentUser(table, c).value.role == Admin
    ensures CurrentUser(table, c).Some? ==>
              CurrentUser(table, c).value in table && CurrentUser(table, c).value.isActive
  {
    if c.Token? {
      FirstMatches(Named(c.username), table);
    }
  }

  /** How an account can be an admin after a step: it was one already, or this very step made it one. */
  lemma AdminAfterStep(s: Users, r: Request, u: User)
    requires u in Step(s, r).table && u.role == Admin
    ensures || (exists o :: o in s.table && o.id == u.id && o.role == Admin)
            || (r.Register? && ReplyTo(s, r) == Created(u.id) && (s.table == [] || r.role == Admin))
            || (r.UpdateUser? && ReplyTo(s, r) == Updated && r.id == u.id && r.newRole == Some(Admin))
  {
    var t := Step(s, r).table;
    if r.UpdateUser? && ReplyTo(s, r) == Updated {
      var k :| 0 <= k < |t| && t[k] == u;
      assert s.table[k] in s.table && u == Changed(r.id, r.newRole, r.newActive)(s.table[k]);
    }
  }

  /**
   * Over every run, whoever holds the admin role has it from the bootstrap account by a chain of grants, each made
   * by an account that was active and admin at that moment.
   */
  lemma {:induction false} AdminsAreTrusted(requests: seq<Request>, n: nat, u: User)
    requires n <= |requests| && u in Before(requests, n).table && u.role == Admin
    ensures Trusted(requests, n, u.id)
  {
    if n > 0 {
      var k := n - 1;
      var s, r := Before(requests, k), requests[k];
      BeforeNext(requests, k, k + 1);
      AdminAfterStep(s, r, u);
      if o :| o in s.table && o.id == u.id && o.role == Admin {
        AdminsAreTrusted(requests, k, o);
        TrustedLater(requests, k, u.id);
      } else if s.table == [] {
        if r.UpdateUser? {
          NoUpdateWithoutUsers(s, r);
        }
        assert Bootstraps(requests, k, u.id);
      } else {
        GatePassed(s.table, r.credentials);
        var actor := CurrentUser(s.table, r.credentials).value;
        AdminsAreTrusted(requests, k, actor);
        assert Grants(requests, k, actor.id, u.id);
        assert GrantedByTrusted(requests, k, u.id);
      }
    }
  }

  lemma NoUpdateWithoutUsers(s: Users, r: Request)
    requires s.table == [] && r.UpdateUser?
    ensures ReplyTo(s, r) == Unauthorized
  {
    GatePassed(s.table, r.credentials);
  }

  /** Request number `k` created account `id`: as the bootstrap account, or for an actor who was then trusted. */
  ghost predicate HasCreator(requests: seq<Request>, k: nat, id: nat) {
    || Bootstraps(requests, k, id)
    || exists actor: nat :: Creates(requests, k, actor, id) && Trusted(requests, k, actor)
  }

  lemma NewAccountHasCreator(requests: seq<Request>, k: nat, i: nat)
    requires k < |requests|
    requires var s := Before(requests, k); |s.table| <= i < |Step(s, requests[k]).table|
    ensures HasCreator(requests, k, Step(Before(requests, k), requests[k]).table[i].id)
  {
    var s, r := Before(requests, k), requests[k];
    if s.table != [] {
      GatePassed(s.table, r.credentials);
      var actor := CurrentUser(s.table, r.credentials).value;
      AdminsAreTrusted(requests, k, actor);
      assert Creates(requests, k, actor.id, Step(s, r).table[i].id);
    }
  }

  /** Every account is the bootstrap account or was created by an account that was then active, admin and trusted. */
  lemma {:induction false} EveryAccountHasACreator(requests: seq<Request>, n: nat, u: User)
    requires n <= |requests| && u in Before(requests, n).table
    ensures exists k: nat :: k < n && HasCreator(requests, k, u.id)
  {
    if n > 0 {
      var k := n - 1;
      var s, r := Before(requests, k), requests[k];
      BeforeNext(requests, k, k + 1);
      RunKeeps(requests[..k]);
      StepKeeps(s, r);
      var t := Step(s, r).table;
      var i :| 0 <= i < |t| && t[i] == u;
      if i < |s.table| {
        EveryAccountHasACreator(requests, k, s.table[i]);
        var j: nat :| j < k && HasCreator(requests, j, s.table[i].id);
        assert HasCreator(requests, j, u.id);
      } else {
        NewAccountHasCreator(requests, k, i);
      }
    }
  }

  /** The open registration succeeds at most once, and makes an admin whatever role was asked for. */
  lemma BootstrapOnce(requests: seq<Request>, j: nat, k: nat, a: nat, b: nat)
    requires Bootstraps(requests, j, a) && Bootstraps(requests, k, b)
    ensures j == k && a == b
    ensures |Before(requests, j + 1).table| == 1 && Before(requests, j + 1).table[0].role == Admin
    ensures Before(requests, j + 1).table[0].id == a && Before(requests, j + 1).table[0].isActive
  {
    BeforeNext(requests, j, j + 1);
    BeforeNext(requests, k, k + 1);
    if j < k {
      TableGrows(requests, j + 1, k);
    } else if k < j {
      TableGrows(requests, k + 1, j);
    }
  }

  // ---------- Authorization takes effect at once; admins can be lost for good ----------

  predicate ActiveAdmin(u: User) {
    u.isActive && u.role == Admin
  }

  predicate HasActiveAdmin(table: seq<User>) {
    exists u :: u in table && ActiveAdmin(u)
  }

  /** Once there are accounts but no active admin, no request changes anything any more. */
  lemma Lockout(s: Users, r: Request)
    requires s.table != [] && !HasActiveAdmin(s.table)
    ensures Step(s, r) == s && (ReplyTo(s, r) == Unauthorized || ReplyTo(s, r) == Forbidden)
  {
    GatePassed(s.table, r.credentials);
  }

  lemma LockedNext(requests: seq<Request>, k: nat, next: nat, s: Users)
    requires k < |requests| && next == k + 1
    requires Before(requests, k) == s && s.table != [] && !HasActiveAdmin(s.table)
    ensures Before(requests, next) == s
  {
    BeforeNext(requests, k, next);
    Lockout(s, requests[k]);
  }

  lemma {:induction false} LockedUntil(requests: seq<Request>, j: nat, k: nat, s: Users)
    requires j <= k <= |requests| && Before(requests, j) == s && s.table != [] && !HasActiveAdmin(s.table)
    ensures Before(requests, k) == s
  {
    if j < k {
      var last: nat := k - 1;
      LockedUntil(requests, j, last, s);
      LockedNext(requests, last, k, s);
    }
  }

  /** From then on no sequence of requests changes any account. */
  lemma LockoutIsForever(earlier: seq<Request>, later: seq<Request>)
    requires Run(earlier).table != [] && !HasActiveAdmin(Run(earlier).table)
    ensures Run(earlier + later) == Run(earlier)
  {
    var requests := earlier + later;
    assert requests[..|earlier|] == earlier && requests[..|requests|] == requests;
    LockedUntil(requests, |earlier|, |requests|, Run(earlier));
  }

  /** The update takes the admin role or the activity from its target. */
  predicate TakesAdmin(r: Request) {
    r.UpdateUser? && (r.newActive == Some(false) || (r.newRole.Some? && r.newRole.value != Admin))
  }

  predicate OnlyActiveAdmin(table: seq<User>, id: nat) {
    forall u :: u in table && ActiveAdmin(u) ==> u.id == id
  }

  /** The only active admin asks to stop being one. */
  predicate LastAdminResigns(s: Users, r: Request) {
    && TakesAdmin(r) && OnlyActiveAdmin(s.table, r.id)
    && var u := CurrentUser(s.table, r.credentials); u.Some? && u.value.role == Admin && u.value.id == r.id
  }

  lemma OtherAdminStays(s: Users, r: Request, u: User)
    requires u in s.table && ActiveAdmin(u) && (r.UpdateUser? ==> u.id != r.id || !TakesAdmin(r))
    ensures HasActiveAdmin(Step(s, r).table)
  {
    var k :| 0 <= k < |s.table| && s.table[k] == u;
    var t := Step(s, r).table;
    assert k < |t| && ActiveAdmin(t[k]);
    assert t[k] in t;
  }

  lemma NoneLeft(s: Users, r: Request)
    requires TakesAdmin(r) && ReplyTo(s, r) == Updated && OnlyActiveAdmin(s.table, r.id)
    ensures !HasActiveAdmin(Step(s, r).table)
  {
    var t := Step(s, r).table;
    forall v | v in t ensures !ActiveAdmin(v) {
      var k :| 0 <= k < |t| && t[k] == v;
      assert s.table[k] in s.table && v == Changed(r.id, r.newRole, r.newActive)(s.table[k]);
    }
  }

  /** A request takes the last active admin away exactly when it is an accepted demotion or deactivation of that one. */
  lemma AdminRemains(s: Users, r: Request)
    requires HasActiveAdmin(s.table)
    ensures !HasActiveAdmin(Step(s, r).table)
       <==> TakesAdmin(r) && ReplyTo(s, r) == Updated && OnlyActiveAdmin(s.table, r.id)
  {
    if TakesAdmin(r) && ReplyTo(s, r) == Updated && OnlyActiveAdmin(s.table, r.id) {
      NoneLeft(s, r);
    } else {
      var u :| u in s.table && ActiveAdmin(u);
      if r.UpdateUser? && !OnlyActiveAdmin(s.table, r.id) {
        u :| u in s.table && ActiveAdmin(u) && u.id != r.id;
      }
      if r.UpdateUser? && ReplyTo(s, r) != Updated {
        assert Step(s, r) == s;
      } else {
        OtherAdminStays(s, r, u);
      }
    }
  }

  /** No one can take the last admin's rights but that admin: the request is made with its own token. */
  lemma LastAdminLeavesItself(s: Users, r: Request)
    requires HasActiveAdmin(s.table)
    ensures !HasActiveAdmin(Step(s, r).table) <==> LastAdminResigns(s, r)
  {
    AdminRemains(s, r);
    GatePassed(s.table, r.credentials);
    FirstMatches(Named(if r.credentials.Token? then r.credentials.username else ""), s.table);
    FirstMatches(WithId(if r.UpdateUser? then r.id else 0), s.table);
  }

  lemma BootstrapGivesAdmin(s: Users, r: Request)
    requires s.table == [] && Step(s, r).table != []
    ensures HasActiveAdmin(Step(s, r).table)
  {
    if r.UpdateUser? {
      NoUpdateWithoutUsers(s, r);
    }
    assert ActiveAdmin(Step(s, r).table[0]) && Step(s, r).table[0] in Step(s, r).table;
  }

  ghost predicate ResignedBefore(requests: seq<Request>, n: nat)
    requires n <= |requests|
  {
    exists k: nat :: k < n && LastAdminResigns(Before(requests, k), requests[k])
  }

  lemma {:induction false} LossHasCause(requests: seq<Request>, n: nat)
    requires n <= |requests| && Before(requests, n).table != [] && !HasActiveAdmin(Before(requests, n).table)
    ensures ResignedBefore(requests, n)
  {
    if n > 0 {
      var k: nat := n - 1;
      var s := Before(requests, k);
      BeforeNext(requests, k, n);
      RunKeeps(requests[..k]);
      if HasActiveAdmin(s.table) {
        LastAdminLeavesItself(s, requests[k]);
      } else if s.table == [] {
        BootstrapGivesAdmin(s, requests[k]);
      } else {
        LossHasCause(requests, k);
      }
    }
  }

  lemma CauseMeansLoss(requests: seq<Request>, k: nat)
    requires k < |requests| && LastAdminResigns(Before(requests, k), requests[k])
    ensures Run(requests).table != [] && !HasActiveAdmin(Run(requests).table)
  {
    var s, r := Before(requests, k), requests[k];
    FirstMatches(Named(r.credentials.username), s.table);
    RunKeeps(requests[..k]);
    assert HasActiveAdmin(s.table);
    LastAdminLeavesItself(s, r);
    BeforeNext(requests, k, k + 1);
    StepKeeps(s, r);
    LockedUntil(requests, k + 1, |requests|, Step(s, r));
    assert requests[..|requests|] == requests;
  }

  /** A run ends without an active admin exactly when, at some point of it, the last one resigned. */
  lemma AdminsLostInRun(requests: seq<Request>)
    ensures Run(requests).table != [] && !HasActiveAdmin(Run(requests).table)
       <==> ResignedBefore(requests, |requests|)
  {
    assert requests[..|requests|] == requests;
    if Run(requests).table != [] && !HasActiveAdmin(Run(requests).table) {
      LossHasCause(requests, |requests|);
    }
    if ResignedBefore(requests, |requests|) {
      var k: nat :| k < |requests| && LastAdminResigns(Before(requests, k), requests[k]);
      CauseMeansLoss(requests, k);
    }
  }

  /** Two requests are enough to lose the only admin: the bootstrap account may demote itself. */
  lemma SelfDemotion()
    ensures var requests := [Register(NoHeader, "root", "root@lab", Viewer),
                             UpdateUser(Token("root"), 1, Some(Viewer), None)];
            Run(requests).table == [User(1, "root", "root@lab", Viewer, true)]
  {
    var first := Register(NoHeader, "root", "root@lab", Viewer);
    var second := UpdateUser(Token("root"), 1, Some(Viewer), None);
    var root := User(1, "root", "root@lab", Admin, true);
    assert [first, second][..1] == [first] && [first][..0] == [];
    assert Run([first]) == Users([root], 2);
    FirstMatches(Named("root"), [root]);
    FirstMatches(WithId(1), [root]);
    assert ReplyTo(Users([root], 2), second) == Updated;
  }

  lemma OnlyOneOfThatName(table: seq<User>, u: User, v: User)
    requires Pairwise(Distinct, table) && u in table && v in table && u.username == v.username
    ensures u == v
  {
    PairwiseMembers(Distinct, table, u, v);
  }

  /** The account a valid token names is found under its unique username. */
  lemma FindsByName(table: seq<User>, u: User)
    requires Pairwise(Distinct, table) && u in table
    ensures CurrentUser(table, Token(u.username)) == if u.isActive then Some(u) else None
  {
    FirstMatches(Named(u.username), table);
    OnlyOneOfThatName(table, u, First(Named(u.username), table).value);
  }

  /** The token names this account, and the account is active. */
  predicate Speaks(table: seq<User>, c: Credentials, u: User) {
    u in table && c == Token(u.username) && u.isActive
  }

  lemma SpeakerIsCurrent(table: seq<User>, c: Credentials, u: User)
    requires Pairwise(Distinct, table)
    ensures CurrentUser(table, c) == Some(u) <==> Speaks(table, c, u)
  {
    GatePassed(table, c);
    if c.Token? {
      FirstMatches(Named(c.username), table);
    }
    if Speaks(table, c, u) {
      FindsByName(table, u);
    }
  }

  lemma GateExact(table: seq<User>, c: Credentials)
    requires Pairwise(Distinct, table)
    ensures AdminGate(table, c) == None <==> exists u :: Speaks(table, c, u) && u.role == Admin
    ensures AdminGate(table, c) == Some(Forbidden) <==> exists u :: Speaks(table, c, u) && u.role != Admin
    ensures AdminGate(table, c) == Some(Unauthorized) <==> forall u :: !Speaks(table, c, u)
  {
    forall u ensures CurrentUser(table, c) == Some(u) <==> Speaks(table, c, u) {
      SpeakerIsCurrent(table, c, u);
    }
    if CurrentUser(table, c).Some? {
      assert Speaks(table, c, CurrentUser(table, c).value);
    }
  }

  predicate Taken(table: seq<User>, username: string, email: string) {
    exists u :: u in table && (u.username == username || u.email == email)
  }

  lemma NobodySpeaks(c: Credentials)
    ensures CurrentUser([], c) == None
  {
  }

  /**
   * Who may register: anyone while there is no account, if no token is sent, and an active admin afterwards; the name
   * and the address must be new.
   */
  lemma RegistrationReply(s: Users, c: Credentials, username: string, email: string, role: Role)
    requires Ok(s)
    ensures var reply := ReplyTo(s, Register(c, username, email, role));
            var byAdmin := exists u :: Speaks(s.table, c, u) && u.role == Admin;
            var allowed := (s.table == [] && c == NoHeader) || byAdmin;
            && (reply == Created(s.next) <==> allowed && !Taken(s.table, username, email))
            && (reply == Conflict <==> allowed && Taken(s.table, username, email))
            && (reply == Forbidden <==> exists u :: Speaks(s.table, c, u) && u.role != Admin)
            && (reply == Unauthorized <==> !(s.table == [] && c == NoHeader) && forall u :: !Speaks(s.table, c, u))
  {
    GateExact(s.table, c);
    NobodySpeaks(c);
    GatePassed(s.table, c);
    forall u ensures CurrentUser(s.table, c) == Some(u) <==> Speaks(s.table, c, u) {
      SpeakerIsCurrent(s.table, c, u);
    }
  }

  /** A registration adds one active account with what was sent, role included, but the first one is an admin. */
  lemma AccountRegistered(s: Users, c: Credentials, username: string, email: string, role: Role)
    requires ReplyTo(s, Register(c, username, email, role)).Created?
    ensures var t := Step(s, Register(c, username, email, role)).table;
            && |t| == |s.table| + 1 && s.table <= t
            && var u := t[|s.table|];
               && u.id == s.next && u.username == username && u.email == email && u.isActive
               && u.role == (if |s.table| == 0 then Admin else role)
  {
  }

  /** Who may change accounts: an active admin, if there is such an account. */
  lemma UpdateReply(s: Users, c: Credentials, id: nat, role: Option<Role>, active: Option<bool>)
    requires Ok(s)
    ensures var reply := ReplyTo(s, UpdateUser(c, id, role, active));
            var byAdmin := exists u :: Speaks(s.table, c, u) && u.role == Admin;
            && (reply == Updated <==> byAdmin && exists u :: u in s.table && u.id == id)
            && (reply == NotFound <==> byAdmin && forall u :: u in s.table ==> u.id != id)
            && (reply == Forbidden <==> exists u :: Speaks(s.table, c, u) && u.role != Admin)
            && (reply == Unauthorized <==> forall u :: !Speaks(s.table, c, u))
  {
    GateExact(s.table, c);
    FirstMatches(WithId(id), s.table);
  }

  /** An update changes the account it names, and of that one the fields sent; every other account is left alone. */
  lemma AccountUpdated(s: Users, c: Credentials, id: nat, role: Option<Role>, active: Option<bool>, i: nat)
    requires ReplyTo(s, UpdateUser(c, id, role, active)) == Updated && i < |s.table|
    ensures var s' := Step(s, UpdateUser(c, id, role, active));
            && |s'.table| == |s.table| && s'.next == s.next
            && var u, v := s.table[i], s'.table[i];
               && v.id == u.id && v.username == u.username && v.email == u.email
               && (if u.id == id && role.Some? then v.role == role.value else v.role == u.role)
               && (if u.id == id && active.Some? then v.isActive == active.value else v.isActive == u.isActive)
  {
  }

  lemma UpdatedAccount(s: Users, r: Request, u: User)
    requires r.UpdateUser? && ReplyTo(s, r) == Updated && u in s.table && u.id == r.id
    ensures u.(role := Or(r.newRole, u.role), isActive := Or(r.newActive, u.isActive)) in Step(s, r).table
  {
    var k :| 0 <= k < |s.table| && s.table[k] == u;
    assert Step(s, r).table[k] == Changed(r.id, r.newRole, r.newActive)(u);
  }

  /** A deactivated account is refused on its very next request, a demoted one at the next admin gate. */
  lemma ChangesTakeEffectAtOnce(s: Users, r: Request, u: User)
    requires Ok(s) && r.UpdateUser? && ReplyTo(s, r) == Updated && u in s.table && u.id == r.id
    ensures r.newActive == Some(false) ==> CurrentUser(Step(s, r).table, Token(u.username)) == None
    ensures r.newActive != Some(false) && u.isActive && r.newRole.Some? && r.newRole.value != Admin ==>
              AdminGate(Step(s, r).table, Token(u.username)) == Some(Forbidden)
  {
    var changed := u.(role := Or(r.newRole, u.role), isActive := Or(r.newActive, u.isActive));
    UpdatedAccount(s, r, u);
    StepKeeps(s, r);
    FindsByName(Step(s, r).table, changed);
    GatePassed(Step(s, r).table, Token(u.username));
  }

  // ---------- The service and the routes ----------

  /** How `create_user` ends. */
  datatype Creation = NewUser(user: User) | UsernameTaken | EmailTaken

  class AccountStore {
    var table: seq<User>
    var next: nat

    ghost function Contents(): Users
      reads this
    {
      Users(table, next)
    }

    constructor ()
      ensures Contents() == NOBODY
    {
      table, next := [], 1;
    }

    /** `create_user`: the username is looked at before the email, and nothing is stored when either is taken. */
    method CreateUser(username: string, email: string, role: Role, forceAdmin: bool) returns (result: Creation)
      modifies this
      ensures result == UsernameTaken <==> exists u :: u in old(table) && u.username == username
      ensures result == EmailTaken <==> (exists u :: u in old(table) && u.email == email) && result != UsernameTaken
      ensures !result.NewUser? ==> Contents() == old(Contents())
      ensures result.NewUser? ==>
        && result.user == User(old(next), username, email, if forceAdmin then Admin else role, true)
        && table == old(table) + [result.user] && next == old(next) + 1
    {
      FirstMatches(Named(username), table);
      FirstMatches(WithEmail(email), table);
      if First(Named(username), table).Some? {
        assert First(Named(username), table).value in table;
        return UsernameTaken;
      }
      if First(WithEmail(email), table).Some? {
        assert First(WithEmail(email), table).value in table;
        return EmailTaken;
      }
      var created := User(next, username, email, if forceAdmin then Admin else role, true);
      table := table + [created];
      next := next + 1;
      result := NewUser(created);
    }

    /** `register`: open while there is no account, then for admins only. */
    method Register(c: Credentials, username: string, email: string, role: Role) returns (reply: Reply)
      modifies this
      ensures reply == ReplyTo(old(Contents()), Request.Register(c, username, email, role))
      ensures Contents() == Step(old(Contents()), Request.Register(c, username, email, role))
    {
      var currentUser := CurrentUser(table, c);
      if c != NoHeader && currentUser == None {
        return Unauthorized;
      }
      var bootstrap := table == [];
      if !bootstrap {
        if currentUser == None {
          return Unauthorized;
        }
        if RoleLevel(currentUser.value.role) < RoleLevel(Admin) {
          return Forbidden;
        }
      }
      var result := CreateUser(username, email, role, bootstrap);
      reply := if result.NewUser? then Created(result.user.id) else Conflict;
    }

    /** `update_user`: an admin may change the role or activity of any account, its own included. */
    method PatchUser(c: Credentials, id: nat, role: Option<Role>, active: Option<bool>) returns (reply: Reply)
      modifies this
      ensures reply == ReplyTo(old(Contents()), UpdateUser(c, id, role, active))
      ensures Contents() == Step(old(Contents()), UpdateUser(c, id, role, active))
    {
      var gate := AdminGate(table, c);
      if gate.Some? {
        return gate.value;
      }
      if First(WithId(id), table) == None {
        return NotFound;
      }
      table := Map(Changed(id, role, active), table);
      reply := Updated;
    }
  }
}
