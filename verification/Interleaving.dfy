/**
 * Health checks that run at the same time: the scheduler thread and any number of API threads each read the previous
 * row, commit their own and dispatch, as separate steps in any order. Timestamps need not follow the commit order.
 */
module Interleaving {
  import opened Base
  import opened Sorting
  import opened Tables
  import M = Monitoring

  /** What a check read when it began, and how many rows had been committed by then. */
  datatype Basis = Basis(previous: Option<HealthRow>, commits: nat)

  datatype Phase =
    | Began(device: nat, basis: Basis)
    | Committed(index: nat)

  /**
   * `rows` is the table in commit order and `sent` the trace; `bases` and `order` are history: the basis of each
   * committed row, and the row numbers in the order of their dispatch.
   */
  datatype World = World(
    rows: seq<HealthRow>, sent: seq<Event>, running: map<nat, Phase>, bases: seq<Basis>, order: seq<nat>)

  const START := World([], [], map[], [], [])

  datatype Action =
    | Begin(checker: nat, device: nat)
    | Commit(checker: nat, id: nat, finding: M.Finding, now: int)
    | Dispatch(checker: nat)

  predicate Enabled(w: World, a: Action) {
    match a
    case Begin(c, _) => c !in w.running
    case Commit(c, id, _, _) => c in w.running && w.running[c].Began? && forall r :: r in w.rows ==> r.id != id
    case Dispatch(c) => c in w.running && w.running[c].Committed? && w.running[c].index < |w.rows| == |w.bases|
  }

  function EventsOf(w: World, i: nat): seq<Event>
    requires i < |w.rows| == |w.bases|
  {
    M.EventsFor(M.StatusOf(w.bases[i].previous), w.rows[i])
  }

  function Act(w: World, a: Action): World
    requires Enabled(w, a)
  {
    match a
    case Begin(c, d) => w.(running := w.running[c := Began(d, Basis(M.Latest(w.rows, d), |w.rows|))])
    case Commit(c, id, finding, now) =>
      w.(rows := w.rows + [M.NewRow(id, w.running[c].device, finding, now)],
         bases := w.bases + [w.running[c].basis],
         running := w.running[c := Committed(|w.rows|)])
    case Dispatch(c) =>
      w.(sent := w.sent + EventsOf(w, w.running[c].index),
         order := w.order + [w.running[c].index],
         running := w.running - {c})
  }

  /** Any schedule; an action that is not enabled has no effect. */
  function After(schedule: seq<Action>): World {
    if schedule == [] then START
    else
      var w, a := After(schedule[..|schedule| - 1]), schedule[|schedule| - 1];
      if Enabled(w, a) then Act(w, a) else w
  }

  // ---------- The invariant ----------

  ghost predicate BasisOk(w: World, b: Basis, d: nat) {
    b.commits <= |w.rows| && b.previous == M.Latest(w.rows[..b.commits], d)
  }

  predicate Pending(w: World, i: nat) {
    exists c :: c in w.running && w.running[c] == Committed(i)
  }

  predicate InRange(order: seq<nat>, n: nat) {
    forall k :: 0 <= k < |order| ==> order[k] < n
  }

  function SentFor(w: World, order: seq<nat>): seq<Event>
    requires |w.rows| == |w.bases| && InRange(order, |w.rows|)
  {
    if order == [] then []
    else
      SentFor(w, order[..|order| - 1]) + EventsOf(w, order[|order| - 1])
  }

  ghost predicate RowsOk(w: World) {
    && |w.bases| == |w.rows| && Pairwise(M.DifferentIds, w.rows)
    && (forall i :: 0 <= i < |w.rows| ==> w.bases[i].commits <= i && BasisOk(w, w.bases[i], w.rows[i].deviceId))
    && (forall c :: c in w.running && w.running[c].Began? ==> BasisOk(w, w.running[c].basis, w.running[c].device))
  }

  predicate DistinctNumbers(order: seq<nat>) {
    forall i, j :: 0 <= i < j < |order| ==> order[i] != order[j]
  }

  /** The rows awaiting their dispatch are not dispatched yet, and each waits at one checker only. */
  ghost predicate WaitingOk(w: World) {
    && (forall c :: c in w.running && w.running[c].Committed? ==>
          w.running[c].index < |w.rows| && w.running[c].index !in w.order)
    && (forall b, c :: b in w.running && c in w.running && b != c && w.running[b].Committed? ==>
          w.running[b] != w.running[c])
  }

  /** Every row that was not dispatched is awaiting its dispatch. */
  ghost predicate Accounted(w: World) {
    forall i: nat :: i < |w.rows| && i !in w.order ==> Pending(w, i)
  }

  /** Every committed row is either awaiting its dispatch at exactly one checker or was dispatched exactly once. */
  ghost predicate OrderOk(w: World) {
    InRange(w.order, |w.rows|) && DistinctNumbers(w.order) && WaitingOk(w) && Accounted(w)
  }

  ghost predicate Ok(w: World) {
    RowsOk(w) && OrderOk(w) && w.sent == SentFor(w, w.order)
  }

  lemma {:induction false} SentForKept(w: World, w': World, order: seq<nat>)
    requires |w.rows| == |w.bases| && |w'.rows| == |w'.bases| && w.rows <= w'.rows && w.bases <= w'.bases
    requires InRange(order, |w.rows|)
    ensures SentFor(w', order) == SentFor(w, order)
  {
    if order != [] {
      SentForKept(w, w', order[..|order| - 1]);
    }
  }

  lemma BeginKeeps(w: World, c: nat, d: nat)
    requires Ok(w) && Enabled(w, Begin(c, d))
    ensures Ok(Act(w, Begin(c, d)))
  {
    var w' := Act(w, Begin(c, d));
    assert w.rows[..|w.rows|] == w.rows;
    forall i: nat | i < |w'.rows| && i !in w'.order ensures Pending(w', i) {
      var b :| b in w.running && w.running[b] == Committed(i);
      assert b in w'.running && w'.running[b] == Committed(i);
    }
    SentForKept(w, w', w.order);
  }

  lemma BasisKept(w: World, w': World, b: Basis, d: nat)
    requires w.rows <= w'.rows && BasisOk(w, b, d)
    ensures BasisOk(w', b, d)
  {
    assert w'.rows[..b.commits] == w.rows[..b.commits];
  }

  lemma FreshRow(rows: seq<HealthRow>, row: HealthRow)
    requires Pairwise(M.DifferentIds, rows) && forall r :: r in rows ==> r.id != row.id
    ensures Pairwise(M.DifferentIds, rows + [row])
  {
    assert forall i :: 0 <= i < |rows| ==> rows[i] in rows;
  }

  lemma CommitKeepsRows(w: World, a: Action)
    requires a.Commit? && Ok(w) && Enabled(w, a)
    ensures RowsOk(Act(w, a))
  {
    var w' := Act(w, a);
    var row := M.NewRow(a.id, w.running[a.checker].device, a.finding, a.now);
    assert w'.rows == w.rows + [row];
    FreshRow(w.rows, row);
    forall i | 0 <= i < |w'.rows| ensures w'.bases[i].commits <= i && BasisOk(w', w'.bases[i], w'.rows[i].deviceId) {
      BasisKept(w, w', w'.bases[i], w'.rows[i].deviceId);
    }
    forall c | c in w'.running && w'.running[c].Began? ensures BasisOk(w', w'.running[c].basis, w'.running[c].device) {
      BasisKept(w, w', w.running[c].basis, w.running[c].device);
    }
  }

  lemma PendingAfterCommit(w: World, a: Action, i: nat)
    requires a.Commit? && Ok(w) && Enabled(w, a) && i <= |w.rows| && i !in w.order
    ensures Pending(Act(w, a), i)
  {
    var w' := Act(w, a);
    if i < |w.rows| {
      var b :| b in w.running && w.running[b] == Committed(i);
      assert b in w'.running && w'.running[b] == Committed(i);
    } else {
      assert a.checker in w'.running && w'.running[a.checker] == Committed(i);
    }
  }

  lemma CommitKeepsWaiting(w: World, a: Action)
    requires a.Commit? && Ok(w) && Enabled(w, a)
    ensures WaitingOk(Act(w, a))
  {
    assert forall k :: 0 <= k < |w.order| ==> w.order[k] < |w.rows|;
  }

  lemma CommitKeepsOrder(w: World, a: Action)
    requires a.Commit? && Ok(w) && Enabled(w, a)
    ensures OrderOk(Act(w, a))
  {
    var w' := Act(w, a);
    CommitKeepsWaiting(w, a);
    forall i: nat | i < |w'.rows| && i !in w'.order ensures Pending(w', i) {
      PendingAfterCommit(w, a, i);
    }
  }

  lemma CommitKeeps(w: World, a: Action)
    requires a.Commit? && Ok(w) && Enabled(w, a)
    ensures Ok(Act(w, a))
  {
    CommitKeepsRows(w, a);
    CommitKeepsOrder(w, a);
    SentForKept(w, Act(w, a), w.order);
  }

  lemma PendingAfterDispatch(w: World, c: nat, i: nat)
    requires Ok(w) && Enabled(w, Dispatch(c))
    requires i < |w.rows| && i !in w.order + [w.running[c].index]
    ensures Pending(Act(w, Dispatch(c)), i)
  {
    var w' := Act(w, Dispatch(c));
    assert i !in w.order;
    var b :| b in w.running && w.running[b] == Committed(i);
    assert w.running[c].index in w.order + [w.running[c].index];
    assert b in w'.running && w'.running[b] == Committed(i);
  }

  lemma DispatchKeepsWaiting(w: World, c: nat)
    requires Ok(w) && Enabled(w, Dispatch(c))
    ensures WaitingOk(Act(w, Dispatch(c)))
  {
    var w' := Act(w, Dispatch(c));
    assert forall i :: i in w'.order <==> i in w.order || i == w.running[c].index;
    assert forall b :: b in w'.running <==> b in w.running && b != c;
  }

  lemma DistinctPush(order: seq<nat>, k: nat)
    requires DistinctNumbers(order) && k !in order
    ensures DistinctNumbers(order + [k])
  {
    assert forall i :: 0 <= i < |order| ==> order[i] in order;
  }

  lemma DispatchKeepsOrder(w: World, c: nat)
    requires Ok(w) && Enabled(w, Dispatch(c))
    ensures OrderOk(Act(w, Dispatch(c)))
  {
    var w' := Act(w, Dispatch(c));
    DistinctPush(w.order, w.running[c].index);
    DispatchKeepsWaiting(w, c);
    forall i: nat | i < |w'.rows| && i !in w'.order ensures Pending(w', i) {
      PendingAfterDispatch(w, c, i);
    }
  }

  lemma DispatchKeeps(w: World, c: nat)
    requires Ok(w) && Enabled(w, Dispatch(c))
    ensures Ok(Act(w, Dispatch(c)))
  {
    var w' := Act(w, Dispatch(c));
    var k := w.running[c].index;
    DispatchKeepsOrder(w, c);
    SentForKept(w, w', w.order);
    assert (w.order + [k])[..|w.order|] == w.order;
    forall b | b in w'.running && w'.running[b].Began? ensures BasisOk(w', w'.running[b].basis, w'.running[b].device) {
      BasisKept(w, w', w.running[b].basis, w.running[b].device);
    }
    forall i | 0 <= i < |w'.rows| ensures BasisOk(w', w'.bases[i], w'.rows[i].deviceId) {
      BasisKept(w, w', w.bases[i], w.rows[i].deviceId);
    }
  }

  lemma {:induction false} ScheduleKeeps(schedule: seq<Action>)
    ensures Ok(After(schedule))
  {
    if schedule != [] {
      var before, a := schedule[..|schedule| - 1], schedule[|schedule| - 1];
      ScheduleKeeps(before);
      if Enabled(After(before), a) {
        match a
        case Begin(c, d) => BeginKeeps(After(before), c, d);
        case Commit(_, _, _, _) => CommitKeeps(After(before), a);
        case Dispatch(c) => DispatchKeeps(After(before), c);
      }
    }
  }

  // ---------- What survives any schedule ----------

  /** The table row an event reports. */
  predicate Reports(w: World, e: Event, i: nat) {
    i < |w.rows| == |w.bases| && e.rowId == w.rows[i].id && e.deviceId == w.rows[i].deviceId
    && match e.kind
       case DeviceDown => w.rows[i].status == Down
       case HealthCheckFailed => w.rows[i].status == Error
       case DeviceRecovered => w.rows[i].status == Up
       case _ => false
  }

  lemma {:induction false} SentReports(w: World, order: seq<nat>, k: nat)
    requires |w.rows| == |w.bases| && InRange(order, |w.rows|) && k < |SentFor(w, order)|
    ensures exists i :: i in order && Reports(w, SentFor(w, order)[k], i)
              && (SentFor(w, order)[k].kind == DeviceRecovered ==>
                    w.bases[i].previous.Some? && M.Bad(w.bases[i].previous.value.status))
  {
    var t, last := order[..|order| - 1], order[|order| - 1];
    var n := |SentFor(w, t)|;
    if k < n {
      SentReports(w, t, k);
      var i :| i in t && Reports(w, SentFor(w, t)[k], i)
        && (SentFor(w, t)[k].kind == DeviceRecovered ==>
              w.bases[i].previous.Some? && M.Bad(w.bases[i].previous.value.status));
      assert i in order;
    } else {
      assert last in order && SentFor(w, order)[k] == EventsOf(w, last)[k - n];
      assert Reports(w, EventsOf(w, last)[k - n], last);
    }
  }

  lemma {:induction false} SentDistinct(w: World, order: seq<nat>, j: nat, k: nat)
    requires |w.rows| == |w.bases| && InRange(order, |w.rows|) && Pairwise(M.DifferentIds, w.rows)
    requires DistinctNumbers(order)
    requires j < k < |SentFor(w, order)|
    ensures SentFor(w, order)[j].rowId != SentFor(w, order)[k].rowId
  {
    var t, last := order[..|order| - 1], order[|order| - 1];
    var n := |SentFor(w, t)|;
    if k < n {
      SentDistinct(w, t, j, k);
    } else {
      assert |EventsOf(w, last)| <= 1 && k == n;
      SentReports(w, t, j);
      var i :| i in t && Reports(w, SentFor(w, t)[j], i);
      var x :| 0 <= x < |t| && t[x] == i;
      assert order[x] != order[|order| - 1];
      assert i < last ==> M.DifferentIds(w.rows[i], w.rows[last]);
      assert last < i ==> M.DifferentIds(w.rows[last], w.rows[i]);
    }
  }

  /** In every schedule each event reports a committed row of the matching status, and no row is reported twice. */
  lemma EventsMapToRows(schedule: seq<Action>, k: nat)
    requires k < |After(schedule).sent|
    ensures exists i :: Reports(After(schedule), After(schedule).sent[k], i)
    ensures forall j :: 0 <= j < k ==> After(schedule).sent[j].rowId != After(schedule).sent[k].rowId
  {
    var w := After(schedule);
    ScheduleKeeps(schedule);
    SentReports(w, w.order, k);
    forall j | 0 <= j < k ensures w.sent[j].rowId != w.sent[k].rowId {
      SentDistinct(w, w.order, j, k);
    }
  }

  /** Row `bad` of the same device failed, and was committed before the check of row `i` began. */
  predicate Justifies(w: World, bad: nat, i: nat) {
    && i < |w.rows| == |w.bases| && bad < w.bases[i].commits <= i
    && w.rows[bad].deviceId == w.rows[i].deviceId && M.Bad(w.rows[bad].status)
  }

  /**
   * In every schedule a recovery is justified: the check that reported it had read a DOWN or ERROR row of the same
   * device that was committed before that check began.
   */
  lemma RecoveryJustified(schedule: seq<Action>, k: nat)
    requires k < |After(schedule).sent| && After(schedule).sent[k].kind == DeviceRecovered
    ensures exists i: nat, bad: nat ::
              Reports(After(schedule), After(schedule).sent[k], i) && Justifies(After(schedule), bad, i)
  {
    var w := After(schedule);
    ScheduleKeeps(schedule);
    SentReports(w, w.order, k);
    var i :| i in w.order && Reports(w, w.sent[k], i)
      && w.bases[i].previous.Some? && M.Bad(w.bases[i].previous.value.status);
    var bad := BasisIsCommitted(w, i);
    assert Justifies(w, bad, i);
  }

  lemma BasisIsCommitted(w: World, i: nat) returns (at: nat)
    requires RowsOk(w) && i < |w.rows| && w.bases[i].previous.Some?
    ensures at < w.bases[i].commits <= i
    ensures w.rows[at] == w.bases[i].previous.value && w.rows[at].deviceId == w.rows[i].deviceId
  {
    var read, n := w.bases[i].previous.value, w.bases[i].commits;
    assert BasisOk(w, w.bases[i], w.rows[i].deviceId);
    PrefixDistinct(w.rows, n);
    M.LatestIsNewest(w.rows[..n], w.rows[i].deviceId, read);
    at :| 0 <= at < n && w.rows[..n][at] == read;
  }

  lemma PrefixDistinct(rows: seq<HealthRow>, n: nat)
    requires Pairwise(M.DifferentIds, rows) && n <= |rows|
    ensures Pairwise(M.DifferentIds, rows[..n])
  {
    forall i, j | 0 <= i < j < n ensures M.DifferentIds(rows[..n][i], rows[..n][j]) {
      assert M.DifferentIds(rows[i], rows[j]);
    }
  }

  // ---------- Counting ----------

  /** The numbers of the rows with a given status. */
  function RowsWith(rows: seq<HealthRow>, s: HealthStatus): set<nat> {
    set i: nat | i < |rows| && rows[i].status == s
  }

  lemma RowsWithPush(rows: seq<HealthRow>, row: HealthRow, s: HealthStatus)
    ensures RowsWith(rows + [row], s) == if row.status == s then RowsWith(rows, s) + {|rows|} else RowsWith(rows, s)
  {
    var more := rows + [row];
    assert forall i: nat :: i < |rows| ==> more[i] == rows[i];
    assert more[|rows|] == row;
  }

  lemma {:induction false} StatusCount(rows: seq<HealthRow>, s: HealthStatus)
    ensures M.CountStatus(s, rows) == |RowsWith(rows, s)|
  {
    if rows == [] {
      assert RowsWith(rows, s) == {};
    } else {
      var n := |rows| - 1;
      StatusCount(rows[..n], s);
      RowsWithPush(rows[..n], rows[n], s);
      assert rows == rows[..n] + [rows[n]];
    }
  }

  /** The members of `all` that were dispatched. */
  function Among(order: seq<nat>, all: set<nat>): set<nat> {
    set i | i in all && i in order
  }

  lemma AmongPush(order: seq<nat>, last: nat, all: set<nat>)
    ensures Among(order + [last], all) == if last in all then Among(order, all) + {last} else Among(order, all)
  {
    assert forall i :: i in order + [last] <==> i in order || i == last;
  }

  function KindFor(s: HealthStatus): EventType
    requires s != Up
  {
    if s == Down then DeviceDown else HealthCheckFailed
  }

  lemma {:induction false} SentCount(w: World, order: seq<nat>, s: HealthStatus)
    requires s != Up && |w.rows| == |w.bases| && InRange(order, |w.rows|)
    requires DistinctNumbers(order)
    ensures Count(KindFor(s), SentFor(w, order)) == |Among(order, RowsWith(w.rows, s))|
  {
    if order == [] {
      assert Among(order, RowsWith(w.rows, s)) == {};
    } else {
      SentCount(w, order[..|order| - 1], s);
      SentCountPush(w, order, s);
    }
  }

  lemma LastIsNew(order: seq<nat>)
    requires order != [] && DistinctNumbers(order)
    ensures order == order[..|order| - 1] + [order[|order| - 1]] && order[|order| - 1] !in order[..|order| - 1]
  {
  }

  lemma SentCountPush(w: World, order: seq<nat>, s: HealthStatus)
    requires s != Up && |w.rows| == |w.bases| && InRange(order, |w.rows|) && order != [] && DistinctNumbers(order)
    requires var t := order[..|order| - 1];
             Count(KindFor(s), SentFor(w, t)) == |Among(t, RowsWith(w.rows, s))|
    ensures Count(KindFor(s), SentFor(w, order)) == |Among(order, RowsWith(w.rows, s))|
  {
    AmongGrows(order, RowsWith(w.rows, s));
    SentCountSplit(w, order, KindFor(s));
    FailureCount(w, order[|order| - 1], s);
  }

  lemma SentCountSplit(w: World, order: seq<nat>, k: EventType)
    requires |w.rows| == |w.bases| && InRange(order, |w.rows|) && order != []
    ensures Count(k, SentFor(w, order))
         == Count(k, SentFor(w, order[..|order| - 1])) + Count(k, EventsOf(w, order[|order| - 1]))
  {
    CountAppend(k, SentFor(w, order[..|order| - 1]), EventsOf(w, order[|order| - 1]));
  }

  lemma AmongGrows(order: seq<nat>, all: set<nat>)
    requires order != [] && DistinctNumbers(order)
    ensures |Among(order, all)|
         == |Among(order[..|order| - 1], all)| + (if order[|order| - 1] in all then 1 else 0)
  {
    LastIsNew(order);
    AmongPush(order[..|order| - 1], order[|order| - 1], all);
  }

  lemma FailureCount(w: World, i: nat, s: HealthStatus)
    requires s != Up && i < |w.rows| == |w.bases|
    ensures Count(KindFor(s), EventsOf(w, i)) == if i in RowsWith(w.rows, s) then 1 else 0
  {
    CountAtMostOne(KindFor(s), EventsOf(w, i));
  }

  /**
   * In every schedule the failure events never outnumber the failed rows, and the numbers agree exactly when no
   * such row is still awaiting its dispatch; at quiescence they therefore agree.
   */
  lemma FailuresCounted(schedule: seq<Action>, s: HealthStatus)
    requires s != Up
    ensures Count(KindFor(s), After(schedule).sent) <= M.CountStatus(s, After(schedule).rows)
    ensures Count(KindFor(s), After(schedule).sent) == M.CountStatus(s, After(schedule).rows)
       <==> forall i :: Pending(After(schedule), i) ==> i !in RowsWith(After(schedule).rows, s)
    ensures After(schedule).running == map[] ==>
              Count(KindFor(s), After(schedule).sent) == M.CountStatus(s, After(schedule).rows)
  {
    var w := After(schedule);
    ScheduleKeeps(schedule);
    SentCount(w, w.order, s);
    StatusCount(w.rows, s);
    SentOrWaiting(w, RowsWith(w.rows, s));
  }

  lemma SentOrWaiting(w: World, all: set<nat>)
    requires OrderOk(w) && forall i :: i in all ==> i < |w.rows|
    ensures |Among(w.order, all)| <= |all|
    ensures |Among(w.order, all)| == |all| <==> forall i :: Pending(w, i) ==> i !in all
  {
    var sent, waiting := Among(w.order, all), all - Among(w.order, all);
    assert all == sent + waiting;
    forall i | i in all ensures i in waiting <==> Pending(w, i) {
      PendingIsUndispatched(w, i);
    }
    if waiting == {} {
      assert all == sent;
    } else {
      var i :| i in waiting;
      assert Pending(w, i) && i in all;
    }
  }

  lemma PendingIsUndispatched(w: World, i: nat)
    requires OrderOk(w) && i < |w.rows|
    ensures i !in w.order <==> Pending(w, i)
  {
  }

  // ---------- When nobody overtakes ----------

  lemma NewerThanAll(a: seq<HealthRow>, b: seq<HealthRow>, d: nat, top: HealthRow)
    requires Pairwise(M.DifferentIds, a + b) && M.Latest(a, d) == Some(top)
    requires Pairwise(M.DifferentIds, a)
    ensures M.Latest(a + b, d) == Some(top) <==> forall r :: r in b && r.deviceId == d ==> M.Newer(top, r)
  {
    M.LatestIsNewest(a, d, top);
    M.LatestIsNewest(a + b, d, top);
    NotInBoth(a, b, top);
    assert forall r :: r in a + b <==> r in a || r in b;
  }

  lemma NotInBoth(a: seq<HealthRow>, b: seq<HealthRow>, r: HealthRow)
    requires Pairwise(M.DifferentIds, a + b) && r in a
    ensures r !in b
  {
    var i :| 0 <= i < |a| && a[i] == r;
    forall j | 0 <= j < |b| ensures M.DifferentIds(r, b[j]) {
      assert (a + b)[i] == r && (a + b)[|a| + j] == b[j];
    }
  }

  /** Appended rows leave the latest row of a device alone exactly when it is newer than all of them of that device. */
  lemma LatestStays(a: seq<HealthRow>, b: seq<HealthRow>, d: nat)
    requires Pairwise(M.DifferentIds, a + b)
    ensures M.Latest(a + b, d) == M.Latest(a, d)
       <==> forall r :: r in b && r.deviceId == d ==> M.Latest(a, d).Some? && M.Newer(M.Latest(a, d).value, r)
  {
    assert (a + b)[..|a|] == a;
    PrefixDistinct(a + b, |a|);
    if M.Latest(a, d).Some? {
      NewerThanAll(a, b, d, M.Latest(a, d).value);
    } else {
      M.NoLatest(a, d);
      M.NoLatest(a + b, d);
      assert forall r :: r in a + b <==> r in a || r in b;
    }
  }

  /** The row read by the check of row `i` is newer than every row of the device committed while the check ran. */
  predicate Undisturbed(w: World, i: nat)
    requires i < |w.rows| == |w.bases|
  {
    forall j :: w.bases[i].commits <= j < i && w.rows[j].deviceId == w.rows[i].deviceId ==>
      w.bases[i].previous.Some? && M.Newer(w.bases[i].previous.value, w.rows[j])
  }

  lemma UndisturbedBasis(w: World, i: nat)
    requires RowsOk(w) && i < |w.rows|
    ensures w.bases[i].previous == M.Latest(w.rows[..i], w.rows[i].deviceId) <==> Undisturbed(w, i)
  {
    assert BasisOk(w, w.bases[i], w.rows[i].deviceId);
    LatestUntil(w.rows, w.bases[i].commits, i, w.rows[i].deviceId);
  }

  lemma LatestUntil(rows: seq<HealthRow>, n: nat, i: nat, d: nat)
    requires Pairwise(M.DifferentIds, rows) && n <= i <= |rows|
    ensures M.Latest(rows[..n], d) == M.Latest(rows[..i], d)
       <==> forall j :: n <= j < i && rows[j].deviceId == d ==>
              M.Latest(rows[..n], d).Some? && M.Newer(M.Latest(rows[..n], d).value, rows[j])
  {
    PrefixDistinct(rows, i);
    SplitRows(rows, n, i);
    LatestStays(rows[..n], rows[n..i], d);
  }

  lemma SplitRows(rows: seq<HealthRow>, n: nat, i: nat)
    requires n <= i <= |rows|
    ensures rows[..i] == rows[..n] + rows[n..i]
    ensures forall j :: n <= j < i ==> rows[j] in rows[n..i]
    ensures forall r :: r in rows[n..i] ==> exists j :: n <= j < i && rows[j] == r
  {
    forall j | n <= j < i ensures rows[j] in rows[n..i] {
      assert rows[n..i][j - n] == rows[j];
    }
  }

  /** A check has read the row that is latest before its own exactly when no newer one was committed meanwhile. */
  lemma UndisturbedCheck(schedule: seq<Action>, i: nat)
    requires i < |After(schedule).rows|
    ensures |After(schedule).bases| == |After(schedule).rows|
    ensures After(schedule).bases[i].previous == M.Latest(After(schedule).rows[..i], After(schedule).rows[i].deviceId)
       <==> Undisturbed(After(schedule), i)
  {
    ScheduleKeeps(schedule);
    UndisturbedBasis(After(schedule), i);
  }

  /** A row is reported as in a sequential run exactly when what was read and what precedes it are bad alike. */
  lemma SequentialEvent(schedule: seq<Action>, i: nat)
    requires i < |After(schedule).rows|
    ensures |After(schedule).bases| == |After(schedule).rows|
    ensures var w := After(schedule);
            var row := w.rows[i];
            var read, latest := M.StatusOf(w.bases[i].previous), M.StatusOf(M.Latest(w.rows[..i], row.deviceId));
            EventsOf(w, i) == M.EventsFor(latest, row) <==> row.status != Up || (M.WasBad(read) <==> M.WasBad(latest))
  {
    ScheduleKeeps(schedule);
  }

  // ---------- What does not survive: an example ----------

  const UP_FINDING := M.Finding(Up, None, M.NO_READINGS, None)
  const DOWN_FINDING := M.Finding(Down, None, M.NO_READINGS, None)
  const DOWN_ROW := M.NewRow(1, 1, DOWN_FINDING, 0)
  const FIRST_UP := M.NewRow(2, 1, UP_FINDING, 1)
  const SECOND_UP := M.NewRow(3, 1, UP_FINDING, 2)
  const NOTHING_READ := Basis(None, 0)
  const DOWN_READ := Basis(Some(DOWN_ROW), 1)
  const REPORTED := [Event(DeviceDown, 1, 1, "")]

  const ONE_OUTAGE := World([DOWN_ROW], REPORTED, map[], [NOTHING_READ], [0])

  lemma AfterPush(schedule: seq<Action>, a: Action)
    requires Enabled(After(schedule), a)
    ensures After(schedule + [a]) == Act(After(schedule), a)
  {
    assert (schedule + [a])[..|schedule|] == schedule;
  }

  lemma Outage()
    ensures After([Begin(0, 1), Commit(0, 1, DOWN_FINDING, 0), Dispatch(0)]) == ONE_OUTAGE
  {
    AfterPush([], Begin(0, 1));
    assert [] + [Begin(0, 1)] == [Begin(0, 1)];
    assert After([Begin(0, 1)]) == World([], [], map[0 := Began(1, NOTHING_READ)], [], []);
    AfterPush([Begin(0, 1)], Commit(0, 1, DOWN_FINDING, 0));
    assert [Begin(0, 1)] + [Commit(0, 1, DOWN_FINDING, 0)] == [Begin(0, 1), Commit(0, 1, DOWN_FINDING, 0)];
    assert After([Begin(0, 1), Commit(0, 1, DOWN_FINDING, 0)])
        == World([DOWN_ROW], [], map[0 := Committed(0)], [NOTHING_READ], []);
    AfterPush([Begin(0, 1), Commit(0, 1, DOWN_FINDING, 0)], Dispatch(0));
    assert [Begin(0, 1), Commit(0, 1, DOWN_FINDING, 0)] + [Dispatch(0)]
        == [Begin(0, 1), Commit(0, 1, DOWN_FINDING, 0), Dispatch(0)];
    assert M.EventsFor(None, DOWN_ROW) == REPORTED;
    assert map[0 := Committed(0)] - {0} == map[];
  }

  /** Both checks read the outage before either of them commits. */
  lemma BothRead()
    ensures Enabled(ONE_OUTAGE, Begin(1, 1)) && Enabled(Act(ONE_OUTAGE, Begin(1, 1)), Begin(2, 1))
    ensures Act(Act(ONE_OUTAGE, Begin(1, 1)), Begin(2, 1))
         == ONE_OUTAGE.(running := map[1 := Began(1, DOWN_READ), 2 := Began(1, DOWN_READ)])
  {
    M.LatestIsNewest([DOWN_ROW], 1, DOWN_ROW);
  }

  lemma BothCommit(w: World)
    requires w == ONE_OUTAGE.(running := map[1 := Began(1, DOWN_READ), 2 := Began(1, DOWN_READ)])
    ensures Enabled(w, Commit(1, 2, UP_FINDING, 1))
    ensures Enabled(Act(w, Commit(1, 2, UP_FINDING, 1)), Commit(2, 3, UP_FINDING, 2))
    ensures Act(Act(w, Commit(1, 2, UP_FINDING, 1)), Commit(2, 3, UP_FINDING, 2))
         == World([DOWN_ROW, FIRST_UP, SECOND_UP], REPORTED, map[1 := Committed(1), 2 := Committed(2)],
                  [NOTHING_READ, DOWN_READ, DOWN_READ], [0])
  {
  }

  lemma BothReport(w: World)
    requires w == World([DOWN_ROW, FIRST_UP, SECOND_UP], REPORTED, map[1 := Committed(1), 2 := Committed(2)],
                        [NOTHING_READ, DOWN_READ, DOWN_READ], [0])
    ensures Enabled(w, Dispatch(1)) && Enabled(Act(w, Dispatch(1)), Dispatch(2))
    ensures Act(Act(w, Dispatch(1)), Dispatch(2)).rows == w.rows
    ensures Act(Act(w, Dispatch(1)), Dispatch(2)).sent
         == REPORTED + [Event(DeviceRecovered, 1, 2, "")] + [Event(DeviceRecovered, 1, 3, "")]
  {
  }

  lemma CountsDiffer(rows: seq<HealthRow>, sent: seq<Event>)
    requires rows == [DOWN_ROW, FIRST_UP, SECOND_UP]
    requires sent == REPORTED + [Event(DeviceRecovered, 1, 2, "")] + [Event(DeviceRecovered, 1, 3, "")]
    ensures Count(DeviceRecovered, sent) == 2 && M.BadStretches(rows) == 1
  {
    assert REPORTED == [] + [Event(DeviceDown, 1, 1, "")];
    FilterPush(OfKind(DeviceRecovered), [], Event(DeviceDown, 1, 1, ""));
    FilterPush(OfKind(DeviceRecovered), REPORTED, Event(DeviceRecovered, 1, 2, ""));
    FilterPush(OfKind(DeviceRecovered), REPORTED + [Event(DeviceRecovered, 1, 2, "")],
               Event(DeviceRecovered, 1, 3, ""));
    OneStretch();
  }

  lemma OneStretch()
    ensures M.BadStretches([DOWN_ROW, FIRST_UP, SECOND_UP]) == 1
  {
    assert [DOWN_ROW][..0] == [] && M.BadStretches([DOWN_ROW]) == 1;
    assert [DOWN_ROW, FIRST_UP][..1] == [DOWN_ROW] && M.BadStretches([DOWN_ROW, FIRST_UP]) == 1;
    assert [DOWN_ROW, FIRST_UP, SECOND_UP][..2] == [DOWN_ROW, FIRST_UP];
  }

  lemma AfterTwo(schedule: seq<Action>, a: Action, b: Action)
    requires Enabled(After(schedule), a) && Enabled(Act(After(schedule), a), b)
    ensures After(schedule + [a] + [b]) == Act(Act(After(schedule), a), b)
  {
    AfterPush(schedule, a);
    AfterPush(schedule + [a], b);
  }

  /** With overlapping checks one outage can be reported as recovered twice, so recoveries no longer match stretches. */
  lemma OneOutageTwoRecoveries()
    ensures exists schedule ::
              Count(DeviceRecovered, After(schedule).sent) == 2 && M.BadStretches(After(schedule).rows) == 1
  {
    Outage();
    var s := [Begin(0, 1), Commit(0, 1, DOWN_FINDING, 0), Dispatch(0)];
    BothRead();
    AfterTwo(s, Begin(1, 1), Begin(2, 1));
    var read := s + [Begin(1, 1)] + [Begin(2, 1)];
    BothCommit(After(read));
    AfterTwo(read, Commit(1, 2, UP_FINDING, 1), Commit(2, 3, UP_FINDING, 2));
    var committed := read + [Commit(1, 2, UP_FINDING, 1)] + [Commit(2, 3, UP_FINDING, 2)];
    BothReport(After(committed));
    TwoReports(committed);
  }

  lemma TwoReports(s: seq<Action>)
    requires Enabled(After(s), Dispatch(1)) && Enabled(Act(After(s), Dispatch(1)), Dispatch(2))
    requires var w := Act(Act(After(s), Dispatch(1)), Dispatch(2));
             && w.rows == [DOWN_ROW, FIRST_UP, SECOND_UP]
             && w.sent == REPORTED + [Event(DeviceRecovered, 1, 2, "")] + [Event(DeviceRecovered, 1, 3, "")]
    ensures exists schedule ::
              Count(DeviceRecovered, After(schedule).sent) == 2 && M.BadStretches(After(schedule).rows) == 1
  {
    AfterTwo(s, Dispatch(1), Dispatch(2));
    var done := s + [Dispatch(1)] + [Dispatch(2)];
    CountsDiffer(After(done).rows, After(done).sent);
  }
}
