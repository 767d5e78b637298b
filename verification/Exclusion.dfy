/**
 * What overlapping checks send, in whatever order they dispatch: exactly when it is what the history of a device calls
 * for. It always is when no two checks of that device run between their read and their commit at the same time.
 */
module Exclusion {
  import opened Base
  import opened Sorting
  import opened Tables
  import opened Interleaving
  import M = Monitoring
  import T = Traces

  // ---------- No check begins inside another one of its device ----------

  /** Checker `c` has begun a check of device `d` and not committed it yet. */
  predicate Reading(w: World, c: nat, d: nat) {
    c in w.running && w.running[c].Began? && w.running[c].device == d
  }

  predicate Idle(w: World, d: nat) {
    forall c :: c in w.running ==> !Reading(w, c, d)
  }

  /** Whenever the schedule begins a check of `d`, no other check of `d` is between its read and its commit. */
  ghost predicate Exclusive(schedule: seq<Action>, d: nat) {
    forall k :: 0 <= k < |schedule| ==>
      schedule[k].Begin? && schedule[k].device == d && Enabled(After(schedule[..k]), schedule[k]) ==>
        Idle(After(schedule[..k]), d)
  }

  predicate NoneOf(rows: seq<HealthRow>, from: nat, to: nat, d: nat)
    requires to <= |rows|
  {
    forall j :: from <= j < to ==> rows[j].deviceId != d
  }

  ghost predicate Alone(w: World, d: nat)
    requires |w.rows| == |w.bases|
  {
    && (forall b, c :: Reading(w, b, d) && Reading(w, c, d) ==> b == c)
    && (forall c :: Reading(w, c, d) ==> NoneOf(w.rows, w.running[c].basis.commits, |w.rows|, d))
    && (forall i :: 0 <= i < |w.rows| && w.rows[i].deviceId == d ==> NoneOf(w.rows, w.bases[i].commits, i, d))
  }

  lemma BeginStaysAlone(w: World, a: Action, d: nat)
    requires |w.rows| == |w.bases| && Alone(w, d) && a.Begin? && Enabled(w, a) && (a.device == d ==> Idle(w, d))
    ensures Alone(Act(w, a), d)
  {
    var w' := Act(w, a);
    forall c | Reading(w', c, d) ensures NoneOf(w'.rows, w'.running[c].basis.commits, |w'.rows|, d) {
      assert c != a.checker ==> Reading(w, c, d);
    }
    forall b, c | Reading(w', b, d) && Reading(w', c, d) ensures b == c {
      assert b != a.checker ==> Reading(w, b, d);
      assert c != a.checker ==> Reading(w, c, d);
    }
  }

  lemma CommitStaysAlone(w: World, a: Action, d: nat)
    requires |w.rows| == |w.bases| && Alone(w, d) && a.Commit? && Enabled(w, a)
    ensures Alone(Act(w, a), d)
  {
    var w' := Act(w, a);
    assert forall c :: Reading(w', c, d) ==> Reading(w, c, d) && c != a.checker;
    assert w'.rows[|w.rows|].deviceId == w.running[a.checker].device;
    assert w.running[a.checker].device == d ==> Reading(w, a.checker, d);
    forall i | 0 <= i < |w'.rows| && w'.rows[i].deviceId == d ensures NoneOf(w'.rows, w'.bases[i].commits, i, d) {
      assert i < |w.rows| ==> NoneOf(w.rows, w.bases[i].commits, i, d);
    }
  }

  lemma DispatchStaysAlone(w: World, a: Action, d: nat)
    requires |w.rows| == |w.bases| && Alone(w, d) && a.Dispatch? && Enabled(w, a)
    ensures Alone(Act(w, a), d)
  {
    var w' := Act(w, a);
    assert forall c :: Reading(w', c, d) ==> Reading(w, c, d);
  }

  lemma ActStaysAlone(w: World, a: Action, d: nat)
    requires |w.rows| == |w.bases| && Alone(w, d) && Enabled(w, a) && (a.Begin? && a.device == d ==> Idle(w, d))
    ensures |Act(w, a).rows| == |Act(w, a).bases| && Alone(Act(w, a), d)
  {
    match a
    case Begin(_, _) => BeginStaysAlone(w, a, d);
    case Commit(_, _, _, _) => CommitStaysAlone(w, a, d);
    case Dispatch(_) => DispatchStaysAlone(w, a, d);
  }

  lemma ExclusiveBefore(schedule: seq<Action>, d: nat)
    requires schedule != [] && Exclusive(schedule, d)
    ensures Exclusive(schedule[..|schedule| - 1], d)
  {
    var before := schedule[..|schedule| - 1];
    assert forall k :: 0 <= k < |before| ==> before[k] == schedule[k] && before[..k] == schedule[..k];
  }

  lemma {:induction false} ExclusiveMeansAlone(schedule: seq<Action>, d: nat)
    requires Exclusive(schedule, d)
    ensures |After(schedule).rows| == |After(schedule).bases| && Alone(After(schedule), d)
  {
    if schedule != [] {
      var before, a := schedule[..|schedule| - 1], schedule[|schedule| - 1];
      ExclusiveBefore(schedule, d);
      ExclusiveMeansAlone(before, d);
      if Enabled(After(before), a) {
        ActStaysAlone(After(before), a, d);
      }
    }
  }

  // ---------- Every row is reported against the row just before it ----------

  ghost predicate InTimeOrder(w: World, d: nat) {
    Pairwise(M.Older, Filter(M.OfDevice(d), w.rows))
  }

  lemma OrderOfPrefix(rows: seq<HealthRow>, d: nat, n: nat)
    requires Pairwise(M.Older, Filter(M.OfDevice(d), rows)) && n <= |rows|
    ensures Pairwise(M.Older, Filter(M.OfDevice(d), rows[..n]))
  {
    SplitAt(rows, n);
    FilterAppend(M.OfDevice(d), rows[..n], rows[n..]);
    OrderOfFirst(Filter(M.OfDevice(d), rows[..n]), Filter(M.OfDevice(d), rows[n..]));
  }

  lemma SplitAt(rows: seq<HealthRow>, n: nat)
    requires n <= |rows|
    ensures rows == rows[..n] + rows[n..]
  {
  }

  lemma OrderOfFirst(a: seq<HealthRow>, b: seq<HealthRow>)
    requires Pairwise(M.Older, a + b)
    ensures Pairwise(M.Older, a)
  {
    forall i, j | 0 <= i < j < |a| ensures M.Older(a[i], a[j]) {
      assert (a + b)[i] == a[i] && (a + b)[j] == a[j];
    }
  }

  lemma AloneReadsLast(w: World, d: nat, i: nat)
    requires RowsOk(w) && Alone(w, d) && InTimeOrder(w, d) && i < |w.rows| && w.rows[i].deviceId == d
    ensures M.StatusOf(w.bases[i].previous) == M.LastStatus(Filter(M.OfDevice(d), w.rows[..i]))
  {
    UndisturbedBasis(w, i);
    PrefixDistinct(w.rows, i);
    OrderOfPrefix(w.rows, d, i);
    M.LatestIsLast(w.rows[..i], d);
  }

  /** Under exclusion each check of the device sends what it would have sent had the checks run one after the other. */
  lemma ExclusiveCheck(schedule: seq<Action>, d: nat, i: nat)
    requires Exclusive(schedule, d) && InTimeOrder(After(schedule), d)
    requires i < |After(schedule).rows| && After(schedule).rows[i].deviceId == d
    ensures |After(schedule).bases| == |After(schedule).rows|
    ensures EventsOf(After(schedule), i)
         == M.EventsFor(M.LastStatus(Filter(M.OfDevice(d), After(schedule).rows[..i])), After(schedule).rows[i])
  {
    ScheduleKeeps(schedule);
    ExclusiveMeansAlone(schedule, d);
    AloneReadsLast(After(schedule), d, i);
  }

  // ---------- The order of dispatch does not matter ----------

  /** The events of the first `n` rows, in commit order. */
  function InCommitOrder(w: World, n: nat): seq<Event>
    requires n <= |w.rows| == |w.bases|
  {
    if n == 0 then [] else InCommitOrder(w, n - 1) + EventsOf(w, n - 1)
  }

  lemma {:induction false} SentForAppend(w: World, a: seq<nat>, b: seq<nat>)
    requires |w.rows| == |w.bases| && InRange(a, |w.rows|) && InRange(b, |w.rows|)
    ensures InRange(a + b, |w.rows|) && SentFor(w, a + b) == SentFor(w, a) + SentFor(w, b)
  {
    if b == [] {
      assert a + b == a;
    } else {
      var t := b[..|b| - 1];
      SentForAppend(w, a, t);
      assert (a + b)[..|a + b| - 1] == a + t;
    }
  }

  lemma SentForMiddle(w: World, a: seq<nat>, k: nat, b: seq<nat>)
    requires |w.rows| == |w.bases| && InRange(a, |w.rows|) && k < |w.rows| && InRange(b, |w.rows|)
    ensures InRange(a + b, |w.rows|) && InRange(a + [k] + b, |w.rows|)
    ensures multiset(SentFor(w, a + [k] + b)) == multiset(SentFor(w, a + b)) + multiset(EventsOf(w, k))
  {
    SentForAppend(w, a, [k]);
    SentForAppend(w, a + [k], b);
    SentForAppend(w, a, b);
    assert [k][..0] == [] && SentFor(w, [k]) == EventsOf(w, k);
  }

  lemma SentWithout(w: World, order: seq<nat>, p: nat, rest: seq<nat>)
    requires |w.rows| == |w.bases| && InRange(order, |w.rows|) && p < |order|
    requires rest == order[..p] + order[p + 1..] && InRange(rest, |w.rows|)
    ensures multiset(SentFor(w, order)) == multiset(SentFor(w, rest)) + multiset(EventsOf(w, order[p]))
  {
    InRangeParts(order, |w.rows|, p);
    SentForMiddle(w, order[..p], order[p], order[p + 1..]);
    Around(order, p);
  }

  /** Every row below `n` is dispatched exactly once, and no other. */
  predicate Permutes(order: seq<nat>, n: nat) {
    DistinctNumbers(order) && InRange(order, n) && forall i: nat :: i < n ==> i in order
  }

  lemma PermutesLess(order: seq<nat>, n: nat, p: nat)
    requires Permutes(order, n + 1) && p < |order| && order[p] == n
    ensures Permutes(order[..p] + order[p + 1..], n)
  {
    var a, b := order[..p], order[p + 1..];
    var rest := a + b;
    assert forall i :: 0 <= i < |rest| ==> rest[i] == order[if i < p then i else i + 1];
    forall i: nat | i < n ensures i in rest {
      assert i in order;
      var k :| 0 <= k < |order| && order[k] == i;
      assert rest[if k < p then k else k - 1] == i;
    }
  }

  lemma OneMoreSent(w: World, last: nat, n: nat, sent: seq<Event>, others: seq<Event>)
    requires last < |w.rows| == |w.bases| && n == last + 1
    requires multiset(sent) == multiset(others) + multiset(EventsOf(w, last))
    requires multiset(others) == multiset(InCommitOrder(w, last))
    ensures multiset(sent) == multiset(InCommitOrder(w, n))
  {
  }

  lemma InRangeParts(order: seq<nat>, n: nat, p: nat)
    requires InRange(order, n) && p < |order|
    ensures InRange(order[..p], n) && InRange(order[p + 1..], n)
  {
  }

  lemma SomethingBelow(order: seq<nat>, n: nat)
    requires InRange(order, n) && order != []
    ensures n > 0
  {
    assert order[0] < n;
  }

  /** Where the last row was dispatched, and the order of the others. */
  lemma PlaceOf(order: seq<nat>, last: nat, bound: nat) returns (p: nat, rest: seq<nat>)
    requires Permutes(order, last + 1) && InRange(order, bound)
    ensures p < |order| && order[p] == last && rest == order[..p] + order[p + 1..]
    ensures Permutes(rest, last) && InRange(rest, bound)
  {
    assert last in order;
    p :| p < |order| && order[p] == last;
    rest := order[..p] + order[p + 1..];
    PermutesLess(order, last, p);
  }

  lemma PermutationPush(w: World, order: seq<nat>, last: nat, n: nat, p: nat, rest: seq<nat>)
    requires last < |w.rows| == |w.bases| && n == last + 1
    requires InRange(order, |w.rows|) && p < |order| && order[p] == last
    requires rest == order[..p] + order[p + 1..] && InRange(rest, |w.rows|)
    requires multiset(SentFor(w, rest)) == multiset(InCommitOrder(w, last))
    ensures multiset(SentFor(w, order)) == multiset(InCommitOrder(w, n))
  {
    SentWithout(w, order, p, rest);
    OneMoreSent(w, last, n, SentFor(w, order), SentFor(w, rest));
  }

  lemma NoneSent(w: World, order: seq<nat>)
    requires |w.rows| == |w.bases| && InRange(order, |w.rows|) && InRange(order, 0)
    ensures SentFor(w, order) == []
  {
    if order != [] {
      SomethingBelow(order, 0);
    }
  }

  lemma {:induction false} PermutationSends(w: World, order: seq<nat>, n: nat)
    requires n <= |w.rows| == |w.bases| && Permutes(order, n) && InRange(order, |w.rows|)
    ensures multiset(SentFor(w, order)) == multiset(InCommitOrder(w, n))
  {
    if n == 0 {
      NoneSent(w, order);
    } else {
      var last: nat := n - 1;
      var p, rest := PlaceOf(order, last, |w.rows|);
      PermutationSends(w, rest, last);
      PermutationPush(w, order, last, n, p, rest);
    }
  }

  lemma {:induction false} FilterCounts(p: Event -> bool, s: seq<Event>, e: Event)
    ensures multiset(Filter(p, s))[e] == if p(e) then multiset(s)[e] else 0
  {
    if s != [] {
      FilterCounts(p, s[..|s| - 1], e);
      assert s == s[..|s| - 1] + [s[|s| - 1]];
    }
  }

  lemma FilterKeepsMultiset(p: Event -> bool, s: seq<Event>, t: seq<Event>)
    requires multiset(s) == multiset(t)
    ensures multiset(Filter(p, s)) == multiset(Filter(p, t))
    ensures |Filter(p, s)| == |Filter(p, t)|
  {
    forall e ensures multiset(Filter(p, s))[e] == multiset(Filter(p, t))[e] {
      FilterCounts(p, s, e);
      FilterCounts(p, t, e);
    }
    assert |multiset(Filter(p, s))| == |Filter(p, s)| && |multiset(Filter(p, t))| == |Filter(p, t)|;
  }

  // ---------- When the trace of the history has been sent ----------

  /** The status of the device's row just before row `i`. */
  function StatusBefore(rows: seq<HealthRow>, d: nat, i: nat): Option<HealthStatus>
    requires i <= |rows|
  {
    M.LastStatus(Filter(M.OfDevice(d), rows[..i]))
  }

  /** What the check of row `i` read was bad exactly when the device's row just before row `i` is. */
  predicate ReadAlike(w: World, d: nat, i: nat)
    requires i < |w.rows| == |w.bases|
  {
    M.WasBad(M.StatusOf(w.bases[i].previous)) <==> M.WasBad(StatusBefore(w.rows, d, i))
  }

  /** The checks that found the device up were right about whether it had been bad before. */
  predicate ReadsAlike(w: World, d: nat) {
    && |w.rows| == |w.bases|
    && forall i :: 0 <= i < |w.rows| && w.rows[i].deviceId == d && w.rows[i].status == Up ==> ReadAlike(w, d, i)
  }

  lemma TraceUntil(rows: seq<HealthRow>, d: nat, last: nat, n: nat)
    requires n == last + 1 <= |rows|
    ensures M.TraceOf(Filter(M.OfDevice(d), rows[..n]))
         == M.TraceOf(Filter(M.OfDevice(d), rows[..last]))
          + (if rows[last].deviceId == d then M.EventsFor(StatusBefore(rows, d, last), rows[last]) else [])
  {
    TakePush(rows, last);
    FilterPush(M.OfDevice(d), rows[..last], rows[last]);
    M.TracePush(Filter(M.OfDevice(d), rows[..last]), rows[last]);
  }

  /** What a row adds to the events of `d`, when what was read and what precedes the row are bad alike. */
  lemma RowAdds(all: seq<Event>, sent: seq<Event>, read: Option<HealthStatus>, before: Option<HealthStatus>,
                row: HealthRow, d: nat)
    requires all == sent + M.EventsFor(read, row)
    requires row.deviceId == d && row.status == Up ==> (M.WasBad(read) <==> M.WasBad(before))
    ensures Filter(M.IsHealthEvent(d), all)
         == Filter(M.IsHealthEvent(d), sent) + (if row.deviceId == d then M.EventsFor(before, row) else [])
  {
    if row.deviceId == d {
      M.SameEvents(read, before, row);
      T.OwnEvents(sent, read, row);
    } else {
      T.EventsOfOther(sent, read, row, d);
    }
  }

  lemma CommitOrderPush(w: World, last: nat, n: nat)
    requires n == last + 1 <= |w.rows| == |w.bases|
    ensures InCommitOrder(w, n)
         == InCommitOrder(w, last) + M.EventsFor(M.StatusOf(w.bases[last].previous), w.rows[last])
  {
  }

  lemma SentUntil(w: World, d: nat, last: nat, n: nat)
    requires n == last + 1 <= |w.rows| == |w.bases|
    requires w.rows[last].deviceId == d && w.rows[last].status == Up ==> ReadAlike(w, d, last)
    ensures Filter(M.IsHealthEvent(d), InCommitOrder(w, n))
         == Filter(M.IsHealthEvent(d), InCommitOrder(w, last))
          + (if w.rows[last].deviceId == d then M.EventsFor(StatusBefore(w.rows, d, last), w.rows[last]) else [])
  {
    CommitOrderPush(w, last, n);
    RowAdds(InCommitOrder(w, n), InCommitOrder(w, last), M.StatusOf(w.bases[last].previous),
            StatusBefore(w.rows, d, last), w.rows[last], d);
  }

  lemma {:induction false} TraceInCommitOrder(w: World, d: nat, n: nat)
    requires n <= |w.rows| && ReadsAlike(w, d)
    ensures Filter(M.IsHealthEvent(d), InCommitOrder(w, n)) == M.TraceOf(Filter(M.OfDevice(d), w.rows[..n]))
  {
    if n > 0 {
      var last: nat := n - 1;
      TraceInCommitOrder(w, d, last);
      TraceUntil(w.rows, d, last, n);
      SentUntil(w, d, last, n);
    }
  }

  lemma OneRowPerId(rows: seq<HealthRow>, i: nat, k: nat)
    requires Pairwise(M.DifferentIds, rows) && i < |rows| && k < |rows| && rows[i].id == rows[k].id
    ensures i == k
  {
    assert i < k ==> M.DifferentIds(rows[i], rows[k]);
    assert k < i ==> M.DifferentIds(rows[k], rows[i]);
  }

  lemma EventNamesRow(previous: Option<HealthStatus>, row: HealthRow, e: Event)
    requires e in M.EventsFor(previous, row)
    ensures e.rowId == row.id
  {
  }

  lemma InEither(a: seq<Event>, b: seq<Event>, e: Event)
    ensures e in a + b <==> e in a || e in b
  {
  }

  /** What is sent for another row names another row. */
  lemma OtherRowsEvents(rows: seq<HealthRow>, i: nat, k: nat, previous: Option<HealthStatus>, e: Event)
    requires Pairwise(M.DifferentIds, rows) && i < |rows| && k < |rows| && i != k && e.rowId == rows[i].id
    ensures e !in M.EventsFor(previous, rows[k])
  {
    if e in M.EventsFor(previous, rows[k]) {
      EventNamesRow(previous, rows[k], e);
      OneRowPerId(rows, i, k);
    }
  }

  /** An event that names row `i` is sent by the check of row `i` or not at all. */
  lemma {:induction false} SentByItsRow(w: World, n: nat, i: nat, e: Event)
    requires Pairwise(M.DifferentIds, w.rows) && n <= |w.rows| == |w.bases| && i < |w.rows| && e.rowId == w.rows[i].id
    ensures e in InCommitOrder(w, n) <==> i < n && e in EventsOf(w, i)
  {
    if n > 0 {
      var last: nat := n - 1;
      SentByItsRow(w, last, i, e);
      if i != last {
        OtherRowsEvents(w.rows, i, last, M.StatusOf(w.bases[last].previous), e);
      }
      SentPush(w, last, n, e);
    }
  }

  lemma SentPush(w: World, last: nat, n: nat, e: Event)
    requires n == last + 1 <= |w.rows| == |w.bases|
    ensures e in InCommitOrder(w, n) <==> e in InCommitOrder(w, last) || e in EventsOf(w, last)
  {
    InEither(InCommitOrder(w, last), EventsOf(w, last), e);
  }

  /** The history calls for an event that names row `i` at row `i` or not at all. */
  lemma {:induction false} CalledForByItsRow(rows: seq<HealthRow>, d: nat, n: nat, i: nat, e: Event)
    requires Pairwise(M.DifferentIds, rows) && n <= |rows|
    requires i < |rows| && e.rowId == rows[i].id && rows[i].deviceId == d
    ensures e in M.TraceOf(Filter(M.OfDevice(d), rows[..n]))
       <==> i < n && e in M.EventsFor(StatusBefore(rows, d, i), rows[i])
  {
    if n > 0 {
      var last: nat := n - 1;
      CalledForByItsRow(rows, d, last, i, e);
      TraceUntil(rows, d, last, n);
      if i != last {
        OtherRowsEvents(rows, i, last, StatusBefore(rows, d, last), e);
      }
    }
  }

  lemma SameMembers(s: seq<Event>, t: seq<Event>, e: Event)
    requires multiset(s) == multiset(t)
    ensures e in s <==> e in t
  {
    assert e in s <==> e in multiset(s);
    assert e in t <==> e in multiset(t);
  }

  lemma RecoveryMeansBad(previous: Option<HealthStatus>, row: HealthRow)
    requires row.status == Up
    ensures Event(DeviceRecovered, row.deviceId, row.id, "") in M.EventsFor(previous, row) <==> M.WasBad(previous)
  {
  }

  lemma PassingMembers(sent: seq<Event>, trace: seq<Event>, d: nat, e: Event)
    requires M.IsHealthEvent(d)(e) && multiset(Filter(M.IsHealthEvent(d), sent)) == multiset(trace)
    ensures e in sent <==> e in trace
  {
    SameMembers(Filter(M.IsHealthEvent(d), sent), trace, e);
  }

  /** The recovery at row `i` tells which of the two statuses was bad. */
  lemma TraceShowsReads(w: World, n: nat, d: nat, i: nat)
    requires Pairwise(M.DifferentIds, w.rows) && n == |w.rows| == |w.bases|
    requires i < n && w.rows[i].deviceId == d && w.rows[i].status == Up
    requires multiset(Filter(M.IsHealthEvent(d), InCommitOrder(w, n)))
          == multiset(M.TraceOf(Filter(M.OfDevice(d), w.rows[..n])))
    ensures ReadAlike(w, d, i)
  {
    var e := Event(DeviceRecovered, d, w.rows[i].id, "");
    PassingMembers(InCommitOrder(w, n), M.TraceOf(Filter(M.OfDevice(d), w.rows[..n])), d, e);
    SentByItsRow(w, n, i, e);
    CalledForByItsRow(w.rows, d, n, i, e);
    RecoveryMeansBad(M.StatusOf(w.bases[i].previous), w.rows[i]);
    RecoveryMeansBad(StatusBefore(w.rows, d, i), w.rows[i]);
  }

  lemma QuietPermutes(w: World)
    requires OrderOk(w) && w.running == map[]
    ensures Permutes(w.order, |w.rows|)
  {
    forall i: nat | i < |w.rows| ensures i in w.order {
      assert !Pending(w, i);
    }
  }

  ghost predicate SentAsTraced(w: World, d: nat) {
    multiset(Filter(M.IsHealthEvent(d), w.sent)) == multiset(M.TraceOf(Filter(M.OfDevice(d), w.rows)))
  }

  lemma QuietWorldSends(w: World, d: nat)
    requires Ok(w) && w.running == map[]
    ensures multiset(Filter(M.IsHealthEvent(d), w.sent))
         == multiset(Filter(M.IsHealthEvent(d), InCommitOrder(w, |w.rows|)))
  {
    QuietPermutes(w);
    PermutationSends(w, w.order, |w.rows|);
    FilterKeepsMultiset(M.IsHealthEvent(d), w.sent, InCommitOrder(w, |w.rows|));
  }

  /**
   * In every schedule, once nothing runs any more, exactly the events the history of a device calls for have been
   * sent about it if and only if every check that found it up had read a bad status exactly when the row just before
   * its own is bad. No exclusion and no time order is needed.
   */
  lemma QuietScheduleSendsTrace(schedule: seq<Action>, d: nat)
    requires After(schedule).running == map[]
    ensures |After(schedule).bases| == |After(schedule).rows|
    ensures SentAsTraced(After(schedule), d)
       <==> ReadsAlike(After(schedule), d)
  {
    var w := After(schedule);
    ScheduleKeeps(schedule);
    QuietWorldSends(w, d);
    assert w.rows[..|w.rows|] == w.rows;
    if ReadsAlike(w, d) {
      TraceInCommitOrder(w, d, |w.rows|);
    }
    if SentAsTraced(w, d) {
      forall i | 0 <= i < |w.rows| && w.rows[i].deviceId == d && w.rows[i].status == Up ensures ReadAlike(w, d, i) {
        TraceShowsReads(w, |w.rows|, d, i);
      }
    }
  }

  lemma AloneReadsAlike(w: World, d: nat)
    requires RowsOk(w) && Alone(w, d) && InTimeOrder(w, d)
    ensures ReadsAlike(w, d)
  {
    forall i | 0 <= i < |w.rows| && w.rows[i].deviceId == d ensures ReadAlike(w, d, i) {
      AloneReadsLast(w, d, i);
    }
  }

  /**
   * So it is when no check of a device begins between another one's read and its commit, and its rows are committed
   * in time order, whatever else ran meanwhile and in whatever order the events were dispatched; every outage is then
   * reported as recovered once.
   */
  lemma ExclusiveChecksSendTrace(schedule: seq<Action>, d: nat)
    requires Exclusive(schedule, d) && InTimeOrder(After(schedule), d) && After(schedule).running == map[]
    ensures SentAsTraced(After(schedule), d)
    ensures var sent := Filter(M.IsHealthEvent(d), After(schedule).sent);
            var rows := Filter(M.OfDevice(d), After(schedule).rows);
            && Count(DeviceDown, sent) == M.CountStatus(Down, rows)
            && Count(HealthCheckFailed, sent) == M.CountStatus(Error, rows)
            && Count(DeviceRecovered, sent)
               == M.BadStretches(rows) - (if rows != [] && M.Bad(rows[|rows| - 1].status) then 1 else 0)
  {
    ScheduleKeeps(schedule);
    ExclusiveMeansAlone(schedule, d);
    AloneReadsAlike(After(schedule), d);
    QuietScheduleSendsTrace(schedule, d);
    CountsOfTrace(Filter(M.IsHealthEvent(d), After(schedule).sent), Filter(M.OfDevice(d), After(schedule).rows));
  }

  lemma CountsOfTrace(sent: seq<Event>, rows: seq<HealthRow>)
    requires multiset(sent) == multiset(M.TraceOf(rows))
    ensures Count(DeviceDown, sent) == M.CountStatus(Down, rows)
    ensures Count(HealthCheckFailed, sent) == M.CountStatus(Error, rows)
    ensures Count(DeviceRecovered, sent)
         == M.BadStretches(rows) - (if rows != [] && M.Bad(rows[|rows| - 1].status) then 1 else 0)
  {
    M.TraceCounts(rows);
    FilterKeepsMultiset(OfKind(DeviceDown), sent, M.TraceOf(rows));
    FilterKeepsMultiset(OfKind(HealthCheckFailed), sent, M.TraceOf(rows));
    FilterKeepsMultiset(OfKind(DeviceRecovered), sent, M.TraceOf(rows));
  }
}
