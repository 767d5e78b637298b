/**
 * The event trace of whole runs. For each device, and for each interface of it, exactly when what has been sent is
 * what its own stored history calls for, however the requests about the rest of the fleet are mixed in.
 */
module Traces {
  import opened Base
  import opened Sorting
  import opened Tables
  import M = Monitoring
  import I = Interfaces
  import opened System
  import Adapters

  // ---------- Conditions on the requests of a run ----------

  /** Every request of the run has the property in the state in which it is made. */
  ghost predicate Throughout(requests: seq<Request>, p: (State, Request) -> bool) {
    forall k :: 0 <= k < |requests| ==> p(Run(requests[..k]), requests[k])
  }

  lemma ThroughoutPush(requests: seq<Request>, before: seq<Request>, last: Request, p: (State, Request) -> bool)
    requires requests == before + [last]
    ensures Run(requests) == Step(Run(before), last)
    ensures Throughout(requests, p) <==> Throughout(before, p) && p(Run(before), last)
  {
    assert forall k :: 0 <= k < |before| ==> requests[k] == before[k] && requests[..k] == before[..k];
    assert requests[|before|] == last && requests[..|before|] == before;
    if Throughout(before, p) && p(Run(before), last) {
      forall k | 0 <= k < |requests| ensures p(Run(requests[..k]), requests[k]) {
        assert k < |before| ==> p(Run(before[..k]), before[k]);
      }
    }
    if Throughout(requests, p) {
      forall k | 0 <= k < |before| ensures p(Run(before[..k]), before[k]) {
        assert p(Run(requests[..k]), requests[k]);
      }
    }
  }

  lemma ThroughoutImplies(requests: seq<Request>, p: (State, Request) -> bool, q: (State, Request) -> bool)
    requires Throughout(requests, p) && forall s, r :: p(s, r) ==> q(s, r)
    ensures Throughout(requests, q)
  {
  }

  /** An id that is in use or has not been handed out yet; an id outside this set belonged to a deleted device. */
  predicate Live(s: State, d: nat) {
    HasDevice(s.devices, d) || d >= s.nextDevice
  }

  lemma LiveBefore(s: State, r: Request, d: nat)
    requires Consistent(s) && Live(Step(s, r), d)
    ensures Live(s, d)
    ensures r.Delete? && ReplyTo(s, r) == Done ==> d != r.id
  {
    if ReplyTo(s, r) == Done {
      match r
      case Update(id, c) =>
        if HasDevice(Step(s, r).devices, d) {
          var k :| 0 <= k < |s.devices| && Step(s, r).devices[k].id == d;
          assert s.devices[k] in s.devices;
        }
      case Delete(id) =>
        FindIsPresent(s.devices, id);
      case _ =>
    }
  }

  // ---------- Events name stored rows ----------

  ghost predicate NamesRows(events: seq<Event>, nextHealth: nat, nextInterface: nat) {
    forall e :: e in events ==>
      (M.HealthKind(e.kind) ==> e.rowId < nextHealth) && (I.InterfaceKind(e.kind) ==> e.rowId < nextInterface)
  }

  ghost predicate EventsNameRows(s: State) {
    NamesRows(s.events, s.nextHealth, s.nextInterface)
  }

  lemma {:induction false} DispatchNamesRows(rows: seq<InterfaceRow>, batch: seq<InterfaceRow>, next: nat)
    requires forall b :: b in batch ==> b.id < next
    ensures forall e :: e in I.Dispatch(rows, batch) ==> I.InterfaceKind(e.kind) && e.rowId < next
  {
    if batch != [] {
      DispatchNamesRows(rows, batch[..|batch| - 1], next);
    }
  }

  lemma NamesMore(events: seq<Event>, added: seq<Event>, health: nat, ifaces: nat, health': nat, ifaces': nat)
    requires NamesRows(events, health, ifaces) && health <= health' && ifaces <= ifaces'
    requires NamesRows(added, health', ifaces')
    ensures NamesRows(events + added, health', ifaces')
  {
  }

  lemma HealthNamesRows(s: State, row: HealthRow)
    requires EventsNameRows(s) && row.id == s.nextHealth
    ensures EventsNameRows(StoreHealth(s, row))
  {
    var added := M.EventsFor(M.StatusOf(M.Latest(s.health, row.deviceId)), row);
    NamesMore(s.events, added, s.nextHealth, s.nextInterface, s.nextHealth + 1, s.nextInterface);
  }

  lemma BatchNamesRows(s: State, d: nat, found: seq<ParsedIface>, now: int)
    requires EventsNameRows(s)
    ensures EventsNameRows(StoreInterfaces(s, d, found, now))
  {
    var batch := Batch(s.nextInterface, d, found, now);
    DispatchNamesRows(s.interfaces + batch, batch, s.nextInterface + |found|);
    NamesMore(s.events, I.Dispatch(s.interfaces + batch, batch), s.nextHealth, s.nextInterface,
              s.nextHealth, s.nextInterface + |found|);
  }

  lemma BackupNamesRows(s: State, row: BackupRow)
    requires EventsNameRows(s)
    ensures EventsNameRows(StoreBackup(s, row))
  {
  }

  lemma CheckNamesRows(s: State, r: Request)
    requires EventsNameRows(s) && r.CheckHealth? && ReplyTo(s, r) == Done
    ensures EventsNameRows(Step(s, r))
  {
    var d := FindDevice(s.devices, r.id).value;
    HealthAccepted(s, r.id, d, r.healthProbe, r.now);
    HealthNamesRows(s, M.NewRow(s.nextHealth, d.id, M.Diagnose(d.vendor, r.healthProbe), r.now));
  }

  lemma InterfacesNameRows(s: State, r: Request)
    requires EventsNameRows(s) && r.CheckInterfaces? && ReplyTo(s, r) == Done
    ensures EventsNameRows(Step(s, r))
  {
    var d := FindDevice(s.devices, r.id).value;
    InterfacesAccepted(s, r.id, d, r.interfaceProbe, r.now);
    if Discover(d.vendor, r.interfaceProbe).Interfaces? {
      BatchNamesRows(s, d.id, Discover(d.vendor, r.interfaceProbe).found, r.now);
    }
  }

  lemma AttemptNamesRows(s: State, r: Request)
    requires EventsNameRows(s) && r.Backup? && ReplyTo(s, r) == Done
    ensures EventsNameRows(Step(s, r))
  {
    var d := FindDevice(s.devices, r.id).value;
    BackupAccepted(s, r.id, d, r.backupProbe, r.now);
    BackupNamesRows(Written(s, d, r.backupProbe), NewBackup(s.nextBackup, d, r.backupProbe, r.now));
  }

  /** Inventory changes and refused requests send nothing and touch no counter of history rows. */
  lemma NothingSent(s: State, r: Request)
    requires r.Create? || r.Update? || r.Delete? || ReplyTo(s, r) != Done
    ensures Step(s, r).events == s.events
    ensures Step(s, r).nextHealth == s.nextHealth && Step(s, r).nextInterface == s.nextInterface
  {
  }

  lemma StepNamesRows(s: State, r: Request)
    requires EventsNameRows(s)
    ensures EventsNameRows(Step(s, r))
  {
    if r.Create? || r.Update? || r.Delete? || ReplyTo(s, r) != Done {
      NothingSent(s, r);
    } else if r.CheckHealth? {
      CheckNamesRows(s, r);
    } else if r.CheckInterfaces? {
      InterfacesNameRows(s, r);
    } else {
      AttemptNamesRows(s, r);
    }
  }

  lemma {:induction false} RunNamesRows(requests: seq<Request>)
    ensures EventsNameRows(Run(requests))
  {
    if requests != [] {
      RunNamesRows(requests[..|requests| - 1]);
      StepNamesRows(Run(requests[..|requests| - 1]), requests[|requests| - 1]);
    }
  }

  function NamesRow(id: nat): Event -> bool {
    (e: Event) => e.rowId == id
  }

  lemma PartOfRow(before: seq<Event>, own: seq<Event>, id: nat)
    requires forall e :: e in before ==> e.rowId != id
    requires forall e :: e in own ==> e.rowId == id
    ensures Filter(NamesRow(id), before + own) == own
  {
    FilterAppend(NamesRow(id), before, own);
    FilterNone(NamesRow(id), before);
    FilterAll(NamesRow(id), own);
  }

  /** Events that name one row, put behind events that do not, can be told apart from them. */
  lemma SplitByRow(a: seq<Event>, x: seq<Event>, b: seq<Event>, y: seq<Event>, id: nat)
    requires forall e :: e in a || e in b ==> e.rowId != id
    requires forall e :: e in x || e in y ==> e.rowId == id
    ensures a + x == b + y <==> a == b && x == y
  {
    PartOfRow(a, x, id);
    PartOfRow(b, y, id);
    assert (a + x)[..|a|] == a && (b + y)[..|b|] == b;
  }

  // ---------- Health ----------

  /** What was sent about device `d` is the trace its stored history calls for. */
  ghost predicate HealthTraced(events: seq<Event>, rows: seq<HealthRow>, d: nat) {
    Filter(M.IsHealthEvent(d), events) == M.TraceOf(Filter(M.OfDevice(d), rows))
  }

  lemma OwnEvents(events: seq<Event>, previous: Option<HealthStatus>, row: HealthRow)
    ensures Filter(M.IsHealthEvent(row.deviceId), events + M.EventsFor(previous, row))
         == Filter(M.IsHealthEvent(row.deviceId), events) + M.EventsFor(previous, row)
  {
    var p, added := M.IsHealthEvent(row.deviceId), M.EventsFor(previous, row);
    assert forall e :: e in added ==> p(e);
    AppendPassing(p, events, added);
  }

  lemma AppendPassing(p: Event -> bool, events: seq<Event>, added: seq<Event>)
    requires forall e :: e in added ==> p(e)
    ensures Filter(p, events + added) == Filter(p, events) + added
  {
    FilterAppend(p, events, added);
    FilterAll(p, added);
  }

  lemma EventsOfOther(events: seq<Event>, previous: Option<HealthStatus>, row: HealthRow, d: nat)
    requires row.deviceId != d
    ensures Filter(M.IsHealthEvent(d), events + M.EventsFor(previous, row)) == Filter(M.IsHealthEvent(d), events)
  {
    FilterSkip(M.IsHealthEvent(d), events, M.EventsFor(previous, row));
  }

  lemma BackupEventIsNotHealth(events: seq<Event>, row: BackupRow, d: nat)
    ensures Filter(M.IsHealthEvent(d), events + [BackupEvent(row)]) == Filter(M.IsHealthEvent(d), events)
  {
    FilterSkip(M.IsHealthEvent(d), events, [BackupEvent(row)]);
  }

  lemma DispatchIsNotHealth(events: seq<Event>, rows: seq<InterfaceRow>, batch: seq<InterfaceRow>, device: nat, d: nat)
    requires forall r :: r in batch ==> r.deviceId == device
    ensures Filter(M.IsHealthEvent(d), events + I.Dispatch(rows, batch)) == Filter(M.IsHealthEvent(d), events)
  {
    DispatchDevice(rows, batch, device);
    FilterSkip(M.IsHealthEvent(d), events, I.Dispatch(rows, batch));
  }

  lemma StoreIsNotHealth(s: State, device: nat, found: seq<ParsedIface>, now: int, d: nat)
    ensures Filter(M.IsHealthEvent(d), StoreInterfaces(s, device, found, now).events)
         == Filter(M.IsHealthEvent(d), s.events)
  {
    var batch := Batch(s.nextInterface, device, found, now);
    DispatchIsNotHealth(s.events, s.interfaces + batch, batch, device, d);
  }

  lemma HealthKeptByCheck(s: State, row: HealthRow, d: nat)
    requires row.deviceId != d
    ensures Filter(M.IsHealthEvent(d), StoreHealth(s, row).events) == Filter(M.IsHealthEvent(d), s.events)
    ensures Filter(M.OfDevice(d), StoreHealth(s, row).health) == Filter(M.OfDevice(d), s.health)
  {
    FilterPush(M.OfDevice(d), s.health, row);
    EventsOfOther(s.events, M.StatusOf(M.Latest(s.health, row.deviceId)), row, d);
  }

  lemma HealthKeptByDelete(s: State, id: nat, d: nat)
    requires d != id
    ensures Filter(M.OfDevice(d), DeleteStep(s, id).health) == Filter(M.OfDevice(d), s.health)
  {
    FilterImplied(M.OfDevice(d), OtherHealth(id), s.health);
  }

  lemma HealthKeptByBackup(s: State, device: Device, probe: BackupProbe, now: int, d: nat)
    ensures BackupStep(s, device, probe, now).health == s.health
    ensures Filter(M.IsHealthEvent(d), BackupStep(s, device, probe, now).events) == Filter(M.IsHealthEvent(d), s.events)
  {
    BackupEventIsNotHealth(s.events, NewBackup(s.nextBackup, device, probe, now), d);
  }

  predicate IsHealthCheck(r: Request, d: nat) {
    r.CheckHealth? && r.id == d
  }

  /** The health history and the health events of `d` are the same in both states. */
  ghost predicate SameHealth(s: State, s': State, d: nat) {
    && Filter(M.IsHealthEvent(d), s'.events) == Filter(M.IsHealthEvent(d), s.events)
    && Filter(M.OfDevice(d), s'.health) == Filter(M.OfDevice(d), s.health)
  }

  lemma SameAfterCheck(s: State, r: Request, d: nat)
    requires r.CheckHealth? && r.id != d && ReplyTo(s, r) == Done
    ensures SameHealth(s, Step(s, r), d)
  {
    FindIsPresent(s.devices, r.id);
    var device := FindDevice(s.devices, r.id).value;
    HealthAccepted(s, r.id, device, r.healthProbe, r.now);
    HealthKeptByCheck(s, M.NewRow(s.nextHealth, r.id, M.Diagnose(device.vendor, r.healthProbe), r.now), d);
  }

  lemma SameAfterInterfaces(s: State, r: Request, d: nat)
    requires r.CheckInterfaces? && ReplyTo(s, r) == Done
    ensures SameHealth(s, Step(s, r), d)
  {
    var device := FindDevice(s.devices, r.id).value;
    InterfacesAccepted(s, r.id, device, r.interfaceProbe, r.now);
    if Discover(device.vendor, r.interfaceProbe).Interfaces? {
      StoreIsNotHealth(s, device.id, Discover(device.vendor, r.interfaceProbe).found, r.now, d);
    }
  }

  lemma SameAfterBackup(s: State, r: Request, d: nat)
    requires r.Backup? && ReplyTo(s, r) == Done
    ensures SameHealth(s, Step(s, r), d)
  {
    var device := FindDevice(s.devices, r.id).value;
    BackupAccepted(s, r.id, device, r.backupProbe, r.now);
    HealthKeptByBackup(s, device, r.backupProbe, r.now, d);
  }

  lemma SameAfterDelete(s: State, r: Request, d: nat)
    requires r.Delete? && r.id != d && ReplyTo(s, r) == Done
    ensures SameHealth(s, Step(s, r), d)
  {
    HealthKeptByDelete(s, r.id, d);
  }

  lemma SameAfterOthers(s: State, r: Request, d: nat)
    requires r.Create? || r.Update? || ReplyTo(s, r) != Done
    ensures SameHealth(s, Step(s, r), d)
  {
  }

  /** No other request touches the history of a device or sends a health event about it. */
  lemma HealthKept(s: State, r: Request, d: nat)
    requires Consistent(s) && Live(Step(s, r), d) && !IsHealthCheck(r, d)
    ensures SameHealth(s, Step(s, r), d)
  {
    LiveBefore(s, r, d);
    if r.Create? || r.Update? || ReplyTo(s, r) != Done {
      SameAfterOthers(s, r, d);
    } else if r.Delete? {
      SameAfterDelete(s, r, d);
    } else if r.CheckHealth? {
      SameAfterCheck(s, r, d);
    } else if r.CheckInterfaces? {
      SameAfterInterfaces(s, r, d);
    } else {
      SameAfterBackup(s, r, d);
    }
  }

  /** A check that finds `d` up has read a bad status exactly when the last row stored for `d` is bad. */
  ghost function ReadsRight(d: nat): (State, Request) -> bool {
    (s: State, r: Request) =>
      IsHealthCheck(r, d) && FindDevice(s.devices, d).Some?
      && M.Diagnose(FindDevice(s.devices, d).value.vendor, r.healthProbe).status == Up ==>
        (M.WasBad(M.StatusOf(M.Latest(s.health, d))) <==> M.WasBad(M.LastStatus(Filter(M.OfDevice(d), s.health))))
  }

  lemma {:induction false} TraceNamesRows(rows: seq<HealthRow>, next: nat)
    requires forall r :: r in rows ==> r.id < next
    ensures forall e :: e in M.TraceOf(rows) ==> e.rowId < next
  {
    if rows != [] {
      TraceNamesRows(rows[..|rows| - 1], next);
    }
  }

  lemma TracesSplit(sent: seq<Event>, read: Option<HealthStatus>, own: seq<HealthRow>, row: HealthRow)
    requires forall e :: e in sent ==> e.rowId < row.id
    requires forall r :: r in own ==> r.id < row.id
    ensures sent + M.EventsFor(read, row) == M.TraceOf(own) + M.EventsFor(M.LastStatus(own), row)
       <==> sent == M.TraceOf(own) && M.EventsFor(read, row) == M.EventsFor(M.LastStatus(own), row)
  {
    TraceNamesRows(own, row.id);
    SplitByRow(sent, M.EventsFor(read, row), M.TraceOf(own), M.EventsFor(M.LastStatus(own), row), row.id);
  }

  lemma OwnRowPushed(events: seq<Event>, rows: seq<HealthRow>, row: HealthRow, d: nat, read: Option<HealthStatus>)
    requires row.deviceId == d
    ensures HealthTraced(events + M.EventsFor(read, row), rows + [row], d)
       <==> var own := Filter(M.OfDevice(d), rows);
            Filter(M.IsHealthEvent(d), events) + M.EventsFor(read, row)
              == M.TraceOf(own) + M.EventsFor(M.LastStatus(own), row)
  {
    FilterPush(M.OfDevice(d), rows, row);
    M.TracePush(Filter(M.OfDevice(d), rows), row);
    OwnEvents(events, read, row);
  }

  /** A new row keeps the trace exactly when it is reported as the history calls for. */
  lemma OwnRowTraced(events: seq<Event>, rows: seq<HealthRow>, row: HealthRow, d: nat, read: Option<HealthStatus>)
    requires row.deviceId == d
    requires forall e :: e in events && M.HealthKind(e.kind) ==> e.rowId < row.id
    requires forall r :: r in rows ==> r.id < row.id
    ensures HealthTraced(events + M.EventsFor(read, row), rows + [row], d)
       <==> HealthTraced(events, rows, d)
            && M.EventsFor(read, row) == M.EventsFor(M.LastStatus(Filter(M.OfDevice(d), rows)), row)
  {
    OwnRowPushed(events, rows, row, d, read);
    TracesSplit(Filter(M.IsHealthEvent(d), events), read, Filter(M.OfDevice(d), rows), row);
  }

  lemma OwnCheckTraced(s: State, r: Request, d: nat)
    requires Consistent(s) && EventsNameRows(s) && IsHealthCheck(r, d) && ReplyTo(s, r) == Done
    ensures HealthTraced(Step(s, r).events, Step(s, r).health, d)
       <==> HealthTraced(s.events, s.health, d) && ReadsRight(d)(s, r)
  {
    FindIsPresent(s.devices, d);
    var device := FindDevice(s.devices, d).value;
    HealthAccepted(s, d, device, r.healthProbe, r.now);
    var row := M.NewRow(s.nextHealth, d, M.Diagnose(device.vendor, r.healthProbe), r.now);
    var read := M.StatusOf(M.Latest(s.health, d));
    OwnRowTraced(s.events, s.health, row, d, read);
    M.SameEvents(read, M.LastStatus(Filter(M.OfDevice(d), s.health)), row);
  }

  lemma StepTraced(s: State, r: Request, d: nat)
    requires Consistent(s) && EventsNameRows(s) && Live(Step(s, r), d)
    ensures HealthTraced(Step(s, r).events, Step(s, r).health, d)
       <==> HealthTraced(s.events, s.health, d) && ReadsRight(d)(s, r)
  {
    if !IsHealthCheck(r, d) {
      HealthKept(s, r, d);
    } else if ReplyTo(s, r) == Done {
      OwnCheckTraced(s, r, d);
    }
  }

  lemma LastStepTraced(requests: seq<Request>, before: seq<Request>, last: Request, d: nat)
    requires requests == before + [last] && Live(Run(requests), d)
    ensures Live(Run(before), d)
    ensures HealthTraced(Run(requests).events, Run(requests).health, d)
       <==> HealthTraced(Run(before).events, Run(before).health, d) && ReadsRight(d)(Run(before), last)
  {
    assert requests[..|requests| - 1] == before;
    RunIsConsistent(before);
    RunNamesRows(before);
    LiveBefore(Run(before), last, d);
    StepTraced(Run(before), last, d);
  }

  lemma {:induction false} LiveTraceExact(requests: seq<Request>, d: nat)
    requires Live(Run(requests), d)
    ensures HealthTraced(Run(requests).events, Run(requests).health, d) <==> Throughout(requests, ReadsRight(d))
  {
    if requests != [] {
      var before, last := requests[..|requests| - 1], requests[|requests| - 1];
      SplitLast(requests);
      LastStepTraced(requests, before, last, d);
      LiveTraceExact(before, d);
      ThroughoutPush(requests, before, last, ReadsRight(d));
    }
  }

  /**
   * Over every run, however checks, backups and inventory changes are mixed and whatever the clock does, the health
   * events sent about an existing device are the ones its own row history calls for if and only if each of its checks
   * that found it up had read a bad status exactly when the last row stored before was bad.
   */
  lemma HealthTraceExact(requests: seq<Request>, d: nat)
    requires HasDevice(Run(requests).devices, d)
    ensures HealthTraced(Run(requests).events, Run(requests).health, d) <==> Throughout(requests, ReadsRight(d))
  {
    assert Live(Run(requests), d);
    LiveTraceExact(requests, d);
  }

  // ---------- Health checks in the order of the clock ----------

  /** A health check of `d` is stamped no earlier than the rows `d` already has; ties are allowed. */
  ghost function HealthClock(d: nat): (State, Request) -> bool {
    (s: State, r: Request) =>
      IsHealthCheck(r, d) ==> forall row :: row in s.health && row.deviceId == d ==> row.checkedAt <= r.now
  }

  ghost predicate HealthInOrder(rows: seq<HealthRow>, d: nat) {
    Pairwise(M.Older, Filter(M.OfDevice(d), rows))
  }

  lemma OrderKept(rows: seq<HealthRow>, row: HealthRow, next: nat)
    requires HealthInOrder(rows, row.deviceId) && row.id == next && forall r :: r in rows ==> r.id < next
    requires forall o :: o in rows && o.deviceId == row.deviceId ==> o.checkedAt <= row.checkedAt
    ensures HealthInOrder(rows + [row], row.deviceId)
  {
    FilterPush(M.OfDevice(row.deviceId), rows, row);
    PairwisePush(M.Older, Filter(M.OfDevice(row.deviceId), rows), row);
  }

  lemma StepInOrder(s: State, r: Request, d: nat)
    requires Consistent(s) && HealthInOrder(s.health, d) && HealthClock(d)(s, r) && Live(Step(s, r), d)
    ensures HealthInOrder(Step(s, r).health, d)
  {
    if !IsHealthCheck(r, d) {
      HealthKept(s, r, d);
    } else if ReplyTo(s, r) == Done {
      FindIsPresent(s.devices, d);
      var device := FindDevice(s.devices, d).value;
      HealthAccepted(s, d, device, r.healthProbe, r.now);
      OrderKept(s.health, M.NewRow(s.nextHealth, d, M.Diagnose(device.vendor, r.healthProbe), r.now), s.nextHealth);
    }
  }

  lemma OrderReadsRight(s: State, r: Request, d: nat)
    requires Consistent(s) && HealthInOrder(s.health, d)
    ensures ReadsRight(d)(s, r)
  {
    M.LatestIsLast(s.health, d);
  }

  lemma {:induction false} ClockReadsRight(requests: seq<Request>, d: nat)
    requires Throughout(requests, HealthClock(d)) && Live(Run(requests), d)
    ensures Throughout(requests, ReadsRight(d)) && HealthInOrder(Run(requests).health, d)
  {
    if requests != [] {
      var before, last := requests[..|requests| - 1], requests[|requests| - 1];
      SplitLast(requests);
      ThroughoutPush(requests, before, last, HealthClock(d));
      ThroughoutPush(requests, before, last, ReadsRight(d));
      RunIsConsistent(before);
      LiveBefore(Run(before), last, d);
      ClockReadsRight(before, d);
      OrderReadsRight(Run(before), last, d);
      StepInOrder(Run(before), last, d);
    }
  }

  /** So it is in every run in which the clock does not go back between two checks of that device. */
  lemma HealthTraceOfRun(requests: seq<Request>, d: nat)
    requires Throughout(requests, HealthClock(d)) && HasDevice(Run(requests).devices, d)
    ensures HealthTraced(Run(requests).events, Run(requests).health, d)
  {
    assert Live(Run(requests), d);
    ClockReadsRight(requests, d);
    HealthTraceExact(requests, d);
  }

  /**
   * Counts over whole runs: one failure event per failed row, and one recovery per bad stretch of the history
   * except a stretch that is still open.
   */
  lemma HealthCountsOfRun(requests: seq<Request>, d: nat)
    requires Throughout(requests, HealthClock(d)) && HasDevice(Run(requests).devices, d)
    ensures var sent := Filter(M.IsHealthEvent(d), Run(requests).events);
            var rows := Filter(M.OfDevice(d), Run(requests).health);
            && Count(DeviceDown, sent) == M.CountStatus(Down, rows)
            && Count(HealthCheckFailed, sent) == M.CountStatus(Error, rows)
            && Count(DeviceRecovered, sent)
               == M.BadStretches(rows) - (if M.WasBad(M.LastStatus(rows)) then 1 else 0)
  {
    HealthTraceOfRun(requests, d);
    M.TraceCounts(Filter(M.OfDevice(d), Run(requests).health));
  }

  /** In any such run, the event sent about a device just before one of its recoveries reports a failure. */
  lemma FailureBeforeRecoveryInRun(requests: seq<Request>, d: nat, j: nat)
    requires Throughout(requests, HealthClock(d)) && HasDevice(Run(requests).devices, d)
    requires j < |Filter(M.IsHealthEvent(d), Run(requests).events)|
    requires Filter(M.IsHealthEvent(d), Run(requests).events)[j].kind == DeviceRecovered
    ensures j > 0 && Filter(M.IsHealthEvent(d), Run(requests).events)[j - 1].kind in {DeviceDown, HealthCheckFailed}
  {
    HealthTraceOfRun(requests, d);
    M.FailureBeforeEachRecovery(Filter(M.OfDevice(d), Run(requests).health), j);
  }

  // ---------- Interfaces ----------

  /** What was sent about interface `n` of device `d` is the trace its stored history calls for. */
  ghost predicate InterfaceTraced(events: seq<Event>, rows: seq<InterfaceRow>, d: nat, n: string) {
    Filter(I.IsInterfaceEvent(d, n), events) == I.TraceOf(Filter(I.OfInterface(d, n), rows))
  }

  lemma EventsOfRow(d: nat, n: string, previous: Option<string>, row: InterfaceRow, events: seq<Event>)
    requires row.deviceId == d
    ensures Filter(I.IsInterfaceEvent(d, n), events + I.EventsFor(previous, row))
         == if I.Name(row) == n then Filter(I.IsInterfaceEvent(d, n), events) + I.EventsFor(previous, row)
            else Filter(I.IsInterfaceEvent(d, n), events)
  {
    var q, added := I.IsInterfaceEvent(d, n), I.EventsFor(previous, row);
    if I.Name(row) == n {
      assert forall e :: e in added ==> q(e);
      AppendPassing(q, events, added);
    } else {
      assert forall e :: e in added ==> !q(e);
      FilterSkip(q, events, added);
    }
  }

  lemma BackupEventsAreNotInterface(events: seq<Event>, row: BackupRow, d: nat, n: string)
    ensures Filter(I.IsInterfaceEvent(d, n), events + [BackupEvent(row)]) == Filter(I.IsInterfaceEvent(d, n), events)
  {
    FilterSkip(I.IsInterfaceEvent(d, n), events, [BackupEvent(row)]);
  }

  lemma HealthEventsAreNotInterface(s: State, row: HealthRow, d: nat, n: string)
    ensures Filter(I.IsInterfaceEvent(d, n), StoreHealth(s, row).events) == Filter(I.IsInterfaceEvent(d, n), s.events)
  {
    FilterSkip(I.IsInterfaceEvent(d, n), s.events, M.EventsFor(M.StatusOf(M.Latest(s.health, row.deviceId)), row));
  }

  lemma InterfaceKeptByBatch(s: State, device: nat, found: seq<ParsedIface>, now: int, d: nat, n: string)
    requires device != d
    ensures var s' := StoreInterfaces(s, device, found, now);
            && Filter(I.IsInterfaceEvent(d, n), s'.events) == Filter(I.IsInterfaceEvent(d, n), s.events)
            && Filter(I.OfInterface(d, n), s'.interfaces) == Filter(I.OfInterface(d, n), s.interfaces)
  {
    var batch := Batch(s.nextInterface, device, found, now);
    FilterSkip(I.OfInterface(d, n), s.interfaces, batch);
    DispatchDevice(s.interfaces + batch, batch, device);
    FilterSkip(I.IsInterfaceEvent(d, n), s.events, I.Dispatch(s.interfaces + batch, batch));
  }

  lemma InterfaceKeptByDelete(s: State, id: nat, d: nat, n: string)
    requires d != id
    ensures Filter(I.OfInterface(d, n), DeleteStep(s, id).interfaces) == Filter(I.OfInterface(d, n), s.interfaces)
  {
    FilterImplied(I.OfInterface(d, n), OtherInterface(id), s.interfaces);
  }

  lemma InterfaceKeptByBackup(s: State, device: Device, probe: BackupProbe, now: int, d: nat, n: string)
    ensures BackupStep(s, device, probe, now).interfaces == s.interfaces
    ensures Filter(I.IsInterfaceEvent(d, n), BackupStep(s, device, probe, now).events)
         == Filter(I.IsInterfaceEvent(d, n), s.events)
  {
    BackupEventsAreNotInterface(s.events, NewBackup(s.nextBackup, device, probe, now), d, n);
  }

  predicate IsInterfaceCheck(r: Request, d: nat) {
    r.CheckInterfaces? && r.id == d
  }

  /** The history and the events of interface `n` of `d` are the same in both states. */
  ghost predicate SameInterface(s: State, s': State, d: nat, n: string) {
    && Filter(I.IsInterfaceEvent(d, n), s'.events) == Filter(I.IsInterfaceEvent(d, n), s.events)
    && Filter(I.OfInterface(d, n), s'.interfaces) == Filter(I.OfInterface(d, n), s.interfaces)
  }

  lemma InterfaceAfterCheck(s: State, r: Request, d: nat, n: string)
    requires r.CheckHealth? && ReplyTo(s, r) == Done
    ensures SameInterface(s, Step(s, r), d, n)
  {
    var device := FindDevice(s.devices, r.id).value;
    HealthAccepted(s, r.id, device, r.healthProbe, r.now);
    var row := M.NewRow(s.nextHealth, device.id, M.Diagnose(device.vendor, r.healthProbe), r.now);
    HealthEventsAreNotInterface(s, row, d, n);
  }

  lemma InterfaceAfterInterfaces(s: State, r: Request, d: nat, n: string)
    requires r.CheckInterfaces? && r.id != d && ReplyTo(s, r) == Done
    ensures SameInterface(s, Step(s, r), d, n)
  {
    FindIsPresent(s.devices, r.id);
    var device := FindDevice(s.devices, r.id).value;
    InterfacesAccepted(s, r.id, device, r.interfaceProbe, r.now);
    if Discover(device.vendor, r.interfaceProbe).Interfaces? {
      InterfaceKeptByBatch(s, r.id, Discover(device.vendor, r.interfaceProbe).found, r.now, d, n);
    }
  }

  lemma InterfaceAfterBackup(s: State, r: Request, d: nat, n: string)
    requires r.Backup? && ReplyTo(s, r) == Done
    ensures SameInterface(s, Step(s, r), d, n)
  {
    var device := FindDevice(s.devices, r.id).value;
    BackupAccepted(s, r.id, device, r.backupProbe, r.now);
    InterfaceKeptByBackup(s, device, r.backupProbe, r.now, d, n);
  }

  lemma InterfaceAfterDelete(s: State, r: Request, d: nat, n: string)
    requires r.Delete? && r.id != d && ReplyTo(s, r) == Done
    ensures SameInterface(s, Step(s, r), d, n)
  {
    InterfaceKeptByDelete(s, r.id, d, n);
  }

  lemma InterfaceAfterOthers(s: State, r: Request, d: nat, n: string)
    requires r.Create? || r.Update? || ReplyTo(s, r) != Done
    ensures SameInterface(s, Step(s, r), d, n)
  {
  }

  /** No other request touches the interface history of a device or sends an interface event about it. */
  lemma InterfaceKept(s: State, r: Request, d: nat, n: string)
    requires Consistent(s) && Live(Step(s, r), d) && !IsInterfaceCheck(r, d)
    ensures SameInterface(s, Step(s, r), d, n)
  {
    LiveBefore(s, r, d);
    if r.Create? || r.Update? || ReplyTo(s, r) != Done {
      InterfaceAfterOthers(s, r, d, n);
    } else if r.Delete? {
      InterfaceAfterDelete(s, r, d, n);
    } else if r.CheckHealth? {
      InterfaceAfterCheck(s, r, d, n);
    } else if r.CheckInterfaces? {
      InterfaceAfterInterfaces(s, r, d, n);
    } else {
      InterfaceAfterBackup(s, r, d, n);
    }
  }

  // ---------- One batch ----------

  /** The status of the interface of row `j` of a batch just before that row. */
  function OperBefore(rows: seq<InterfaceRow>, batch: seq<InterfaceRow>, j: nat): Option<string>
    requires j < |batch|
  {
    I.LastOper(Filter(I.OfInterface(batch[j].deviceId, I.Name(batch[j])), rows + batch[..j]))
  }

  /** If row `j` is up, the row the lookup finds for it is down exactly when the row of its interface before it is. */
  predicate MetRight(rows: seq<InterfaceRow>, batch: seq<InterfaceRow>, j: nat)
    requires j < |batch|
  {
    I.IsUp(batch[j].iface.operStatus) ==>
      (I.WasDown(I.OperOf(I.Previous(rows + batch, batch[j]))) <==> I.WasDown(OperBefore(rows, batch, j)))
  }

  ghost predicate AllMetRight(rows: seq<InterfaceRow>, batch: seq<InterfaceRow>, m: nat, n: string)
    requires m <= |batch|
  {
    forall j :: 0 <= j < m && I.Name(batch[j]) == n ==> MetRight(rows, batch, j)
  }

  lemma {:induction false} InterfaceTraceNamesRows(rows: seq<InterfaceRow>, id: nat)
    requires forall r :: r in rows ==> r.id != id
    ensures forall e :: e in I.TraceOf(rows) ==> e.rowId != id
  {
    if rows != [] {
      InterfaceTraceNamesRows(rows[..|rows| - 1], id);
    }
  }

  lemma {:induction false} DispatchNamesOthers(rows: seq<InterfaceRow>, batch: seq<InterfaceRow>, id: nat)
    requires forall b :: b in batch ==> b.id != id
    ensures forall e :: e in I.Dispatch(rows, batch) ==> e.rowId != id
  {
    if batch != [] {
      DispatchNamesOthers(rows, batch[..|batch| - 1], id);
    }
  }

  lemma InterfaceTracesSplit(sent: seq<Event>, met: Option<string>, own: seq<InterfaceRow>, row: InterfaceRow)
    requires forall e :: e in sent ==> e.rowId != row.id
    requires forall r :: r in own ==> r.id != row.id
    ensures sent + I.EventsFor(met, row) == I.TraceOf(own) + I.EventsFor(I.LastOper(own), row)
       <==> sent == I.TraceOf(own) && I.EventsFor(met, row) == I.EventsFor(I.LastOper(own), row)
  {
    InterfaceTraceNamesRows(own, row.id);
    SplitByRow(sent, I.EventsFor(met, row), I.TraceOf(own), I.EventsFor(I.LastOper(own), row), row.id);
  }

  lemma InterfaceRowPushed(
    events: seq<Event>, rows: seq<InterfaceRow>, row: InterfaceRow, d: nat, n: string, met: Option<string>)
    requires row.deviceId == d && I.Name(row) == n
    ensures InterfaceTraced(events + I.EventsFor(met, row), rows + [row], d, n)
       <==> var own := Filter(I.OfInterface(d, n), rows);
            Filter(I.IsInterfaceEvent(d, n), events) + I.EventsFor(met, row)
              == I.TraceOf(own) + I.EventsFor(I.LastOper(own), row)
  {
    FilterPush(I.OfInterface(d, n), rows, row);
    I.TracePush(Filter(I.OfInterface(d, n), rows), row);
    EventsOfRow(d, n, met, row, events);
  }

  /** A new row of the interface keeps the trace exactly when it is reported as the history calls for. */
  lemma OwnInterfaceRow(
    events: seq<Event>, rows: seq<InterfaceRow>, row: InterfaceRow, d: nat, n: string, met: Option<string>)
    requires row.deviceId == d && I.Name(row) == n
    requires forall e :: e in events && I.InterfaceKind(e.kind) ==> e.rowId != row.id
    requires forall r :: r in rows ==> r.id != row.id
    ensures InterfaceTraced(events + I.EventsFor(met, row), rows + [row], d, n)
       <==> InterfaceTraced(events, rows, d, n)
            && I.EventsFor(met, row) == I.EventsFor(I.LastOper(Filter(I.OfInterface(d, n), rows)), row)
  {
    InterfaceRowPushed(events, rows, row, d, n, met);
    InterfaceTracesSplit(Filter(I.IsInterfaceEvent(d, n), events), met, Filter(I.OfInterface(d, n), rows), row);
  }

  lemma OtherInterfaceRow(
    events: seq<Event>, rows: seq<InterfaceRow>, row: InterfaceRow, d: nat, n: string, met: Option<string>)
    requires row.deviceId == d && I.Name(row) != n
    ensures InterfaceTraced(events + I.EventsFor(met, row), rows + [row], d, n) <==> InterfaceTraced(events, rows, d, n)
  {
    FilterPush(I.OfInterface(d, n), rows, row);
    EventsOfRow(d, n, met, row, events);
  }

  /** The events and rows up to row `j` of a batch, of which row `j` is a new one. */
  lemma RowIsNew(events: seq<Event>, rows: seq<InterfaceRow>, batch: seq<InterfaceRow>, j: nat, next: nat)
    requires j < |batch| && forall i :: 0 <= i < |batch| ==> batch[i].id == next + i
    requires forall e :: e in events && I.InterfaceKind(e.kind) ==> e.rowId < next
    requires forall r :: r in rows ==> r.id < next
    ensures forall e :: e in events + I.Dispatch(rows + batch, batch[..j]) && I.InterfaceKind(e.kind) ==>
              e.rowId != batch[j].id
    ensures forall r :: r in rows + batch[..j] ==> r.id != batch[j].id
  {
    DispatchNamesOthers(rows + batch, batch[..j], batch[j].id);
  }

  lemma BatchRowTraced(
    events: seq<Event>, rows: seq<InterfaceRow>, batch: seq<InterfaceRow>, j: nat, m: nat, next: nat, d: nat, n: string)
    requires m == j + 1 <= |batch| && forall i :: 0 <= i < |batch| ==> batch[i].id == next + i && batch[i].deviceId == d
    requires forall e :: e in events && I.InterfaceKind(e.kind) ==> e.rowId < next
    requires forall r :: r in rows ==> r.id < next
    ensures InterfaceTraced(events + I.Dispatch(rows + batch, batch[..m]), rows + batch[..m], d, n)
       <==> InterfaceTraced(events + I.Dispatch(rows + batch, batch[..j]), rows + batch[..j], d, n)
            && (I.Name(batch[j]) == n ==> MetRight(rows, batch, j))
  {
    var row, met := batch[j], I.OperOf(I.Previous(rows + batch, batch[j]));
    var sent, stored := events + I.Dispatch(rows + batch, batch[..j]), rows + batch[..j];
    I.DispatchTurn(rows + batch, batch, j, events);
    TakePush(batch, j);
    Regroup(rows, batch[..j], [row]);
    if I.Name(row) == n {
      RowIsNew(events, rows, batch, j, next);
      OwnInterfaceRow(sent, stored, row, d, n, met);
      I.SameEvents(met, OperBefore(rows, batch, j), row);
    } else {
      OtherInterfaceRow(sent, stored, row, d, n, met);
    }
  }

  lemma MetOneMore(rows: seq<InterfaceRow>, batch: seq<InterfaceRow>, j: nat, m: nat, n: string)
    requires m == j + 1 <= |batch|
    ensures AllMetRight(rows, batch, m, n)
       <==> AllMetRight(rows, batch, j, n) && (I.Name(batch[j]) == n ==> MetRight(rows, batch, j))
  {
  }

  lemma {:induction false} BatchTraced(
    events: seq<Event>, rows: seq<InterfaceRow>, batch: seq<InterfaceRow>, m: nat, next: nat, d: nat, n: string)
    requires m <= |batch| && forall i :: 0 <= i < |batch| ==> batch[i].id == next + i && batch[i].deviceId == d
    requires forall e :: e in events && I.InterfaceKind(e.kind) ==> e.rowId < next
    requires forall r :: r in rows ==> r.id < next
    ensures InterfaceTraced(events + I.Dispatch(rows + batch, batch[..m]), rows + batch[..m], d, n)
       <==> InterfaceTraced(events, rows, d, n) && AllMetRight(rows, batch, m, n)
  {
    if m == 0 {
      assert rows + batch[..0] == rows && events + [] == events;
    } else {
      var last: nat := m - 1;
      BatchTraced(events, rows, batch, last, next, d, n);
      BatchRowTraced(events, rows, batch, last, m, next, d, n);
      MetOneMore(rows, batch, last, m, n);
    }
  }

  // ---------- Whole runs ----------

  /** What an interface check of `d` finds, if it gets that far. */
  function FoundBy(s: State, r: Request, d: nat): Option<seq<ParsedIface>> {
    if IsInterfaceCheck(r, d) && FindDevice(s.devices, d).Some? then
      var answer := Discover(FindDevice(s.devices, d).value.vendor, r.interfaceProbe);
      if answer.Interfaces? then Some(answer.found) else None
    else None
  }

  /** The rows that an interface check of `d` stores. */
  function BatchBy(s: State, r: Request, d: nat): seq<InterfaceRow> {
    if FoundBy(s, r, d).Some? then Batch(s.nextInterface, d, FoundBy(s, r, d).value, r.now) else []
  }

  /** Each row for `n` of a check of `d` meets a row that is down exactly when its predecessor is. */
  ghost function MeetsRight(d: nat, n: string): (State, Request) -> bool {
    (s: State, r: Request) => AllMetRight(s.interfaces, BatchBy(s, r, d), |BatchBy(s, r, d)|, n)
  }

  lemma CheckStores(s: State, r: Request, d: nat)
    requires IsInterfaceCheck(r, d)
    ensures var batch := BatchBy(s, r, d);
            && Step(s, r).interfaces == s.interfaces + batch
            && Step(s, r).events == s.events + I.Dispatch(s.interfaces + batch, batch)
  {
    FindIsPresent(s.devices, d);
    assert s.interfaces + [] == s.interfaces && s.events + [] == s.events;
  }

  lemma InterfaceStepTraced(s: State, r: Request, d: nat, n: string)
    requires Consistent(s) && EventsNameRows(s) && Live(Step(s, r), d)
    ensures InterfaceTraced(Step(s, r).events, Step(s, r).interfaces, d, n)
       <==> InterfaceTraced(s.events, s.interfaces, d, n) && MeetsRight(d, n)(s, r)
  {
    if IsInterfaceCheck(r, d) {
      var batch := BatchBy(s, r, d);
      CheckStores(s, r, d);
      BatchTraced(s.events, s.interfaces, batch, |batch|, s.nextInterface, d, n);
      assert batch[..|batch|] == batch;
    } else {
      InterfaceKept(s, r, d, n);
    }
  }

  lemma LastInterfaceStepTraced(requests: seq<Request>, before: seq<Request>, last: Request, d: nat, n: string)
    requires requests == before + [last] && Live(Run(requests), d)
    ensures Live(Run(before), d)
    ensures InterfaceTraced(Run(requests).events, Run(requests).interfaces, d, n)
       <==> InterfaceTraced(Run(before).events, Run(before).interfaces, d, n) && MeetsRight(d, n)(Run(before), last)
  {
    assert requests[..|requests| - 1] == before;
    RunIsConsistent(before);
    RunNamesRows(before);
    LiveBefore(Run(before), last, d);
    InterfaceStepTraced(Run(before), last, d, n);
  }

  lemma {:induction false} LiveInterfaceTraceExact(requests: seq<Request>, d: nat, n: string)
    requires Live(Run(requests), d)
    ensures InterfaceTraced(Run(requests).events, Run(requests).interfaces, d, n)
       <==> Throughout(requests, MeetsRight(d, n))
  {
    if requests != [] {
      var before, last := requests[..|requests| - 1], requests[|requests| - 1];
      SplitLast(requests);
      LastInterfaceStepTraced(requests, before, last, d, n);
      LiveInterfaceTraceExact(before, d, n);
      ThroughoutPush(requests, before, last, MeetsRight(d, n));
    }
  }

  /**
   * Over every run and whatever the clock does, the events sent about one interface of an existing device are the ones
   * its own row history calls for if and only if, in each of its batches, every row of that interface that is up is
   * compared with a row that is down exactly when the row just before it is.
   */
  lemma InterfaceTraceExact(requests: seq<Request>, d: nat, n: string)
    requires HasDevice(Run(requests).devices, d)
    ensures InterfaceTraced(Run(requests).events, Run(requests).interfaces, d, n)
       <==> Throughout(requests, MeetsRight(d, n))
  {
    assert Live(Run(requests), d);
    LiveInterfaceTraceExact(requests, d, n);
  }

  // ---------- Interface checks in the order of the clock ----------

  /** An interface check of `d` is stamped no earlier than the rows `d` already has; ties are allowed. */
  ghost function InterfaceClock(d: nat): (State, Request) -> bool {
    (s: State, r: Request) =>
      IsInterfaceCheck(r, d) ==> forall row :: row in s.interfaces && row.deviceId == d ==> row.checkedAt <= r.now
  }

  ghost predicate InterfaceInOrder(rows: seq<InterfaceRow>, d: nat, n: string) {
    Pairwise(I.Older, Filter(I.OfInterface(d, n), rows))
  }

  lemma PairwiseAppend(rel: (InterfaceRow, InterfaceRow) -> bool, a: seq<InterfaceRow>, b: seq<InterfaceRow>)
    requires Pairwise(rel, a) && Pairwise(rel, b)
    requires forall i, j :: 0 <= i < |a| && 0 <= j < |b| ==> rel(a[i], b[j])
    ensures Pairwise(rel, a + b)
  {
  }

  lemma BatchOrderOf(rows: seq<InterfaceRow>, batch: seq<InterfaceRow>, p: InterfaceRow -> bool)
    requires Pairwise(I.Older, Filter(p, rows)) && Pairwise(I.Older, batch)
    requires forall r, b :: r in rows && b in batch && p(r) && p(b) ==> I.Older(r, b)
    ensures Pairwise(I.Older, Filter(p, rows + batch))
  {
    FilterAppend(p, rows, batch);
    FilterPairwise(I.Older, p, batch);
    var a, b := Filter(p, rows), Filter(p, batch);
    forall i, j | 0 <= i < |a| && 0 <= j < |b| ensures I.Older(a[i], b[j]) {
      assert a[i] in a && b[j] in b;
    }
    PairwiseAppend(I.Older, a, b);
  }

  lemma BatchInOrder(s: State, r: Request, d: nat, n: string)
    requires Consistent(s) && InterfaceInOrder(s.interfaces, d, n)
    requires IsInterfaceCheck(r, d) && InterfaceClock(d)(s, r)
    ensures InterfaceInOrder(s.interfaces + BatchBy(s, r, d), d, n)
  {
    BatchOrderOf(s.interfaces, BatchBy(s, r, d), I.OfInterface(d, n));
  }

  lemma InterfaceStepInOrder(s: State, r: Request, d: nat, n: string)
    requires Consistent(s) && InterfaceInOrder(s.interfaces, d, n) && InterfaceClock(d)(s, r) && Live(Step(s, r), d)
    ensures InterfaceInOrder(Step(s, r).interfaces, d, n)
  {
    if IsInterfaceCheck(r, d) {
      CheckStores(s, r, d);
      BatchInOrder(s, r, d, n);
    } else {
      InterfaceKept(s, r, d, n);
    }
  }

  /**
   * If row `j` is up and later rows of the batch have the same name, the last of these twins is down exactly when the
   * row of the interface just before row `j` is.
   */
  predicate TwinAgrees(rows: seq<InterfaceRow>, batch: seq<InterfaceRow>, j: nat)
    requires j < |batch|
  {
    var twins := Filter(I.OfInterface(batch[j].deviceId, I.Name(batch[j])), batch[j + 1..]);
    I.IsUp(batch[j].iface.operStatus) && twins != [] ==>
      (I.WasDown(I.LastOper(twins)) <==> I.WasDown(OperBefore(rows, batch, j)))
  }

  lemma LastOfEither(before: seq<InterfaceRow>, twins: seq<InterfaceRow>)
    ensures I.OperOf(I.LastOf(before + twins)) == if twins != [] then I.LastOper(twins) else I.LastOper(before)
  {
  }

  /** In time order the lookup meets the last twin, so it is right exactly when that twin agrees. */
  lemma MetRightExact(rows: seq<InterfaceRow>, batch: seq<InterfaceRow>, j: nat)
    requires j < |batch| && Pairwise(I.DifferentIds, rows + batch)
    requires InterfaceInOrder(rows + batch, batch[j].deviceId, I.Name(batch[j]))
    ensures MetRight(rows, batch, j) <==> TwinAgrees(rows, batch, j)
  {
    var row, before, after := batch[j], rows + batch[..j], batch[j + 1..];
    var same := I.OfInterface(row.deviceId, I.Name(row));
    assert rows + batch == before + [row] + after;
    I.LookupFinds(before, row, after);
    LastOfEither(Filter(same, before), Filter(same, after));
  }

  /** In each batch found for `d`, the later twins of a row for `n` agree with the row before it. */
  ghost function TwinsAgree(d: nat, n: string): (State, Request) -> bool {
    (s: State, r: Request) =>
      var batch := BatchBy(s, r, d);
      forall j :: 0 <= j < |batch| && I.Name(batch[j]) == n ==> TwinAgrees(s.interfaces, batch, j)
  }

  lemma BatchIdsDiffer(s: State, r: Request, d: nat)
    requires Consistent(s)
    ensures Pairwise(I.DifferentIds, s.interfaces + BatchBy(s, r, d))
  {
    var batch := BatchBy(s, r, d);
    var all := s.interfaces + batch;
    forall i, j | 0 <= i < j < |all| ensures I.DifferentIds(all[i], all[j]) {
      assert i < |s.interfaces| ==> all[i] in s.interfaces;
      assert j < |s.interfaces| ==> I.DifferentIds(s.interfaces[i], s.interfaces[j]);
    }
  }

  lemma TwinsDecideStep(s: State, r: Request, d: nat, n: string)
    requires Consistent(s) && InterfaceInOrder(s.interfaces, d, n) && InterfaceClock(d)(s, r)
    ensures MeetsRight(d, n)(s, r) <==> TwinsAgree(d, n)(s, r)
  {
    if IsInterfaceCheck(r, d) {
      var batch := BatchBy(s, r, d);
      BatchIdsDiffer(s, r, d);
      BatchInOrder(s, r, d, n);
      forall j | 0 <= j < |batch| && I.Name(batch[j]) == n
        ensures MetRight(s.interfaces, batch, j) <==> TwinAgrees(s.interfaces, batch, j)
      {
        MetRightExact(s.interfaces, batch, j);
      }
    }
  }

  lemma {:induction false} InterfaceOrderOfRun(requests: seq<Request>, d: nat, n: string)
    requires Throughout(requests, InterfaceClock(d)) && Live(Run(requests), d)
    ensures InterfaceInOrder(Run(requests).interfaces, d, n)
  {
    if requests != [] {
      var before, last := requests[..|requests| - 1], requests[|requests| - 1];
      SplitLast(requests);
      ThroughoutPush(requests, before, last, InterfaceClock(d));
      RunIsConsistent(before);
      LiveBefore(Run(before), last, d);
      InterfaceOrderOfRun(before, d, n);
      InterfaceStepInOrder(Run(before), last, d, n);
    }
  }

  lemma TwinsDecideLast(requests: seq<Request>, before: seq<Request>, last: Request, d: nat, n: string)
    requires requests == before + [last] && Throughout(requests, InterfaceClock(d)) && Live(Run(before), d)
    ensures MeetsRight(d, n)(Run(before), last) <==> TwinsAgree(d, n)(Run(before), last)
  {
    ThroughoutPush(requests, before, last, InterfaceClock(d));
    RunIsConsistent(before);
    InterfaceOrderOfRun(before, d, n);
    TwinsDecideStep(Run(before), last, d, n);
  }

  lemma LiveAndClocked(requests: seq<Request>, before: seq<Request>, last: Request, d: nat)
    requires requests == before + [last] && Throughout(requests, InterfaceClock(d)) && Live(Run(requests), d)
    ensures Throughout(before, InterfaceClock(d)) && Live(Run(before), d)
  {
    ThroughoutPush(requests, before, last, InterfaceClock(d));
    RunIsConsistent(before);
    LiveBefore(Run(before), last, d);
  }

  lemma {:induction false} TwinsDecideRun(requests: seq<Request>, d: nat, n: string)
    requires Throughout(requests, InterfaceClock(d)) && Live(Run(requests), d)
    ensures Throughout(requests, MeetsRight(d, n)) <==> Throughout(requests, TwinsAgree(d, n))
  {
    if requests != [] {
      var before, last := requests[..|requests| - 1], requests[|requests| - 1];
      SplitLast(requests);
      LiveAndClocked(requests, before, last, d);
      TwinsDecideRun(before, d, n);
      TwinsDecideLast(requests, before, last, d, n);
      ThroughoutPush(requests, before, last, MeetsRight(d, n));
      ThroughoutPush(requests, before, last, TwinsAgree(d, n));
    }
  }

  /**
   * In every run in which the clock does not go back between two interface checks of the device, the events sent
   * about an interface are the ones its history calls for if and only if, in each of its batches, the last later twin
   * of every row of the interface that is up is down exactly when the row before it is.
   */
  lemma TwinsDecideTrace(requests: seq<Request>, d: nat, n: string)
    requires Throughout(requests, InterfaceClock(d)) && HasDevice(Run(requests).devices, d)
    ensures InterfaceTraced(Run(requests).events, Run(requests).interfaces, d, n)
       <==> Throughout(requests, TwinsAgree(d, n))
  {
    assert Live(Run(requests), d);
    TwinsDecideRun(requests, d, n);
    InterfaceTraceExact(requests, d, n);
  }

  /** What an interface check of `d` finds has the name `n` at most once. */
  ghost function NamedOnce(d: nat, n: string): (State, Request) -> bool {
    (s: State, r: Request) => FoundBy(s, r, d).Some? ==> Adapters.OnceIn(FoundBy(s, r, d).value, n)
  }

  lemma OnceMeansAgree(s: State, r: Request, d: nat, n: string)
    requires NamedOnce(d, n)(s, r)
    ensures TwinsAgree(d, n)(s, r)
  {
    var batch := BatchBy(s, r, d);
    forall j | 0 <= j < |batch| && I.Name(batch[j]) == n ensures TwinAgrees(s.interfaces, batch, j) {
      FilterNone(I.OfInterface(batch[j].deviceId, n), batch[j + 1..]);
    }
  }

  /**
   * In particular when no batch of the device has the name twice. Then the counts follow, also across failed checks
   * and batches that omit the interface: one down event per down row, one recovery per adjacent down-then-up pair, one
   * error event per row with errors.
   */
  lemma InterfaceTraceOfRun(requests: seq<Request>, d: nat, n: string)
    requires Throughout(requests, InterfaceClock(d)) && Throughout(requests, NamedOnce(d, n))
    requires HasDevice(Run(requests).devices, d)
    ensures InterfaceTraced(Run(requests).events, Run(requests).interfaces, d, n)
    ensures var sent := Filter(I.IsInterfaceEvent(d, n), Run(requests).events);
            var rows := Filter(I.OfInterface(d, n), Run(requests).interfaces);
            && Count(InterfaceDown, sent) == I.CountRows(I.IsDown(), rows)
            && Count(InterfaceRecovered, sent) == I.Recoveries(rows)
            && Count(InterfaceErrorsDetected, sent) == I.CountRows(I.WithErrors(), rows)
  {
    forall s, r | NamedOnce(d, n)(s, r) ensures TwinsAgree(d, n)(s, r) {
      OnceMeansAgree(s, r, d, n);
    }
    ThroughoutImplies(requests, NamedOnce(d, n), TwinsAgree(d, n));
    TwinsDecideTrace(requests, d, n);
    I.TraceCounts(Filter(I.OfInterface(d, n), Run(requests).interfaces));
  }

  /** In any such run, two recoveries of one interface always have one of its down events between them. */
  lemma RecoveriesAlternateInRun(requests: seq<Request>, d: nat, n: string, i: nat, j: nat)
    requires Throughout(requests, InterfaceClock(d)) && Throughout(requests, NamedOnce(d, n))
    requires HasDevice(Run(requests).devices, d)
    requires i < j < |Filter(I.IsInterfaceEvent(d, n), Run(requests).events)|
    requires Filter(I.IsInterfaceEvent(d, n), Run(requests).events)[i].kind == InterfaceRecovered
    requires Filter(I.IsInterfaceEvent(d, n), Run(requests).events)[j].kind == InterfaceRecovered
    ensures exists k :: i < k < j && Filter(I.IsInterfaceEvent(d, n), Run(requests).events)[k].kind == InterfaceDown
  {
    InterfaceTraceOfRun(requests, d, n);
    I.DownBetweenRecoveries(Filter(I.OfInterface(d, n), Run(requests).interfaces), i, j);
  }
}
