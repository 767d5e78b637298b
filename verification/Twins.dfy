/** A run in which one listing names a port twice, and a recovery is reported although nothing was ever down. */
module Twins {
  import opened Base
  import opened Tables
  import opened System
  import I = Interfaces
  import Adapters
  import Nokia

  /** Two complete rows for one port: up in the first, down in the second. */
  predicate TwinRows(a: Nokia.Line, b: Nokia.Line) {
    && a.Row? && Nokia.ValidLine(a) && b.Row? && Nokia.ValidLine(b)
    && Nokia.GroupsOf(a.parts).name == Nokia.GroupsOf(b.parts).name
    && a.parts[10] == "Up" && b.parts[10] == "Down"
  }

  function IfaceOf(l: Nokia.Line): ParsedIface
    requires l.Row? && |l.parts| == 11
  {
    Nokia.Record(Nokia.GroupsOf(l.parts))
  }

  lemma LowerStates()
    ensures Lower("Up") == "up" && Lower("Down") == "down"
  {
  }

  lemma NokiaParses(vendor: string, text: string, parsers: Adapters.Parsers)
    requires Lower(Strip(vendor)) == "nokia"
    ensures Adapters.ParseInterfaces(vendor, text, parsers) == Nokia.Parse(text)
  {
    assert "nokia"[0] != "cisco"[0];
  }

  lemma TwinsParsed(a: Nokia.Line, b: Nokia.Line)
    requires TwinRows(a, b)
    ensures Nokia.Parse(Nokia.Render([a, b])) == [IfaceOf(a), IfaceOf(b)]
  {
    TwoPorts(a, b);
    Nokia.RoundTrip([a, b]);
  }

  lemma TwoPorts(a: Nokia.Line, b: Nokia.Line)
    requires TwinRows(a, b)
    ensures Nokia.Ports([a, b]) == [Nokia.GroupsOf(a.parts), Nokia.GroupsOf(b.parts)]
  {
    assert [b][1..] == [] && Nokia.Ports([b]) == [Nokia.GroupsOf(b.parts)];
    assert [a, b][1..] == [b];
  }

  lemma FirstDevice(input: DeviceInput)
    ensures var s := Step(EMPTY, Create(input));
            && s == EMPTY.(devices := [NewDevice(1, input)], nextDevice := 2)
            && FindDevice(s.devices, 1) == Some(NewDevice(1, input))
  {
    var s := Step(EMPTY, Create(input));
    assert ReplyTo(EMPTY, Create(input)) == Done;
    assert s.devices == [] + [NewDevice(1, input)];
    FilterPush(WithId(1), [], NewDevice(1, input));
  }

  lemma StoredTwins(s: State, x: ParsedIface, y: ParsedIface, now: int)
    requires s.interfaces == [] && s.events == [] && s.nextInterface == 1
    requires x.name == y.name && x.operStatus == Some("up") && y.operStatus == Some("down")
    requires !I.HasErrors(x) && !I.HasErrors(y)
    ensures StoreInterfaces(s, 1, [x, y], now).events
         == [Event(InterfaceRecovered, 1, 1, x.name), Event(InterfaceDown, 1, 2, x.name)]
  {
    var a, b := InterfaceRow(1, 1, x, now), InterfaceRow(2, 1, y, now);
    assert Batch(1, 1, [x, y], now) == [a, b];
    assert [] + [a, b] == [a, b];
    I.SpuriousRecovery(a, b);
  }

  lemma RunOfTwo(first: Request, second: Request)
    ensures Run([first, second]) == Step(Step(EMPTY, first), second)
  {
    assert [first][..0] == [] && Run([first]) == Step(EMPTY, first);
    assert [first, second][..1] == [first];
  }

  lemma NokiaIsSupported(vendor: string)
    requires Lower(Strip(vendor)) == "nokia"
    ensures SupportedVendor(vendor)
  {
    assert ADAPTERS[2] == "nokia";
  }

  lemma Reached(vendor: string, probe: InterfaceProbe)
    requires SupportedVendor(vendor) && probe.reachable && probe.passwordSet
    ensures Discover(vendor, probe) == Answer(vendor, probe.discovery, probe.parsers)
  {
  }

  lemma TwinsFound(vendor: string, a: Nokia.Line, b: Nokia.Line, parsers: Adapters.Parsers)
    requires Lower(Strip(vendor)) == "nokia" && TwinRows(a, b)
    ensures Discover(vendor, InterfaceProbe(true, true, Fetched(Nokia.Render([a, b])), parsers))
         == Interfaces([IfaceOf(a), IfaceOf(b)])
  {
    var text := Nokia.Render([a, b]);
    NokiaIsSupported(vendor);
    Reached(vendor, InterfaceProbe(true, true, Fetched(text), parsers));
    NokiaParses(vendor, text, parsers);
    TwinsParsed(a, b);
    AnswerOfText(vendor, Fetched(text), parsers, [IfaceOf(a), IfaceOf(b)]);
  }

  lemma CheckFinds(s: State, d: Device, probe: InterfaceProbe, found: seq<ParsedIface>, now: int)
    requires FindDevice(s.devices, 1) == Some(d) && d.id == 1 && Discover(d.vendor, probe) == Interfaces(found)
    ensures Step(s, CheckInterfaces(1, probe, now)) == StoreInterfaces(s, 1, found, now)
  {
    InterfacesAccepted(s, 1, d, probe, now);
  }

  /** The only check ever made of the device reports a recovery before it reports the port down. */
  lemma SpuriousRecoveryInRun(input: DeviceInput, a: Nokia.Line, b: Nokia.Line, parsers: Adapters.Parsers, now: int)
    requires Lower(Strip(input.vendor)) == "nokia" && TwinRows(a, b)
    ensures var probe := InterfaceProbe(true, true, Fetched(Nokia.Render([a, b])), parsers);
            var port := Nokia.GroupsOf(a.parts).name;
            Run([Create(input), CheckInterfaces(1, probe, now)]).events
              == [Event(InterfaceRecovered, 1, 1, port), Event(InterfaceDown, 1, 2, port)]
  {
    var text := Nokia.Render([a, b]);
    var probe := InterfaceProbe(true, true, Fetched(text), parsers);
    RunOfTwo(Create(input), CheckInterfaces(1, probe, now));
    TwinsFound(input.vendor, a, b, parsers);
    FirstDevice(input);
    CheckFinds(Step(EMPTY, Create(input)), NewDevice(1, input), probe, [IfaceOf(a), IfaceOf(b)], now);
    TwinIfaces(a, b);
    StoredTwins(Step(EMPTY, Create(input)), IfaceOf(a), IfaceOf(b), now);
  }

  lemma TwinIfaces(a: Nokia.Line, b: Nokia.Line)
    requires TwinRows(a, b)
    ensures var x, y := IfaceOf(a), IfaceOf(b);
            && x.name == y.name == Nokia.GroupsOf(a.parts).name
            && x.operStatus == Some("up") && y.operStatus == Some("down")
            && !I.HasErrors(x) && !I.HasErrors(y)
  {
    LowerStates();
  }
}
