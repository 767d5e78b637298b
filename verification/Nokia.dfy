/** The `show port` parser: an exact matcher for one port row, and one record per row. */
module Nokia {
  import opened Base
  import opened Patterns
  import opened Scanner
  import opened Tables

  const STATES := ["Up", "Down"]

  /** `(\d+/\d+/\d+)\s+(Up|Down)\s+\S+\s+(Up|Down)` */
  const ROW: seq<Piece> := [
    Run(Digit, false), Word(["/"], false), Run(Digit, false), Word(["/"], false), Run(Digit, false),
    Run(Space, false), Word(STATES, false), Run(Space, false), Run(NonSpace, false), Run(Space, false),
    Word(STATES, false)]

  /** `\w` */
  predicate WordChar(c: char) {
    '0' <= c <= '9' || 'a' <= c <= 'z' || 'A' <= c <= 'Z' || c == '_'
  }

  /** `\b` after a word */
  predicate Boundary(rest: string) {
    rest == "" || !WordChar(rest[0])
  }

  function GroupsOf(parts: seq<string>): Groups
    requires |parts| == 11
  {
    Groups(parts[0] + parts[1] + parts[2] + parts[3] + parts[4], parts[6], parts[10])
  }

  /** The match of a text of length `n`, if a word ends there. */
  function AtBoundary(m: Option<Matched>, n: nat): Option<Found>
    requires m.Some? ==> |m.value.parts| == 11 && |m.value.rest| < n
  {
    if m == None || !Boundary(m.value.rest) then None else Some(Found(GroupsOf(m.value.parts), n - |m.value.rest|))
  }

  function MatchRow(t: string): Option<Found> {
    AtBoundary(Match(ROW, t), |t|)
  }

  function Record(g: Groups): ParsedIface {
    NO_IFACE.(name := g.name, adminStatus := Some(Lower(g.admin)), operStatus := Some(Lower(g.oper)))
  }

  function Records(hits: seq<Hit>): (r: seq<ParsedIface>)
    ensures |r| == |hits|
    ensures forall i :: 0 <= i < |hits| ==> r[i] == Record(hits[i].groups)
  {
    seq<ParsedIface>(|hits|, i requires 0 <= i < |hits| => Record(hits[i].groups))
  }

  function Parse(s: string): seq<ParsedIface> {
    Records(FindIter(MatchRow, s))
  }

  method ParseNokiaInterfaces(output: string) returns (interfaces: seq<ParsedIface>)
    ensures interfaces == Parse(output)
  {
    var rows := FindIter(MatchRow, output);
    interfaces := [];
    for i := 0 to |rows|
      invariant interfaces == Parse(output)[..i]
    {
      interfaces := interfaces + [Record(rows[i].groups)];
      TakePush(Parse(output), i);
    }
  }

  // ---------- The row pattern ----------

  lemma StatesAreDistinct()
    ensures PrefixFree(STATES) && PrefixFree(["/"])
  {
    assert STATES[0][0] == 'U' && STATES[1][0] == 'D';
  }

  lemma RowIsDeterministic()
    ensures Deterministic(ROW) && OneLineWords(ROW)
  {
    StatesAreDistinct();
  }

  /** `t` begins with a row of these parts. */
  predicate IsRow(t: string, parts: seq<string>, rest: string) {
    Cut(ROW, t, Matched(parts, rest)) && Boundary(rest)
  }

  lemma RowComplete(t: string, parts: seq<string>, rest: string)
    requires IsRow(t, parts, rest)
    ensures |rest| < |t| && MatchRow(t) == Some(Found(GroupsOf(parts), |t| - |rest|))
  {
    PartsComplete(t, Matched(parts, rest));
  }

  lemma PartsComplete(t: string, m: Matched)
    requires Cut(ROW, t, m)
    ensures Match(ROW, t) == Some(m)
  {
    RowIsDeterministic();
    MatchComplete(ROW, t, m);
  }

  /** A port name: three numbers separated by slashes. */
  ghost predicate PortName(name: string) {
    exists a: string, b: string, c: string ::
      a != "" && b != "" && c != "" && AllDigits(a) && AllDigits(b) && AllDigits(c)
      && name == a + "/" + b + "/" + c
  }

  predicate AllDigits(s: string) {
    forall i :: 0 <= i < |s| ==> '0' <= s[i] <= '9'
  }

  predicate Blank(s: string) {
    s != "" && forall i :: 0 <= i < |s| ==> IsSpace(s[i])
  }

  /** The pieces of a row as they are written. */
  datatype Written = Written(
    name: string, gap1: string, admin: string, gap2: string, link: string, gap3: string, oper: string)

  /**
   * A row, letter by letter: a port name, `Up` or `Down`, a word, and `Up` or `Down` that ends a word, with white space
   * between them.
   */
  ghost predicate RowWritten(t: string, w: Written, rest: string) {
    && t == w.name + (w.gap1 + (w.admin + (w.gap2 + (w.link + (w.gap3 + (w.oper + rest))))))
    && PortName(w.name) && Blank(w.gap1) && Blank(w.gap2) && Blank(w.gap3)
    && (w.admin == "Up" || w.admin == "Down") && (w.oper == "Up" || w.oper == "Down")
    && w.link != "" && (forall i :: 0 <= i < |w.link| ==> !IsSpace(w.link[i]))
    && (rest == "" || !('0' <= rest[0] <= '9' || 'a' <= rest[0] <= 'z' || 'A' <= rest[0] <= 'Z' || rest[0] == '_'))
  }

  lemma ElevenParts(parts: seq<string>, rest: string)
    requires |parts| == 11
    ensures Concat(parts) + rest
         == (parts[0] + parts[1] + parts[2] + parts[3] + parts[4])
            + (parts[5] + (parts[6] + (parts[7] + (parts[8] + (parts[9] + (parts[10] + rest))))))
  {
    var a, b, c := parts[..5], [parts[5], parts[6], parts[7]], [parts[8], parts[9], parts[10]];
    assert parts == a + (b + c);
    SpreadText(parts, rest);
    SpreadAppend(a, b + c, rest);
    SpreadAppend(b, c, rest);
    SpreadThree(parts[8], parts[9], parts[10], rest);
    SpreadThree(parts[5], parts[6], parts[7], Spread(c, rest));
    SpreadText(a, Spread(b + c, rest));
    NameOf(parts);
  }

  lemma StateExact(s: string)
    ensures s in STATES <==> s == "Up" || s == "Down"
  {
    OneOfTwo(s, "Up", "Down");
  }

  lemma FitsExact(parts: seq<string>)
    requires |parts| == 11
    ensures (forall i :: 0 <= i < |ROW| ==> Fits(ROW[i], parts[i])) <==>
              && parts[0] != "" && AllDigits(parts[0]) && parts[1] == "/" && parts[2] != "" && AllDigits(parts[2])
              && parts[3] == "/" && parts[4] != "" && AllDigits(parts[4])
              && Blank(parts[5]) && parts[6] in STATES && Blank(parts[7])
              && parts[8] != "" && (forall i :: 0 <= i < |parts[8]| ==> !IsSpace(parts[8][i]))
              && Blank(parts[9]) && parts[10] in STATES
  {
    SlashExact(parts[1]);
    SlashExact(parts[3]);
  }

  lemma SlashExact(s: string)
    ensures Fits(Word(["/"], false), s) <==> s == "/"
  {
  }

  function WrittenFrom(parts: seq<string>): Written
    requires |parts| == 11
  {
    Written(parts[0] + parts[1] + parts[2] + parts[3] + parts[4],
            parts[5], parts[6], parts[7], parts[8], parts[9], parts[10])
  }

  lemma RowIsWritten(t: string, parts: seq<string>, rest: string)
    requires IsRow(t, parts, rest)
    ensures RowWritten(t, WrittenFrom(parts), rest)
  {
    ElevenParts(parts, rest);
    FitsExact(parts);
    StateExact(parts[6]);
    StateExact(parts[10]);
    assert PortName(parts[0] + "/" + parts[2] + "/" + parts[4]);
  }

  lemma WrittenIsRow(t: string, w: Written, rest: string) returns (parts: seq<string>)
    requires RowWritten(t, w, rest)
    ensures |parts| == 11 && IsRow(t, parts, rest) && w == WrittenFrom(parts)
  {
    var a: string, b: string, c: string :|
      a != "" && b != "" && c != "" && AllDigits(a) && AllDigits(b) && AllDigits(c) && w.name == a + "/" + b + "/" + c;
    parts := [a, "/", b, "/", c, w.gap1, w.admin, w.gap2, w.link, w.gap3, w.oper];
    ElevenParts(parts, rest);
    FitsExact(parts);
    StateExact(w.admin);
    StateExact(w.oper);
  }

  lemma RowSound(t: string)
    requires MatchRow(t).Some?
    ensures var m := Match(ROW, t).value;
            IsRow(t, m.parts, m.rest) && MatchRow(t).value == Found(GroupsOf(m.parts), |t| - |m.rest|)
  {
    MatchSound(ROW, t);
  }

  /** The matcher accepts exactly the rows, with the only name, states and length they allow. */
  lemma RowExact(t: string, found: Found)
    ensures MatchRow(t) == Some(found)
       <==> exists w: Written, rest :: RowWritten(t, w, rest) && found.groups == Groups(w.name, w.admin, w.oper)
                                       && found.length == |t| - |rest|
  {
    if MatchRow(t) == Some(found) {
      RowSound(t);
      var m := Match(ROW, t).value;
      RowIsWritten(t, m.parts, m.rest);
    }
    forall w: Written, rest | RowWritten(t, w, rest) && found.groups == Groups(w.name, w.admin, w.oper)
                              && found.length == |t| - |rest|
      ensures MatchRow(t) == Some(found)
    {
      var parts := WrittenIsRow(t, w, rest);
      RowComplete(t, parts, rest);
    }
  }

  lemma RowStaysInside()
    ensures StaysInside(MatchRow)
  {
  }

  lemma RowSeam(u: string, b: string)
    requires EndsLine(u) && Unreachable(ROW, b)
    ensures MatchRow(u + b) == MatchRow(u)
  {
    RowIsDeterministic();
    MatchSeam(ROW, u, b);
    SameBoundary(Match(ROW, u), u, b);
  }

  lemma SameBoundary(m: Option<Matched>, u: string, b: string)
    requires m.Some? ==> |m.value.parts| == 11 && |m.value.rest| < |u| && m.value.rest != ""
    ensures AtBoundary(WithRest(m, b), |u + b|) == AtBoundary(m, |u|)
  {
    assert m.Some? ==> (m.value.rest + b)[0] == m.value.rest[0];
  }

  lemma RowIsLocal(b: string)
    requires Unreachable(ROW, b)
    ensures Independent(MatchRow, b)
  {
    forall u: string | EndsLine(u) ensures MatchRow(u + b) == MatchRow(u) {
      RowSeam(u, b);
    }
  }

  /**
   * Output that ends a line can be parsed apart from what follows, provided white space at the end of the former
   * cannot be completed to a row by the latter.
   */
  lemma ParseConcat(a: string, b: string)
    requires WholeLines(a) && Unreachable(ROW, b)
    ensures Parse(a + b) == Parse(a) + Parse(b)
  {
    RowStaysInside();
    RowIsLocal(b);
    FindIterConcat(MatchRow, a, b);
  }

  // ---------- Round trip ----------

  /** A line of output: a complete port row, or any line that does not begin with a digit. */
  datatype Line = Row(parts: seq<string>, tail: string) | Other(text: string)

  predicate ValidLine(l: Line) {
    match l
    case Row(parts, tail) =>
      |parts| == |ROW| && (forall i :: 0 <= i < |ROW| ==> Fits(ROW[i], parts[i])) && '\n' !in tail && Boundary(tail)
    case Other(text) => '\n' !in text && (text == "" || !('0' <= text[0] <= '9'))
  }

  predicate ValidLines(lines: seq<Line>) {
    forall i :: 0 <= i < |lines| ==> ValidLine(lines[i])
  }

  function RenderLine(l: Line): string {
    match l
    case Row(parts, tail) => Concat(parts) + tail
    case Other(text) => text
  }

  function Render(lines: seq<Line>): string {
    if lines == [] then "" else RenderLine(lines[0]) + "\n" + Render(lines[1..])
  }

  function PortOf(l: Line): seq<Groups>
    requires ValidLine(l)
  {
    if l.Row? then [GroupsOf(l.parts)] else []
  }

  /** The ports of the rows, in order. */
  function Ports(lines: seq<Line>): seq<Groups>
    requires ValidLines(lines)
  {
    if lines == [] then [] else PortOf(lines[0]) + Ports(lines[1..])
  }

  lemma NotARow(t: string)
    requires t != "" && !('0' <= t[0] <= '9')
    ensures MatchRow(t) == None
  {
  }

  lemma OtherLine(l: Line, more: string, at: nat, next: nat)
    requires ValidLine(l) && l.Other? && next == at + |RenderLine(l)| + 1
    ensures Scan(MatchRow, true, RenderLine(l) + "\n" + more, at) == Scan(MatchRow, true, more, next)
  {
    var t := l.text + "\n" + more;
    assert t[0] == if l.text == "" then '\n' else l.text[0];
    NotARow(t);
    SkipLine(MatchRow, true, l.text, t, more, at, next);
  }

  lemma LastOfRow(parts: seq<string>)
    requires |parts| == |ROW| && forall i :: 0 <= i < |ROW| ==> Fits(ROW[i], parts[i])
    ensures var c := Concat(parts); c != "" && c[|c| - 1] != '\n'
  {
    assert Fits(ROW[10], parts[10]);
    LastPart(parts, 10);
  }

  lemma {:induction false} LastPart(parts: seq<string>, last: nat)
    requires |parts| == last + 1 && parts[last] != ""
    ensures var c := Concat(parts); c != "" && c[|c| - 1] == parts[last][|parts[last]| - 1]
    decreases last
  {
    if last > 0 {
      LastPart(parts[1..], last - 1);
    }
  }

  lemma BoundaryBefore(tail: string, more: string)
    requires Boundary(tail)
    ensures Boundary(tail + "\n" + more)
  {
    assert (tail + "\n" + more)[0] == if tail == "" then '\n' else tail[0];
  }

  lemma RowInPlace(parts: seq<string>, tail: string, more: string)
    requires ValidLine(Row(parts, tail))
    ensures MatchRow(Concat(parts) + (tail + "\n" + more)) == Some(Found(GroupsOf(parts), |Concat(parts)|))
  {
    BoundaryBefore(tail, more);
    RowComplete(Concat(parts) + (tail + "\n" + more), parts, tail + "\n" + more);
  }

  lemma RowLine(l: Line, more: string, at: nat, next: nat)
    requires ValidLine(l) && l.Row? && next == at + |RenderLine(l)| + 1
    ensures Scan(MatchRow, true, RenderLine(l) + "\n" + more, at)
         == [Hit(at, GroupsOf(l.parts))] + Scan(MatchRow, true, more, next)
  {
    var row, rest := Concat(l.parts), l.tail + "\n" + more;
    assert RenderLine(l) + "\n" + more == row + rest;
    RowInPlace(l.parts, l.tail, more);
    LastOfRow(l.parts);
    HitThenSkip(MatchRow, row, rest, l.tail, more, at, GroupsOf(l.parts), next);
  }

  function GroupsFound(hits: seq<Hit>): (r: seq<Groups>)
    ensures |r| == |hits|
    ensures forall i :: 0 <= i < |hits| ==> r[i] == hits[i].groups
  {
    seq(|hits|, i requires 0 <= i < |hits| => hits[i].groups)
  }

  lemma LineStep(l: Line, more: string, at: nat, next: nat)
    requires ValidLine(l) && next == at + |RenderLine(l)| + 1
    ensures GroupsFound(Scan(MatchRow, true, RenderLine(l) + "\n" + more, at))
         == PortOf(l) + GroupsFound(Scan(MatchRow, true, more, next))
  {
    if l.Row? {
      RowLine(l, more, at, next);
    } else {
      OtherLine(l, more, at, next);
    }
    PortsFound(l, at, Scan(MatchRow, true, RenderLine(l) + "\n" + more, at), Scan(MatchRow, true, more, next));
  }

  lemma PortsFound(l: Line, at: nat, hits: seq<Hit>, later: seq<Hit>)
    requires ValidLine(l) && hits == (if l.Row? then [Hit(at, GroupsOf(l.parts))] + later else later)
    ensures GroupsFound(hits) == PortOf(l) + GroupsFound(later)
  {
  }

  function PortsFrom(m: Pattern, t: string, at: nat): seq<Groups> {
    GroupsFound(Scan(m, true, t, at))
  }

  lemma RenderText(lines: seq<Line>, b: string)
    requires lines != []
    ensures RenderLine(lines[0]) + "\n" + (Render(lines[1..]) + b) == Render(lines) + b
  {
    Regroup(RenderLine(lines[0]) + "\n", Render(lines[1..]), b);
  }

  lemma PortsPush(lines: seq<Line>, found: seq<Groups>)
    requires lines != [] && ValidLines(lines)
    ensures PortOf(lines[0]) + (Ports(lines[1..]) + found) == Ports(lines) + found
  {
    Regroup(PortOf(lines[0]), Ports(lines[1..]), found);
  }

  lemma RenderStep(m: Pattern, lines: seq<Line>, b: string, at: nat, next: nat, found: seq<Groups>)
    requires lines != [] && ValidLines(lines)
    requires PortsFrom(m, RenderLine(lines[0]) + "\n" + (Render(lines[1..]) + b), at)
          == PortOf(lines[0]) + PortsFrom(m, Render(lines[1..]) + b, next)
    requires PortsFrom(m, Render(lines[1..]) + b, next) == Ports(lines[1..]) + found
    ensures PortsFrom(m, Render(lines) + b, at) == Ports(lines) + found
  {
    RenderText(lines, b);
    PortsPush(lines, found);
  }

  lemma RenderCons(lines: seq<Line>, b: string, at: nat, next: nat, found: seq<Groups>)
    requires lines != [] && ValidLines(lines) && next == at + |RenderLine(lines[0])| + 1
    requires PortsFrom(MatchRow, Render(lines[1..]) + b, next) == Ports(lines[1..]) + found
    ensures PortsFrom(MatchRow, Render(lines) + b, at) == Ports(lines) + found
  {
    LineStep(lines[0], Render(lines[1..]) + b, at, next);
    RenderStep(MatchRow, lines, b, at, next, found);
  }

  lemma {:induction false} ScanRender(lines: seq<Line>, b: string, at: nat, end: nat)
    requires ValidLines(lines) && end == at + |Render(lines)|
    ensures PortsFrom(MatchRow, Render(lines) + b, at) == Ports(lines) + PortsFrom(MatchRow, b, end)
  {
    if lines == [] {
      assert Render(lines) + b == b;
    } else {
      var next := at + |RenderLine(lines[0])| + 1;
      ScanRender(lines[1..], b, next, end);
      RenderCons(lines, b, at, next, PortsFrom(MatchRow, b, end));
    }
  }

  function RecordsOf(ports: seq<Groups>): (r: seq<ParsedIface>)
    ensures |r| == |ports|
    ensures forall i :: 0 <= i < |ports| ==> r[i] == Record(ports[i])
  {
    seq<ParsedIface>(|ports|, i requires 0 <= i < |ports| => Record(ports[i]))
  }

  lemma RecordsOfFound(hits: seq<Hit>)
    ensures Records(hits) == RecordsOf(GroupsFound(hits))
  {
  }

  lemma RecordsOfBoth(a: seq<Groups>, b: seq<Groups>)
    ensures RecordsOf(a + b) == RecordsOf(a) + RecordsOf(b)
  {
  }

  lemma PortsAnywhere(b: string, at: nat)
    ensures PortsFrom(MatchRow, b, at) == GroupsFound(FindIter(MatchRow, b))
  {
    ScanShift(MatchRow, true, b, 0, at);
  }

  /** Complete rows and other lines are parsed the same whatever follows them, and do not disturb it. */
  lemma CompleteRowsAreLocal(lines: seq<Line>, b: string)
    requires ValidLines(lines)
    ensures Parse(Render(lines) + b) == RecordsOf(Ports(lines)) + Parse(b)
  {
    ScanRender(lines, b, 0, |Render(lines)|);
    PortsAnywhere(b, |Render(lines)|);
    RecordsOfFound(FindIter(MatchRow, Render(lines) + b));
    RecordsOfFound(FindIter(MatchRow, b));
    RecordsOfBoth(Ports(lines), GroupsFound(FindIter(MatchRow, b)));
  }

  function IsPort(): Line -> bool {
    (l: Line) => l.Row?
  }

  /** The record has the name of the row and its states in lower case, and every other field is absent. */
  predicate ReadBack(r: Iface, l: Line) {
    && l.Row? && |l.parts| == 11
    && r.name == Concat(l.parts[..5])
    && r.adminStatus == Some(Lower(l.parts[6])) && r.operStatus == Some(Lower(l.parts[10]))
    && r.description == None && r.ipAddress == None && r.speed == None && r.duplex == None
    && r.inputRate == None && r.outputRate == None && r.inputErrors == None && r.outputErrors == None
  }

  lemma RecordReadsBack(l: Line)
    requires ValidLine(l) && l.Row?
    ensures ReadBack(Record(GroupsOf(l.parts)), l)
  {
    NameOf(l.parts);
  }

  ghost predicate RowsMatch(ports: seq<Groups>, rows: seq<Line>) {
    |ports| == |rows| && forall i :: 0 <= i < |rows| ==>
      rows[i].Row? && ValidLine(rows[i]) && ports[i] == GroupsOf(rows[i].parts)
  }

  lemma RowsMatchPush(l: Line, ports: seq<Groups>, rows: seq<Line>)
    requires ValidLine(l) && RowsMatch(ports, rows)
    ensures RowsMatch(PortOf(l) + ports, (if l.Row? then [l] else []) + rows)
  {
  }

  lemma RowsSplit(lines: seq<Line>)
    requires lines != []
    ensures Filter(IsPort(), lines) == (if lines[0].Row? then [lines[0]] else []) + Filter(IsPort(), lines[1..])
  {
    FilterOne(lines[0]);
    FilterAppend(IsPort(), [lines[0]], lines[1..]);
    assert lines == [lines[0]] + lines[1..];
  }

  lemma {:induction false} PortsAreRows(lines: seq<Line>)
    requires ValidLines(lines)
    ensures RowsMatch(Ports(lines), Filter(IsPort(), lines))
  {
    if lines != [] {
      PortsAreRows(lines[1..]);
      RowsSplit(lines);
      RowsMatchPush(lines[0], Ports(lines[1..]), Filter(IsPort(), lines[1..]));
    }
  }

  lemma FilterOne(l: Line)
    ensures Filter(IsPort(), [l]) == if l.Row? then [l] else []
  {
    assert [] + [l] == [l];
    FilterPush(IsPort(), [], l);
  }

  /** Round trip: rendered rows, with other lines between them, are parsed back one by one, states in lower case. */
  lemma RoundTrip(lines: seq<Line>)
    requires ValidLines(lines)
    ensures Parse(Render(lines)) == RecordsOf(Ports(lines))
    ensures var rows, found := Filter(IsPort(), lines), Parse(Render(lines));
            |found| == |rows| && forall i :: 0 <= i < |rows| ==> ReadBack(found[i], rows[i])
  {
    CompleteRowsAreLocal(lines, "");
    assert Render(lines) + "" == Render(lines);
    var rows := Filter(IsPort(), lines);
    PortsAreRows(lines);
    forall i | 0 <= i < |rows| ensures ReadBack(RecordsOf(Ports(lines))[i], rows[i]) {
      RecordReadsBack(rows[i]);
    }
  }

  /** The first pieces of a row: its name, a gap and its administrative state. */
  predicate IsCutOff(parts: seq<string>) {
    |parts| == 7 && forall i :: 0 <= i < 7 ==> Fits(ROW[i], parts[i])
  }

  /** A row on a line of its own. */
  predicate IsPlainRow(parts: seq<string>) {
    ValidLine(Row(parts, "")) && '\n' !in Concat(parts)
  }

  function Wide(cutOff: seq<string>, row: seq<string>): seq<string>
    requires |cutOff| == 7 && |row| == 11
  {
    cutOff + ["\n", Concat(row[..5]), row[5], row[6]]
  }

  lemma NameFits(row: seq<string>)
    requires IsPlainRow(row)
    ensures Fits(Run(NonSpace, false), Concat(row[..5]))
  {
    assert Fits(ROW[0], row[0]) && Fits(ROW[1], row[1]) && Fits(ROW[2], row[2]);
    assert Fits(ROW[3], row[3]) && Fits(ROW[4], row[4]);
    NonSpaceConcat(row, 5);
    ConcatFrom(row[..5], 0);
    assert row[..5][0..] == row[..5];
  }

  lemma {:induction false} NonSpaceConcat(parts: seq<string>, n: nat)
    requires n <= |parts| && forall i :: 0 <= i < n ==> AllOf(NonSpace, parts[i])
    ensures AllOf(NonSpace, Concat(parts[..n]))
  {
    if n > 0 {
      NonSpaceConcat(parts, n - 1);
      assert parts[..n] == parts[..n - 1] + [parts[n - 1]];
      ConcatAppend(parts[..n - 1], [parts[n - 1]]);
      assert Concat([parts[n - 1]]) == parts[n - 1];
    }
  }

  lemma RowText(row: seq<string>)
    requires |row| == 11
    ensures Concat(row) == Concat(row[..5]) + (row[5] + (row[6] + Concat(row[7..])))
  {
    assert row == row[..5] + row[5..];
    ConcatAppend(row[..5], row[5..]);
    ConcatFrom(row, 5);
    ConcatFrom(row, 6);
  }

  lemma WideText(cutOff: seq<string>, row: seq<string>)
    requires |cutOff| == 7 && |row| == 11
    ensures Concat(cutOff) + "\n" + Concat(row) == Concat(Wide(cutOff, row)) + Concat(row[7..])
  {
    var name := Concat(row[..5]);
    ConcatAppend(cutOff, ["\n", name, row[5], row[6]]);
    RowText(row);
    FourParts("\n", name, row[5], row[6]);
  }

  lemma FourParts(a: string, b: string, c: string, d: string)
    ensures Concat([a, b, c, d]) == a + (b + (c + d))
  {
    assert [d][1..] == [] && Concat([d]) == d;
    assert [c, d][1..] == [d] && Concat([c, d]) == c + d;
    assert [b, c, d][1..] == [c, d] && Concat([b, c, d]) == b + (c + d);
    assert [a, b, c, d][1..] == [b, c, d];
  }

  /**
   * Rows must be complete: the gap after a cut-off row runs over the end of the line, takes the next row's name for
   * its link column and that row's administrative state for its operational one; the next row is lost.
   */
  lemma IncompleteRowSwallows(cutOff: seq<string>, row: seq<string>)
    requires IsCutOff(cutOff) && IsPlainRow(row)
    ensures Parse(Concat(cutOff) + "\n" + Concat(row) + "\n")
         == [Record(Groups(Concat(cutOff[..5]), cutOff[6], row[6]))]
  {
    var wide, tail := Wide(cutOff, row), Concat(row[7..]);
    WideText(cutOff, row);
    WideIsRow(cutOff, row);
    OneRow(wide, tail);
    assert Concat(cutOff) + "\n" + Concat(row) + "\n" == Concat(wide) + tail + "\n";
    WideGroups(cutOff, row);
  }

  lemma OneRow(parts: seq<string>, tail: string)
    requires ValidLine(Row(parts, tail))
    ensures Parse(Concat(parts) + tail + "\n") == [Record(GroupsOf(parts))]
  {
    var lines := [Row(parts, tail)];
    assert lines[1..] == [] && Ports(lines) == [GroupsOf(parts)];
    assert Render(lines) == Concat(parts) + tail + "\n";
    RoundTrip(lines);
  }

  lemma TailOfRow(row: seq<string>)
    requires IsPlainRow(row)
    ensures '\n' !in Concat(row[7..]) && Boundary(Concat(row[7..]))
  {
    assert row == row[..7] + row[7..];
    ConcatAppend(row[..7], row[7..]);
    ConcatFrom(row, 7);
    assert Fits(ROW[7], row[7]);
    assert In(Space, row[7][0]);
  }

  lemma WideIsRow(cutOff: seq<string>, row: seq<string>)
    requires IsCutOff(cutOff) && IsPlainRow(row)
    ensures ValidLine(Row(Wide(cutOff, row), Concat(row[7..])))
  {
    var wide := Wide(cutOff, row);
    TailOfRow(row);
    NameFits(row);
    forall i | 0 <= i < 11 ensures Fits(ROW[i], wide[i]) {
      if i < 7 {
        assert wide[i] == cutOff[i];
      } else if i == 7 {
        assert wide[7] == "\n";
      } else if i == 8 {
        assert ROW[8] == Run(NonSpace, false);
      } else if i == 9 {
        assert Fits(ROW[5], row[5]);
      } else {
        assert Fits(ROW[6], row[6]);
      }
    }
  }

  lemma NameOf(parts: seq<string>)
    requires |parts| >= 5
    ensures Concat(parts[..5]) == parts[0] + parts[1] + parts[2] + parts[3] + parts[4]
  {
    var name := parts[..5];
    FourParts(name[1], name[2], name[3], name[4]);
    assert name[1..] == [name[1], name[2], name[3], name[4]];
  }

  lemma WideGroups(cutOff: seq<string>, row: seq<string>)
    requires |cutOff| == 7 && |row| == 11
    ensures GroupsOf(Wide(cutOff, row)) == Groups(Concat(cutOff[..5]), cutOff[6], row[6])
  {
    NameOf(cutOff);
  }

  const SLOT := ["1", "/", "1", "/"]
  const FIRST := ["1", " ", "Up"]
  const SECOND := ["2", " ", "Down", " "]
  const SECOND_LINK := ["Yes", " ", "Up"]
  const CUT_OFF := "1/1/" + "1 Up"
  const COMPLETE := "1/1/" + ("2 Down " + "Yes Up")

  lemma ThreeParts(a: string, b: string, c: string)
    ensures Concat([a, b, c]) == a + (b + c)
  {
    assert [c][1..] == [] && Concat([c]) == c;
    assert [b, c][1..] == [c] && Concat([b, c]) == b + c;
    assert [a, b, c][1..] == [b, c];
  }

  lemma SlotText()
    ensures Concat(SLOT) == "1/1/"
  {
    FourParts("1", "/", "1", "/");
  }

  lemma CutOffText()
    ensures Concat(SLOT + FIRST) == CUT_OFF
  {
    SlotText();
    ThreeParts("1", " ", "Up");
    ConcatAppend(SLOT, FIRST);
  }

  lemma SecondText()
    ensures Concat(SECOND) == "2 Down " && Concat(SECOND_LINK) == "Yes Up"
  {
    FourParts("2", " ", "Down", " ");
    ThreeParts("Yes", " ", "Up");
  }

  lemma CompleteText()
    ensures Concat(SLOT + (SECOND + SECOND_LINK)) == COMPLETE
  {
    SlotText();
    SecondText();
    ConcatAppend(SECOND, SECOND_LINK);
    ConcatAppend(SLOT, SECOND + SECOND_LINK);
  }

  lemma PartsFit()
    ensures IsCutOff(SLOT + FIRST) && ValidLine(Row(SLOT + (SECOND + SECOND_LINK), ""))
  {
  }

  lemma {:induction false} NoBreaks(parts: seq<string>)
    requires forall i :: 0 <= i < |parts| ==> '\n' !in parts[i]
    ensures '\n' !in Concat(parts)
  {
    if parts != [] {
      NoBreaks(parts[1..]);
    }
  }

  lemma CompleteIsPlain()
    ensures IsPlainRow(SLOT + (SECOND + SECOND_LINK))
  {
    PartsFit();
    NoBreaks(SLOT + (SECOND + SECOND_LINK));
  }

  lemma ExampleName()
    ensures Concat((SLOT + FIRST)[..5]) == "1/1/1"
  {
    NameOf(SLOT + FIRST);
  }

  lemma ExampleRecord()
    ensures Record(Groups("1/1/1", "Up", "Down"))
         == NO_IFACE.(name := "1/1/1", adminStatus := Some("up"), operStatus := Some("down"))
  {
    assert Lower("Up") == "up" && Lower("Down") == "down";
  }

  /**
   * For example, of the lines `1/1/1 Up` and `1/1/2 Down Yes Up`: port 1/1/1, which is up, is reported as
   * operationally down, and port 1/1/2 is not reported at all.
   */
  lemma SwallowedPort()
    ensures Parse(CUT_OFF + "\n" + COMPLETE + "\n")
         == [NO_IFACE.(name := "1/1/1", adminStatus := Some("up"), operStatus := Some("down"))]
  {
    CutOffText();
    CompleteText();
    CompleteIsPlain();
    PartsFit();
    IncompleteRowSwallows(SLOT + FIRST, SLOT + (SECOND + SECOND_LINK));
    ExampleName();
    ExampleRecord();
  }
}
