/** An exact matcher for the header pattern of `show interfaces`, and where its headers can begin and end. */
module Cisco {
  import opened Base
  import opened InterfaceFields
  import opened Patterns
  import opened Scanner
  import opened Tables

  // ---------- The header pattern ----------

  const IS := " is "
  const PROTOCOL := "line protocol is "

  /** `(\S+) is (up|down|administratively down),\s*line protocol is (up|down)`, ignoring case. */
  const HEADER: seq<Piece> := [
    Run(NonSpace, false), Word([IS], true), Word(ADMIN_WORDS, true), Word([","], true),
    Run(Space, true), Word([PROTOCOL], true), Word(OPER_WORDS, true)]

  function GroupsOf(m: Matched): Groups
    requires |m.parts| == 7
  {
    Groups(m.parts[0], m.parts[2], m.parts[6])
  }

  /** The match of a text of length `n`. */
  function AsFound(m: Option<Matched>, n: nat): Option<Found>
    requires m.Some? ==> |m.value.parts| == 7 && |m.value.rest| < n
  {
    if m == None then None else Some(Found(GroupsOf(m.value), n - |m.value.rest|))
  }

  function MatchHeader(t: string): Option<Found> {
    AsFound(Match(HEADER, t), |t|)
  }

  lemma HeaderIsDeterministic()
    ensures Deterministic(HEADER) && OneLineWords(HEADER)
  {
    WordsAreDistinct();
  }

  /**
   * A header, letter by letter: a name without white space, ` is `, an administrative state, a comma, white space or
   * none, `line protocol is ` and an operational state, in any case of letters.
   */
  predicate HeaderText(
    t: string, name: string, verb: string, admin: string, gap: string, protocol: string, oper: string, rest: string)
  {
    && t == name + (verb + (admin + ("," + (gap + (protocol + (oper + rest))))))
    && name != "" && (forall i :: 0 <= i < |name| ==> !IsSpace(name[i]))
    && (forall i :: 0 <= i < |gap| ==> IsSpace(gap[i]))
    && Lower(verb) == " is " && Lower(protocol) == "line protocol is "
    && (Lower(admin) == "up" || Lower(admin) == "down" || Lower(admin) == "administratively down")
    && (Lower(oper) == "up" || Lower(oper) == "down")
  }

  ghost predicate IsHeader(t: string, g: Groups, rest: string) {
    exists name, verb, admin, gap, protocol, oper ::
      HeaderText(t, name, verb, admin, gap, protocol, oper, rest) && g == Groups(name, admin, oper)
  }

  lemma SevenParts(parts: seq<string>, rest: string)
    requires |parts| == 7
    ensures Concat(parts) + rest
         == parts[0] + (parts[1] + (parts[2] + (parts[3] + (parts[4] + (parts[5] + (parts[6] + rest))))))
  {
    var a, b := [parts[0], parts[1], parts[2]], [parts[3], parts[4], parts[5], parts[6]];
    assert parts == a + b;
    SpreadText(parts, rest);
    SpreadAppend(a, b, rest);
    SpreadFour(parts[3], parts[4], parts[5], parts[6], rest);
    SpreadThree(parts[0], parts[1], parts[2], Spread(b, rest));
  }

  lemma CommaExact(comma: string)
    ensures Lower(comma) == "," <==> comma == ","
  {
    assert Lower(comma) == "," ==> |comma| == 1 && LowerChar(comma[0]) == ',';
    assert comma == "," ==> Lower(comma) == [LowerChar(',')];
  }

  /** The parts of the pattern are those of the text. */
  lemma PartsExact(t: string, parts: seq<string>, rest: string)
    requires |parts| == 7
    ensures Cut(HEADER, t, Matched(parts, rest))
       <==> parts[3] == "," && HeaderText(t, parts[0], parts[1], parts[2], parts[4], parts[5], parts[6], rest)
  {
    SevenParts(parts, rest);
    FitsExact(parts);
    WordsExact(Lower(parts[2]));
    WordsExact(Lower(parts[6]));
  }

  lemma FitsExact(parts: seq<string>)
    requires |parts| == 7
    ensures (forall i :: 0 <= i < |HEADER| ==> Fits(HEADER[i], parts[i])) <==>
              && parts[0] != "" && (forall i :: 0 <= i < |parts[0]| ==> !IsSpace(parts[0][i]))
              && Lower(parts[1]) == IS && Lower(parts[2]) in ADMIN_WORDS && parts[3] == ","
              && (forall i :: 0 <= i < |parts[4]| ==> IsSpace(parts[4][i]))
              && Lower(parts[5]) == PROTOCOL && Lower(parts[6]) in OPER_WORDS
  {
    OneOf(Lower(parts[1]), IS);
    OneOf(Lower(parts[3]), ",");
    OneOf(Lower(parts[5]), PROTOCOL);
    CommaExact(parts[3]);
  }

  lemma HeaderSound(t: string)
    requires MatchHeader(t).Some?
    ensures var found := MatchHeader(t).value;
            found.length <= |t| && IsHeader(t, found.groups, t[found.length..])
  {
    MatchSound(HEADER, t);
    var m := Match(HEADER, t).value;
    var parts := m.parts;
    assert t[|t| - |m.rest|..] == m.rest;
    PartsExact(t, parts, m.rest);
    assert HeaderText(t, parts[0], parts[1], parts[2], parts[4], parts[5], parts[6], m.rest);
  }

  lemma PartsComplete(t: string, m: Matched)
    requires Cut(HEADER, t, m)
    ensures Match(HEADER, t) == Some(m)
  {
    HeaderIsDeterministic();
    MatchComplete(HEADER, t, m);
  }

  lemma TextFound(
    t: string, name: string, verb: string, admin: string, gap: string, protocol: string, oper: string, rest: string)
    requires HeaderText(t, name, verb, admin, gap, protocol, oper, rest)
    ensures |rest| < |t| && MatchHeader(t) == Some(Found(Groups(name, admin, oper), |t| - |rest|))
  {
    var parts := [name, verb, admin, ",", gap, protocol, oper];
    PartsExact(t, parts, rest);
    PartsComplete(t, Matched(parts, rest));
  }

  lemma HeaderComplete(t: string, g: Groups, rest: string)
    requires IsHeader(t, g, rest)
    ensures |rest| < |t| && MatchHeader(t) == Some(Found(g, |t| - |rest|))
  {
    var name, verb, admin, gap, protocol, oper :|
      HeaderText(t, name, verb, admin, gap, protocol, oper, rest) && g == Groups(name, admin, oper);
    TextFound(t, name, verb, admin, gap, protocol, oper, rest);
  }

  /** The matcher accepts exactly the texts of the pattern, with the only groups and length they allow. */
  lemma HeaderExact(t: string, found: Found)
    ensures MatchHeader(t) == Some(found)
       <==> found.length <= |t| && IsHeader(t, found.groups, t[found.length..])
  {
    if MatchHeader(t) == Some(found) {
      HeaderSound(t);
    }
    if found.length <= |t| && IsHeader(t, found.groups, t[found.length..]) {
      HeaderComplete(t, found.groups, t[found.length..]);
    }
  }

  // ---------- Headers and line ends ----------

  predicate StartsProtocol(t: string) {
    |t| >= 17 && Lower(t[..17]) == PROTOCOL
  }

  /** `line protocol is ...` is not a header itself: its name would be `line`, and no ` is ` follows. */
  lemma ProtocolIsNoHeader(t: string)
    requires StartsProtocol(t)
    ensures MatchHeader(t) == None
  {
    var l := Lower(t[..17]);
    forall i | 0 <= i < 17 ensures LowerChar(t[i]) == PROTOCOL[i] {
      assert l[i] == LowerChar(t[..17][i]);
    }
    var name, u := t[..4], t[4..];
    assert t == name + u;
    assert forall i :: 0 <= i < 4 ==> name[i] == t[i];
    TakeWhileExact(NonSpace, name, u);
    NoIs(u);
    NameThenNoIs(t, name, u);
  }

  lemma NameThenNoIs(t: string, name: string, u: string)
    requires t == name + u && TakeWhile(NonSpace, t) == name && Take(Word([IS], true), u) == None
    ensures MatchHeader(t) == None
  {
    var later := HEADER[1..];
    assert later[0] == Word([IS], true);
    assert t[|name|..] == u;
    assert Match(later, u) == None;
  }

  lemma NoIs(u: string)
    requires |u| > 1 && LowerChar(u[1]) == 'p'
    ensures Take(Word([IS], true), u) == None
  {
    if |u| >= 4 {
      assert Lower(u[..4])[1] == LowerChar(u[1]);
    }
  }

  lemma NotProtocol(t: string)
    requires !StartsProtocol(t)
    ensures Match(HEADER[5..], t) == None
  {
    assert HEADER[5..][0] == Word([PROTOCOL], true);
    assert Take(Word([PROTOCOL], true), t) == None;
  }

  predicate StartsHeader(b: string) {
    MatchHeader(b).Some?
  }

  lemma HeaderStartsNonSpace(b: string)
    requires StartsHeader(b)
    ensures b != [] && !IsSpace(b[0])
  {
  }

  /** White space at the end of a text cannot be the gap of a header that is completed by what follows. */
  lemma NothingReached(b: string)
    requires !StartsProtocol(Rest(Space, b))
    ensures Unreachable(HEADER, b)
  {
    forall i | 0 <= i < |HEADER| && HEADER[i].Run? && HEADER[i].kind == Space
      ensures Match(HEADER[i + 1..], Rest(Space, b)) == None
    {
      assert i == 4;
      NotProtocol(Rest(Space, b));
    }
  }

  lemma HeaderSeam(u: string, b: string)
    requires EndsLine(u) && Unreachable(HEADER, b)
    ensures MatchHeader(u + b) == MatchHeader(u)
  {
    HeaderIsDeterministic();
    MatchSeam(HEADER, u, b);
    SameFound(Match(HEADER, u), u, b);
  }

  lemma SameFound(m: Option<Matched>, u: string, b: string)
    requires m.Some? ==> |m.value.parts| == 7 && |m.value.rest| < |u|
    ensures AsFound(WithRest(m, b), |u + b|) == AsFound(m, |u|)
  {
  }

  /** No header straddles the end of a line, unless the text after it begins with the protocol clause. */
  lemma HeaderIsLocal(b: string)
    requires !StartsProtocol(Rest(Space, b))
    ensures Independent(MatchHeader, b)
  {
    NothingReached(b);
    forall u: string | EndsLine(u) ensures MatchHeader(u + b) == MatchHeader(u) {
      HeaderSeam(u, b);
    }
  }

  lemma HeaderFollows(b: string)
    requires b == [] || StartsHeader(b)
    ensures Independent(MatchHeader, b)
  {
    if b != [] {
      HeaderStartsNonSpace(b);
      assert [] + b == b;
      TakeWhileExact(Space, [], b);
      if StartsProtocol(b) {
        ProtocolIsNoHeader(b);
      }
    }
    HeaderIsLocal(b);
  }

  lemma HeaderStaysInside()
    ensures StaysInside(MatchHeader)
  {
  }

  lemma SpaceIsNoHeader(t: string)
    requires t != [] && IsSpace(t[0])
    ensures MatchHeader(t) == None
  {
  }

  lemma GapParts(m: Matched, t: string)
    requires Cut(HEADER, t, m)
    ensures AllOf(Space, m.parts[4]) && Lower(m.parts[5]) == PROTOCOL
  {
    assert Fits(HEADER[4], m.parts[4]) && Fits(HEADER[5], m.parts[5]);
  }

  lemma AfterGap(t: string, m: Matched, q: nat)
    requires Cut(HEADER, t, m) && 0 < q < |t| - |m.rest| && t[q - 1] == '\n'
    ensures MatchHeader(t[q..]) == None
  {
    GapParts(m, t);
    OnlyTheGapBreaks();
    var k := BreakIsInPart(HEADER, 4, t, m, q);
    ConcatFrom(m.parts, 5);
    var tail := Concat(m.parts[6..]) + m.rest;
    assert Concat(m.parts[5..]) + m.rest == m.parts[5] + tail;
    AfterBreak(t[q..], m.parts[4][k..], m.parts[5], tail);
  }

  lemma OnlyTheGapBreaks()
    ensures forall j :: 0 <= j < |HEADER| && j != 4 ==> OneLine(HEADER[j])
  {
  }

  lemma AfterBreak(t: string, gap: string, protocol: string, tail: string)
    requires t == gap + (protocol + tail) && AllOf(Space, gap) && Lower(protocol) == PROTOCOL
    ensures MatchHeader(t) == None
  {
    if gap != [] {
      SpaceIsNoHeader(t);
    } else {
      assert t[..17] == protocol;
      ProtocolIsNoHeader(t);
    }
  }

  /** No header begins on a line inside another header. */
  lemma HeadersDoNotNest()
    ensures Solid(MatchHeader)
  {
    forall t: string, q | MatchHeader(t).Some? && 0 < q < MatchHeader(t).value.length <= |t| && t[q - 1] == '\n'
      ensures MatchHeader(t[q..]) == None
    {
      MatchSound(HEADER, t);
      AfterGap(t, Match(HEADER, t).value, q);
    }
  }
}
