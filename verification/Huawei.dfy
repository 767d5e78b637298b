/**
 * The `display interface` parser: an exact matcher for its header pattern, one record per header, and exactly when an
 * output can be parsed apart from what precedes it.
 */
module Huawei {
  import opened Base
  import opened InterfaceFields
  import opened Patterns
  import opened Reports
  import opened Scanner
  import opened Tables

  // ---------- The header pattern ----------

  const CURRENT := " current state"
  const PROTOCOL := "line protocol current state"

  /**
   * `(\S+) current state\s*:\s*(UP|DOWN|Administratively DOWN)\s*\r?\nLine protocol current state\s*:\s*(UP|DOWN)`,
   * ignoring case; that part 6 ends with a line break is left to `MatchHeader`.
   */
  const HEADER: seq<Piece> := [
    Run(NonSpace, false), Word([CURRENT], true), Run(Space, true), Word([":"], true), Run(Space, true),
    Word(ADMIN_WORDS, true), Run(Space, false), Word([PROTOCOL], true), Run(Space, true), Word([":"], true),
    Run(Space, true), Word(OPER_WORDS, true)]

  function GroupsOf(parts: seq<string>): Groups
    requires |parts| == 12
  {
    Groups(parts[0], parts[5], parts[11])
  }

  /** The match of a text of length `n`, if the protocol clause is on a line of its own. */
  function AsFound(m: Option<Matched>, n: nat): Option<Found>
    requires m.Some? ==> |m.value.parts| == 12 && |m.value.rest| < n
  {
    if m == None || !EndsLine(m.value.parts[6]) then None else Some(Found(GroupsOf(m.value.parts), n - |m.value.rest|))
  }

  function MatchHeader(t: string): Option<Found> {
    AsFound(Match(HEADER, t), |t|)
  }

  lemma WordsBegin()
    ensures CURRENT != "" && CURRENT[0] == ' ' && PROTOCOL != "" && PROTOCOL[0] == 'l'
    ensures forall w :: w in ADMIN_WORDS || w in OPER_WORDS ==> w != "" && w[0] in {'u', 'd', 'a'}
  {
  }

  lemma FirstRunsStop()
    ensures Stops(NonSpace, HEADER[1]) && Stops(Space, HEADER[3]) && Stops(Space, HEADER[5])
  {
    WordsBegin();
  }

  lemma LastRunsStop()
    ensures Stops(Space, HEADER[7]) && Stops(Space, HEADER[9]) && Stops(Space, HEADER[11])
  {
    WordsBegin();
  }

  lemma RunsStop()
    ensures forall i :: 0 <= i < |HEADER| && HEADER[i].Run? ==>
              i + 1 < |HEADER| && Stops(HEADER[i].kind, HEADER[i + 1])
  {
    FirstRunsStop();
    LastRunsStop();
  }

  lemma OneWordIsFree(w: string)
    ensures PrefixFree([w])
  {
  }

  lemma WordsAreFree()
    ensures forall i :: 0 <= i < |HEADER| && HEADER[i].Word? ==> PrefixFree(HEADER[i].words)
  {
    WordsAreDistinct();
    OneWordIsFree(CURRENT);
    OneWordIsFree(":");
    OneWordIsFree(PROTOCOL);
  }

  lemma HeaderIsDeterministic()
    ensures Deterministic(HEADER)
  {
    RunsStop();
    WordsAreFree();
  }

  lemma HeaderIsOneLine()
    ensures OneLineWords(HEADER)
  {
  }

  /** `\s*\r?\n` */
  ghost predicate BreaksLine(s: string) {
    exists w: string, r: string :: AllOf(Space, w) && (r == "" || r == "\r") && s == (w + r) + "\n"
  }

  lemma BreaksLineExact(s: string)
    ensures BreaksLine(s) <==> AllOf(Space, s) && EndsLine(s)
  {
    if AllOf(Space, s) && EndsLine(s) {
      var w := s[..|s| - 1];
      assert s == (w + "") + "\n";
    }
  }

  /** The pieces of a header as they are written; the gaps are white space. */
  datatype Written = Written(
    name: string, current: string, gap1: string, gap2: string, admin: string, lineBreak: string,
    protocol: string, gap3: string, gap4: string, oper: string)

  predicate Blank(s: string) {
    forall i :: 0 <= i < |s| ==> IsSpace(s[i])
  }

  /**
   * A header, letter by letter: a name without white space, ` current state`, a colon, an administrative state, white
   * space that ends a line, `line protocol current state`, a colon and an operational state, in any case of letters.
   */
  ghost predicate HeaderText(t: string, h: Written, rest: string) {
    && t == h.name + (h.current + (h.gap1 + (":" + (h.gap2 + (h.admin + (h.lineBreak
              + (h.protocol + (h.gap3 + (":" + (h.gap4 + (h.oper + rest)))))))))))
    && h.name != "" && (forall i :: 0 <= i < |h.name| ==> !IsSpace(h.name[i]))
    && Blank(h.gap1) && Blank(h.gap2) && Blank(h.gap3) && Blank(h.gap4) && BreaksLine(h.lineBreak)
    && Lower(h.current) == " current state" && Lower(h.protocol) == "line protocol current state"
    && (Lower(h.admin) == "up" || Lower(h.admin) == "down" || Lower(h.admin) == "administratively down")
    && (Lower(h.oper) == "up" || Lower(h.oper) == "down")
  }

  ghost predicate IsHeader(t: string, g: Groups, rest: string) {
    exists h: Written :: HeaderText(t, h, rest) && g == Groups(h.name, h.admin, h.oper)
  }

  function PartsOf(h: Written): seq<string> {
    [h.name, h.current, h.gap1, ":", h.gap2, h.admin, h.lineBreak, h.protocol, h.gap3, ":", h.gap4, h.oper]
  }

  lemma TwelveParts(parts: seq<string>, rest: string)
    requires |parts| == 12
    ensures Concat(parts) + rest
         == parts[0] + (parts[1] + (parts[2] + (parts[3] + (parts[4] + (parts[5] + (parts[6]
              + (parts[7] + (parts[8] + (parts[9] + (parts[10] + (parts[11] + rest)))))))))))
  {
    var a, b, c := [parts[0], parts[1], parts[2], parts[3]], [parts[4], parts[5], parts[6], parts[7]], parts[8..];
    assert parts == a + (b + c) && c == [parts[8], parts[9], parts[10], parts[11]];
    SpreadText(parts, rest);
    SpreadAppend(a, b + c, rest);
    SpreadAppend(b, c, rest);
    SpreadFour(parts[8], parts[9], parts[10], parts[11], rest);
    SpreadFour(parts[4], parts[5], parts[6], parts[7], Spread(c, rest));
    SpreadFour(parts[0], parts[1], parts[2], parts[3], Spread(b + c, rest));
  }

  lemma FirstFit(parts: seq<string>)
    requires |parts| == 12
    ensures (forall i :: 0 <= i < 6 ==> Fits(HEADER[i], parts[i])) <==>
              && parts[0] != "" && (forall i :: 0 <= i < |parts[0]| ==> !IsSpace(parts[0][i]))
              && Lower(parts[1]) == CURRENT && Blank(parts[2]) && parts[3] == ":" && Blank(parts[4])
              && Lower(parts[5]) in ADMIN_WORDS
  {
    OneOf(Lower(parts[1]), CURRENT);
    OneOf(Lower(parts[3]), ":");
    ColonExact(parts[3]);
  }

  lemma LastFit(parts: seq<string>)
    requires |parts| == 12
    ensures (forall i :: 6 <= i < 12 ==> Fits(HEADER[i], parts[i])) <==>
              && parts[6] != "" && Blank(parts[6]) && Lower(parts[7]) == PROTOCOL && Blank(parts[8])
              && parts[9] == ":" && Blank(parts[10]) && Lower(parts[11]) in OPER_WORDS
  {
    OneOf(Lower(parts[7]), PROTOCOL);
    OneOf(Lower(parts[9]), ":");
    ColonExact(parts[9]);
  }

  lemma ColonExact(colon: string)
    ensures Lower(colon) == ":" <==> colon == ":"
  {
    assert Lower(colon) == ":" ==> |colon| == 1 && LowerChar(colon[0]) == ':';
    assert colon == ":" ==> Lower(colon) == [LowerChar(':')];
  }

  lemma AllFit(parts: seq<string>)
    requires |parts| == 12
    ensures (forall i :: 0 <= i < |HEADER| ==> Fits(HEADER[i], parts[i]))
       <==> (forall i :: 0 <= i < 6 ==> Fits(HEADER[i], parts[i]))
            && (forall i :: 6 <= i < 12 ==> Fits(HEADER[i], parts[i]))
  {
  }

  /** The parts of the pattern are the pieces of the text. */
  lemma PartsExact(t: string, h: Written, rest: string)
    ensures HeaderText(t, h, rest) <==> Cut(HEADER, t, Matched(PartsOf(h), rest)) && BreaksLine(h.lineBreak)
  {
    TwelveParts(PartsOf(h), rest);
    FirstFit(PartsOf(h));
    LastFit(PartsOf(h));
    AllFit(PartsOf(h));
    WordsExact(Lower(h.admin));
    WordsExact(Lower(h.oper));
    BreaksLineExact(h.lineBreak);
  }

  function WrittenFrom(parts: seq<string>): Written
    requires |parts| == 12
  {
    Written(parts[0], parts[1], parts[2], parts[4], parts[5], parts[6], parts[7], parts[8], parts[10], parts[11])
  }

  lemma ColonsFit(t: string, parts: seq<string>, rest: string)
    requires Cut(HEADER, t, Matched(parts, rest))
    ensures parts == PartsOf(WrittenFrom(parts))
  {
    assert Fits(HEADER[3], parts[3]) && Fits(HEADER[9], parts[9]);
    FirstFit(parts);
    LastFit(parts);
  }

  lemma HeaderSound(t: string)
    requires MatchHeader(t).Some?
    ensures var found := MatchHeader(t).value;
            found.length <= |t| && IsHeader(t, found.groups, t[found.length..])
  {
    MatchSound(HEADER, t);
    var m := Match(HEADER, t).value;
    assert t[|t| - |m.rest|..] == m.rest;
    assert Fits(HEADER[6], m.parts[6]);
    BreaksLineExact(m.parts[6]);
    ColonsFit(t, m.parts, m.rest);
    PartsExact(t, WrittenFrom(m.parts), m.rest);
    assert HeaderText(t, WrittenFrom(m.parts), m.rest);
  }

  lemma PartsComplete(t: string, m: Matched)
    requires Cut(HEADER, t, m)
    ensures Match(HEADER, t) == Some(m)
  {
    HeaderIsDeterministic();
    MatchComplete(HEADER, t, m);
  }

  lemma PartsFound(t: string, m: Matched)
    requires Cut(HEADER, t, m) && BreaksLine(m.parts[6])
    ensures |m.rest| < |t| && MatchHeader(t) == Some(Found(GroupsOf(m.parts), |t| - |m.rest|))
  {
    PartsComplete(t, m);
    BreaksLineExact(m.parts[6]);
  }

  lemma TextFound(t: string, h: Written, rest: string)
    requires HeaderText(t, h, rest)
    ensures |rest| < |t| && MatchHeader(t) == Some(Found(Groups(h.name, h.admin, h.oper), |t| - |rest|))
  {
    PartsExact(t, h, rest);
    PartsFound(t, Matched(PartsOf(h), rest));
  }

  lemma HeaderComplete(t: string, g: Groups, rest: string)
    requires IsHeader(t, g, rest)
    ensures |rest| < |t| && MatchHeader(t) == Some(Found(g, |t| - |rest|))
  {
    var h: Written :| HeaderText(t, h, rest) && g == Groups(h.name, h.admin, h.oper);
    TextFound(t, h, rest);
  }

  /** The matcher accepts exactly the texts of the pattern, with the only groups and length they allow. */
  lemma HeaderExact(t: string, found: Found)
    ensures MatchHeader(t) == Some(found)
       <==> found.length <= |t| && IsHeader(t, found.groups, t[found.length..])
  {
    if MatchHeader(t) == Some(found) {
      HeaderSound(t);
    }
    if found.length <= |t| && IsHeader(t, found.groups, t[found.length..]) {
      HeaderComplete(t, found.groups, t[found.length..]);
    }
  }

  // ---------- The parser ----------

  function Parse(s: string, extract: Extract): seq<ParsedIface> {
    Reports.Parse(MatchHeader, s, ReadWith(extract))
  }

  method ParseHuaweiInterfaces(output: string, extract: Extract) returns (interfaces: seq<ParsedIface>)
    ensures interfaces == Parse(output, extract)
  {
    var headers := Headers(MatchHeader, output);
    interfaces := [];
    for i := 0 to |headers|
      invariant interfaces == Parse(output, extract)[..i]
    {
      var end := if i + 1 < |headers| then headers[i + 1].start else |output|;
      var block := output[headers[i].start..end];
      var fields := extract(block);
      interfaces := interfaces + [Record(headers[i].groups, fields)];
      TakePush(Parse(output, extract), i);
    }
  }

  lemma HeaderWords(t: string)
    requires MatchHeader(t).Some?
    ensures NormalWords(MatchHeader(t).value.groups)
  {
    MatchSound(HEADER, t);
    var m := Match(HEADER, t).value;
    assert Fits(HEADER[5], m.parts[5]) && Fits(HEADER[11], m.parts[11]);
  }

  /** Every record has the name of its header, and its states are "up" or "down" as the header said. */
  lemma StatesAreNormal(s: string, i: nat, extract: Extract)
    requires i < |Headers(MatchHeader, s)|
    ensures NormalRecord(Headers(MatchHeader, s)[i].groups, Parse(s, extract)[i])
    ensures CarriesFields(Parse(s, extract)[i], extract(Block(s, Headers(MatchHeader, s), i)))
  {
    HeaderAt(MatchHeader, s, i);
    HeaderWords(s[Headers(MatchHeader, s)[i].start..]);
    RecordAt(MatchHeader, s, i, extract);
  }

  /**
   * A header, whatever follows it, is read back: the record has its name, is administratively up exactly when the first
   * state is `up`, and has the second state for its operational one.
   */
  lemma HeaderReadBack(t: string, h: Written, rest: string, extract: Extract)
    requires HeaderText(t, h, rest)
    ensures Parse(t, extract) != []
    ensures var r := Parse(t, extract)[0];
            && r.name == h.name
            && r.adminStatus == Some(if Lower(h.admin) == "up" then "up" else "down")
            && r.operStatus == Some(Lower(h.oper))
  {
    TextFound(t, h, rest);
    HeaderStaysInside();
    HeaderWords(t);
    FirstRecord(MatchHeader, t, extract);
  }

  lemma HeaderStaysInside()
    ensures StaysInside(MatchHeader)
  {
  }

  // ---------- What a header cannot complete ----------

  /** The beginnings of names that are read as the end of a protocol clause cut off before its state. */
  const STATE_STARTS := ["up", "down", ":up", ":down"]

  predicate BeginsWithState(name: string) {
    exists w :: w in STATE_STARTS && w <= Lower(name)
  }

  /** `b` begins with a name of `n` characters and ` current`. */
  predicate NamedAt(b: string, n: nat) {
    && 0 < n && n + 2 < |b| && b[n] == ' ' && LowerChar(b[n + 1]) == 'c'
    && forall i :: 0 <= i < n ==> !IsSpace(b[i])
  }

  lemma HeaderBegins(b: string, m: Matched) returns (current: string, tail: string)
    requires Cut(HEADER, b, m)
    ensures b == m.parts[0] + (current + tail) && Lower(current) == CURRENT
    ensures m.parts[0] != "" && AllOf(NonSpace, m.parts[0])
  {
    CutPop(HEADER, b, m);
    CutPop(HEADER[1..], Concat(m.parts[1..]) + m.rest, Matched(m.parts[1..], m.rest));
    current := m.parts[1..][0];
    tail := Concat(m.parts[1..][1..]) + m.rest;
    assert Fits(HEADER[1], current);
  }

  lemma NameEnds(b: string, name: string, current: string, tail: string)
    requires b == name + (current + tail) && Lower(current) == CURRENT && name != "" && AllOf(NonSpace, name)
    ensures NamedAt(b, |name|) && b[..|name|] == name
  {
    assert LowerChar(current[0]) == CURRENT[0] == ' ' && LowerChar(current[1]) == CURRENT[1] == 'c';
    assert b[|name|] == current[0] && b[|name| + 1] == current[1];
    assert forall i :: 0 <= i < |name| ==> b[i] == name[i];
  }

  lemma HeaderNamed(b: string)
    requires MatchHeader(b).Some?
    ensures var n := |MatchHeader(b).value.groups.name|;
            NamedAt(b, n) && b[..n] == MatchHeader(b).value.groups.name
  {
    MatchSound(HEADER, b);
    var m := Match(HEADER, b).value;
    var current, tail := HeaderBegins(b, m);
    NameEnds(b, m.parts[0], current, tail);
  }

  /** A word at the beginning of such a text that is longer than the name has ` c` where the name ends. */
  lemma WordPastName(b: string, n: nat, w: string)
    requires NamedAt(b, n) && |w| <= |b| && Lower(b[..|w|]) == w
    ensures n < |w| ==> w[n] == ' '
    ensures n + 1 < |w| ==> w[n + 1] == 'c'
    ensures forall i :: 0 <= i < n && i < |w| ==> w[i] != ' '
  {
    forall i | 0 <= i < |w| ensures w[i] == LowerChar(b[i]) {
      assert b[..|w|][i] == b[i];
    }
  }

  lemma LongWords()
    ensures ADMIN_WORDS[2] == "administratively down" && ADMIN_WORDS[2][16] == ' ' && ADMIN_WORDS[2][17] == 'd'
    ensures |PROTOCOL| > 5 && PROTOCOL[4] == ' ' && PROTOCOL[5] == 'p'
  {
  }

  /** A state at the beginning of such a text is one at the beginning of the name. */
  lemma StateAtName(b: string, n: nat, v: string)
    requires NamedAt(b, n) && v <= b && Lower(v) in ADMIN_WORDS
    ensures |v| <= n && (Lower(v) == "up" || Lower(v) == "down")
  {
    assert b[..|v|] == v;
    LongWords();
    WordPastName(b, n, Lower(v));
  }

  lemma LowerPrefix(v: string, b: string, n: nat)
    requires v <= b && |v| <= n <= |b|
    ensures Lower(v) <= Lower(b[..n])
  {
    assert forall i :: 0 <= i < |v| ==> Lower(v)[i] == Lower(b[..n])[i];
  }

  lemma StateBegins(b: string, n: nat, v: string)
    requires NamedAt(b, n) && v <= b && Lower(v) in ADMIN_WORDS
    ensures BeginsWithState(b[..n])
  {
    StateAtName(b, n, v);
    LowerPrefix(v, b, n);
    assert STATE_STARTS[0] == "up" && STATE_STARTS[1] == "down";
    assert Lower(v) in STATE_STARTS;
  }

  lemma NoStateAtName(b: string, n: nat, words: seq<string>)
    requires NamedAt(b, n) && !BeginsWithState(b[..n]) && (words == ADMIN_WORDS || words == OPER_WORDS)
    ensures Take(Word(words, true), b) == None
  {
    var r := TakeWord(words, true, b);
    if r.Some? {
      StateBegins(b, n, r.value);
    }
  }

  lemma StateAt(b: string, v: string)
    requires v <= b && Lower(v) in ADMIN_WORDS
    ensures b != "" && LowerChar(b[0]) in {'u', 'd', 'a'}
  {
    WordsBegin();
    assert Lower(v) != "" && Lower(v)[0] == LowerChar(v[0]);
  }

  lemma NoStateAtC(b: string, words: seq<string>)
    requires b != "" && LowerChar(b[0]) == 'c' && (words == ADMIN_WORDS || words == OPER_WORDS)
    ensures Take(Word(words, true), b) == None
  {
    var r := TakeWord(words, true, b);
    if r.Some? {
      StateAt(b, r.value);
    }
  }

  lemma NothingSkipped(b: string)
    requires b != "" && !IsSpace(b[0])
    ensures Rest(Space, b) == b
  {
    assert "" + b == b;
    TakeWhileExact(Space, "", b);
  }

  lemma ColonAndState(v: string, b: string, n: nat)
    requires |b| > 0 && b[0] == ':' && v <= b[1..] && |v| + 1 <= n <= |b| && (Lower(v) == "up" || Lower(v) == "down")
    ensures BeginsWithState(b[..n])
  {
    LowerPrefix([':'] + v, b, n);
    assert Lower([':'] + v) == [':'] + Lower(v);
    assert STATE_STARTS[2] == [':'] + "up" && STATE_STARTS[3] == [':'] + "down";
    assert Lower([':'] + v) in STATE_STARTS;
  }

  lemma StateAfterColon(b: string, n: nat, v: string)
    requires NamedAt(b, n) && n > 1 && b[0] == ':' && v <= b[1..] && Lower(v) in ADMIN_WORDS
    ensures BeginsWithState(b[..n])
  {
    assert NamedAt(b[1..], n - 1);
    StateAtName(b[1..], n - 1, v);
    ColonAndState(v, b, n);
  }

  lemma NoStateAfterColon(b: string, n: nat, words: seq<string>)
    requires NamedAt(b, n) && b[0] == ':' && !BeginsWithState(b[..n]) && (words == ADMIN_WORDS || words == OPER_WORDS)
    ensures Take(Word(words, true), Rest(Space, b[1..])) == None
  {
    var later := b[1..];
    if n == 1 {
      assert later == " " + later[1..];
      TakeWhileExact(Space, " ", later[1..]);
      NoStateAtC(later[1..], words);
    } else {
      NothingSkipped(later);
      var r := TakeWord(words, true, later);
      if r.Some? {
        StateAfterColon(b, n, r.value);
      }
    }
  }

  lemma ProtocolIsNoName(b: string, n: nat, v: string)
    requires v <= b && Lower(v) == PROTOCOL
    ensures !NamedAt(b, n)
  {
    LongWords();
    assert b[..|v|] == v;
    if NamedAt(b, n) {
      WordPastName(b, n, PROTOCOL);
    }
  }

  lemma NoProtocol(b: string, n: nat)
    requires NamedAt(b, n)
    ensures Take(Word([PROTOCOL], true), b) == None
  {
    var r := TakeWord([PROTOCOL], true, b);
    if r.Some? {
      ProtocolIsNoName(b, n, r.value);
    }
  }

  lemma WordThenNothing(ps: seq<Piece>, t: string)
    requires ps != [] && Take(ps[0], t) == None
    ensures Match(ps, t) == None
  {
  }

  lemma NoColonClause(b: string, n: nat, j: nat)
    requires NamedAt(b, n) && !BeginsWithState(b[..n]) && (j == 3 || j == 9)
    ensures Match(HEADER[j..], b) == None
  {
    var ps := HEADER[j..];
    assert ps[0] == Word([":"], true) && ps[1..] == HEADER[j + 1..];
    var r := TakeWord([":"], true, b);
    if r.Some? {
      assert Lower(r.value) == ":" && r.value[0] == b[0];
      var words := if j == 3 then ADMIN_WORDS else OPER_WORDS;
      var later := HEADER[j + 1..];
      assert later[0] == Run(Space, true) && later[1..] == HEADER[j + 2..] && HEADER[j + 2..][0] == Word(words, true);
      NoStateAfterColon(b, n, words);
      WordThenNothing(HEADER[j + 2..], Rest(Space, b[1..]));
      RunThenNothing(later, b[1..]);
      MatchStep(ps, b, r.value, b[1..]);
    }
  }

  /** No name but one that begins with a state can complete a header that is cut off before it. */
  lemma NothingReached(b: string, n: nat)
    requires NamedAt(b, n) && !BeginsWithState(b[..n])
    ensures Unreachable(HEADER, b)
  {
    NothingSkipped(b);
    forall i | 0 <= i < |HEADER| && HEADER[i].Run? && HEADER[i].kind == Space
      ensures Match(HEADER[i + 1..], Rest(Space, b)) == None
    {
      ReachesNothing(b, n, i);
    }
  }

  lemma ReachesNothing(b: string, n: nat, i: nat)
    requires NamedAt(b, n) && !BeginsWithState(b[..n])
    requires i < |HEADER| && HEADER[i].Run? && HEADER[i].kind == Space
    ensures Match(HEADER[i + 1..], b) == None
  {
    if i == 2 || i == 8 {
      NoColonClause(b, n, i + 1);
    } else if i == 6 {
      NoProtocol(b, n);
      WordThenNothing(HEADER[7..], b);
    } else {
      assert i == 4 || i == 10;
      NoStateAtName(b, n, if i == 4 then ADMIN_WORDS else OPER_WORDS);
      WordThenNothing(HEADER[i + 1..], b);
    }
  }

  lemma HeaderSeam(u: string, b: string)
    requires EndsLine(u) && Unreachable(HEADER, b)
    ensures MatchHeader(u + b) == MatchHeader(u)
  {
    HeaderIsDeterministic();
    HeaderIsOneLine();
    MatchSeam(HEADER, u, b);
    SameFound(Match(HEADER, u), u, b);
  }

  lemma SameFound(m: Option<Matched>, u: string, b: string)
    requires m.Some? ==> |m.value.parts| == 12 && |m.value.rest| < |u|
    ensures AsFound(WithRest(m, b), |u + b|) == AsFound(m, |u|)
  {
  }

  lemma HeaderIsLocal(b: string)
    requires Unreachable(HEADER, b)
    ensures Independent(MatchHeader, b)
  {
    forall u: string | EndsLine(u) ensures MatchHeader(u + b) == MatchHeader(u) {
      HeaderSeam(u, b);
    }
  }

  // ---------- What a header can complete ----------

  lemma LowerWords()
    ensures Lower(CURRENT) == CURRENT && Lower(PROTOCOL) == PROTOCOL && Lower(":") == ":" && Lower("up") == "up"
  {
  }

  /** The parts of a header up to the gap after its second colon, or before that colon. */
  function CutOffParts(colon: bool): seq<string> {
    ["x", CURRENT, "", ":", "", "up", "\n", PROTOCOL] + (if colon then ["", ":"] else [])
  }

  lemma PartsFit(colon: bool)
    ensures |CutOffParts(colon)| == if colon then 10 else 8
    ensures forall k :: 0 <= k < |CutOffParts(colon)| ==> Fits(HEADER[k], CutOffParts(colon)[k])
  {
    LowerWords();
  }

  /** The pieces of a header that are still to come. */
  function Missing(colon: bool): seq<Piece> {
    HEADER[if colon then 11 else 9..]
  }

  /** Two lines, the second of which lacks its state, or the colon and its state. */
  function CutOffLines(colon: bool): string {
    Concat(CutOffParts(colon)) + "\n"
  }

  lemma CutOffHeader(colon: bool, b: string)
    ensures var parts, later := CutOffParts(colon), Missing(colon);
            Match(HEADER, CutOffLines(colon) + b)
              == WithParts(parts, WithPart("\n" + TakeWhile(Space, b), Match(later, Rest(Space, b))))
  {
    PartsFit(colon);
    HeaderIsDeterministic();
    Regroup(Concat(CutOffParts(colon)), "\n", b);
    CutOffMatch(HEADER, |CutOffParts(colon)|, CutOffParts(colon), "\n", b);
  }

  lemma LowerHead(b: string, w: string, n: nat)
    requires n <= |b| && w <= Lower(b[..n])
    ensures |w| <= |b| && Lower(b[..|w|]) == w && b == b[..|w|] + b[|w|..]
  {
    assert forall i :: 0 <= i < |w| ==> Lower(b[..|w|])[i] == Lower(b[..n])[i];
  }

  lemma OneWordMatches(word: Piece, b: string)
    requires Take(word, b).Some?
    ensures Match([word], b).Some?
  {
    assert [word][1..] == [];
  }

  lemma StateTaken(b: string, w: string, n: nat)
    requires w in OPER_WORDS && n <= |b| && w <= Lower(b[..n])
    ensures Match(HEADER[11..], b).Some?
  {
    LowerHead(b, w, n);
    WordsAreDistinct();
    TakeWordExact(OPER_WORDS, true, b[..|w|], b[|w|..]);
    OneWordMatches(Word(OPER_WORDS, true), b);
    assert HEADER[11..] == [Word(OPER_WORDS, true)];
  }

  lemma ColonAndStateTaken(b: string, w: string, n: nat)
    requires NamedAt(b, n) && b[0] == ':' && n > 1 && w in OPER_WORDS && w <= Lower(b[1..][..n - 1])
    ensures Match(HEADER[9..], b).Some?
  {
    var later := b[1..];
    StateTaken(later, w, n - 1);
    assert later[0] == b[1];
    NothingSkipped(later);
    assert "" + later == later;
    TakeWhileExact(Space, "", later);
    var gap := HEADER[10..];
    assert gap[0] == Run(Space, true) && gap[1..] == HEADER[11..];
    MatchStep(gap, later, "", later);
    ColonTaken(b);
    assert HEADER[9..][0] == Word([":"], true) && HEADER[9..][1..] == gap;
    MatchStep(HEADER[9..], b, ":", later);
  }

  lemma ColonTaken(b: string)
    requires b != "" && b[0] == ':'
    ensures Take(Word([":"], true), b) == Some(":")
  {
    LowerWords();
    OneWordIsFree(":");
    assert b == ":" + b[1..];
    TakeWordExact([":"], true, ":", b[1..]);
  }

  /** A name that begins with a state completes a header that is cut off before it, with or without its colon. */
  lemma NameCompletes(b: string, n: nat) returns (colon: bool)
    requires NamedAt(b, n) && BeginsWithState(b[..n])
    ensures Match(Missing(colon), b).Some?
  {
    var w :| w in STATE_STARTS && w <= Lower(b[..n]);
    assert STATE_STARTS == ["up", "down", ":up", ":down"];
    colon := w == "up" || w == "down";
    if colon {
      StateTaken(b, w, n);
    } else {
      ColonSplit(b, n, w);
      ColonAndStateTaken(b, w[1..], n);
    }
  }

  lemma ColonSplit(b: string, n: nat, w: string)
    requires NamedAt(b, n) && w <= Lower(b[..n]) && (w == ":up" || w == ":down")
    ensures b[0] == ':' && n > 1 && w[1..] in OPER_WORDS && w[1..] <= Lower(b[1..][..n - 1])
  {
    assert OPER_WORDS[0] == "up" && OPER_WORDS[1] == "down";
    assert w[1..] == "up" || w[1..] == "down";
    assert Lower(b[..n])[0] == LowerChar(b[0]);
    assert forall i :: 0 <= i < |w| - 1 ==> w[1..][i] == Lower(b[1..][..n - 1])[i];
  }

  lemma {:induction false} NoBreakInside(parts: seq<string>)
    requires forall k :: 0 <= k < |parts| ==> '\n' !in parts[k]
    ensures '\n' !in Concat(parts)
  {
    if parts != [] {
      NoBreakInside(parts[1..]);
    }
  }

  lemma CutOffTail(colon: bool)
    ensures CutOffParts(colon)[7..] == if colon then [PROTOCOL, "", ":"] else [PROTOCOL]
    ensures CutOffParts(colon)[..6] == ["x", CURRENT, "", ":", "", "up"]
    ensures CutOffParts(colon) == (CutOffParts(colon)[..6] + ["\n"]) + CutOffParts(colon)[7..]
  {
  }

  lemma NoBreakInWords()
    ensures '\n' !in CURRENT && '\n' !in PROTOCOL
  {
  }

  lemma CutOffJoined(parts: seq<string>, colon: bool, first: string, second: string)
    requires parts == CutOffParts(colon) && first == Concat(parts[..6]) && second == Concat(parts[7..])
    ensures Concat(parts) == (first + "\n") + second
  {
    CutOffTail(colon);
    ConcatAppend(parts[..6], ["\n"]);
    ConcatAppend(parts[..6] + ["\n"], parts[7..]);
    assert ["\n"][1..] == [] && Concat(["\n"]) == "\n" + "";
  }

  lemma CutOffUnbroken(parts: seq<string>, colon: bool)
    requires parts == CutOffParts(colon)
    ensures '\n' !in Concat(parts[..6]) && '\n' !in Concat(parts[7..]) && PROTOCOL <= Concat(parts[7..])
  {
    CutOffTail(colon);
    NoBreakInWords();
    NoBreakInside(parts[..6]);
    NoBreakInside(parts[7..]);
    ConcatFrom(parts, 7);
  }

  lemma TwoLines(first: string, second: string)
    ensures ((first + "\n") + second) + "\n" == first + "\n" + (second + "\n" + "")
  {
  }

  lemma CutOffIsTwoLines(colon: bool, first: string, second: string)
    requires first == Concat(CutOffParts(colon)[..6]) && second == Concat(CutOffParts(colon)[7..])
    ensures CutOffLines(colon) == first + "\n" + (second + "\n" + "")
    ensures '\n' !in first && '\n' !in second && PROTOCOL <= second
  {
    CutOffJoined(CutOffParts(colon), colon, first, second);
    CutOffUnbroken(CutOffParts(colon), colon);
    TwoLines(first, second);
  }

  lemma ProtocolIsNoHeader(t: string)
    requires PROTOCOL <= t
    ensures MatchHeader(t) == None
  {
    LowerWords();
    if MatchHeader(t).Some? {
      HeaderNamed(t);
      ProtocolIsNoName(t, |MatchHeader(t).value.groups.name|, PROTOCOL);
    }
  }

  lemma NothingAtEnd(colon: bool)
    ensures Match(Missing(colon), "") == None
  {
    RunsStop();
    var j := if colon then 11 else 9;
    assert Stops(Space, HEADER[j]) && HEADER[j..][0] == HEADER[j];
    NothingOfEmpty(HEADER[j..], Space);
  }

  lemma NoMatchNoHeader(t: string)
    requires Match(HEADER, t) == None
    ensures MatchHeader(t) == None
  {
  }

  lemma CutOffIsNoHeader(colon: bool)
    ensures MatchHeader(CutOffLines(colon)) == None
  {
    CutOffHeader(colon, "");
    NothingAtEnd(colon);
    assert Rest(Space, "") == "" && CutOffLines(colon) + "" == CutOffLines(colon);
    NoMatchNoHeader(CutOffLines(colon));
  }

  lemma NothingInTwoLines(a: string, first: string, second: string, later: string)
    requires a == first + "\n" + later && later == second + "\n" + "" && '\n' !in first && '\n' !in second
    requires MatchHeader(a) == None && MatchHeader(later) == None
    ensures FindIter(MatchHeader, a) == []
  {
    var at: nat := |first| + 1;
    SkipLine(MatchHeader, true, first, a, later, 0, at);
    SkipLine(MatchHeader, true, second, later, "", at, at + |second| + 1);
  }

  lemma NothingInCutOff(colon: bool)
    ensures Headers(MatchHeader, CutOffLines(colon)) == []
  {
    var first, second := Concat(CutOffParts(colon)[..6]), Concat(CutOffParts(colon)[7..]);
    CutOffIsTwoLines(colon, first, second);
    CutOffIsNoHeader(colon);
    ProtocolIsNoHeader(second + "\n" + "");
    NothingInTwoLines(CutOffLines(colon), first, second, second + "\n" + "");
  }

  lemma KnownHead(t: string, parts: seq<string>, gap: string, later: Option<Matched>)
    requires Match(HEADER, t) == WithParts(parts, WithPart(gap, later)) && later.Some?
    requires |parts| > 6 && EndsLine(parts[6])
    ensures MatchHeader(t).Some? && MatchHeader(t).value.groups.name == parts[0]
  {
  }

  lemma CutOffShape(parts: seq<string>, colon: bool)
    requires parts == CutOffParts(colon)
    ensures |parts| > 6 && parts[0] == "x" && EndsLine(parts[6])
  {
  }

  predicate HeadNamed(t: string, name: string) {
    MatchHeader(t).Some? && MatchHeader(t).value.groups.name == name
  }

  lemma CompletedHead(t: string, parts: seq<string>, colon: bool, gap: string, later: Option<Matched>)
    requires parts == CutOffParts(colon) && later.Some?
    requires Match(HEADER, t) == WithParts(parts, WithPart(gap, later))
    ensures HeadNamed(t, "x")
  {
    CutOffShape(parts, colon);
    KnownHead(t, parts, gap, later);
  }

  lemma CutOffFollowed(colon: bool, b: string, text: string, gap: string, m: Option<Matched>)
    requires text == CutOffLines(colon) + b && b != "" && !IsSpace(b[0])
    requires gap == "\n" + TakeWhile(Space, b) && m == Match(Missing(colon), b)
    ensures Match(HEADER, text) == WithParts(CutOffParts(colon), WithPart(gap, m))
  {
    NothingSkipped(b);
    CutOffHeader(colon, b);
  }

  /** Before such a name the two lines, without a header of their own, become the header of a port `x`. */
  lemma CutOffCompleted(colon: bool, b: string, text: string, gap: string, m: Option<Matched>)
    requires text == CutOffLines(colon) + b && b != "" && !IsSpace(b[0])
    requires gap == "\n" + TakeWhile(Space, b) && m == Match(Missing(colon), b) && m.Some?
    ensures HeadNamed(text, "x")
  {
    CutOffFollowed(colon, b, text, gap, m);
    CompletedHead(text, CutOffParts(colon), colon, gap, m);
  }

  /**
   * An output that begins with a header can be parsed apart from whole lines before it, whatever they are, if and
   * only if the name in that header does not begin with `up` or `down`, or with a colon and one of these.
   */
  lemma ConcatExact(b: string, extract: Extract)
    requires MatchHeader(b).Some?
    ensures (forall a :: WholeLines(a) ==> Parse(a + b, extract) == Parse(a, extract) + Parse(b, extract))
       <==> !BeginsWithState(MatchHeader(b).value.groups.name)
  {
    var n := |MatchHeader(b).value.groups.name|;
    HeaderNamed(b);
    if BeginsWithState(b[..n]) {
      var colon := NameCompletes(b, n);
      LostInCutOff(colon, b, extract);
    } else {
      NothingReached(b, n);
      HeaderIsLocal(b);
      HeaderStaysInside();
      forall a | WholeLines(a) ensures Parse(a + b, extract) == Parse(a, extract) + Parse(b, extract) {
        ParseSeam(MatchHeader, a, b, ReadWith(extract));
      }
    }
  }

  lemma FirstName(b: string, extract: Extract)
    requires MatchHeader(b).Some?
    ensures Parse(b, extract) != [] && Parse(b, extract)[0].name == MatchHeader(b).value.groups.name
  {
    HeaderStaysInside();
    FirstNamed(MatchHeader, b, extract);
  }

  lemma LostInCutOff(colon: bool, b: string, extract: Extract)
    requires MatchHeader(b).Some? && BeginsWithState(MatchHeader(b).value.groups.name)
    requires Match(Missing(colon), b).Some?
    ensures var a := CutOffLines(colon);
            WholeLines(a) && Parse(a + b, extract) != Parse(a, extract) + Parse(b, extract)
  {
    HeaderNamed(b);
    CutOffCompleted(colon, b, CutOffLines(colon) + b, "\n" + TakeWhile(Space, b), Match(Missing(colon), b));
    FirstName(CutOffLines(colon) + b, extract);
    FirstName(b, extract);
    NothingInCutOff(colon);
    NoStateInX(MatchHeader(b).value.groups.name);
  }

  lemma NoStateInX(name: string)
    requires BeginsWithState(name)
    ensures name != "x"
  {
    assert |Lower("x")| == 1;
  }
}
