/**
 * `show port` output of any kind, line by line: which lines are reported as a port, complete or not, and which lines
 * are swallowed by an earlier one that was cut off.
 */
module PortListing {
  import opened Base
  import opened Nokia
  import opened Patterns
  import opened Scanner

  // ---------- The end of the output ----------

  /** The last word of a match holds no line break, so a break at the end of the text is left over. */
  lemma BreakIsLeft(t: string)
    requires Match(ROW, t + "\n").Some?
    ensures EndsLine(Match(ROW, t + "\n").value.rest)
  {
    var m := Match(ROW, t + "\n").value;
    MatchSound(ROW, t + "\n");
    if m.rest == "" {
      RowIsDeterministic();
      FitsOneLine(ROW[10], m.parts[10]);
      LastPart(m.parts, t);
      assert false;
    }
    EndOfSuffix(Concat(m.parts), m.rest, t + "\n");
  }

  lemma EndOfSuffix(c: string, rest: string, t: string)
    requires t == c + rest && EndsLine(t) && rest != ""
    ensures EndsLine(rest)
  {
    assert t[|t| - 1] == rest[|rest| - 1];
  }

  lemma LastPart(parts: seq<string>, t: string)
    requires |parts| == 11 && Concat(parts) + "" == t + "\n" && parts[10] != ""
    ensures EndsLine(parts[10])
  {
    var last := parts[10];
    SplitLast(parts);
    ConcatAppend(parts[..10], [last]);
    assert [last][1..] == [] && Concat([last]) == last + "";
    assert (t + "\n")[|t|] == '\n';
  }

  lemma SameCut(t: string, m: Matched)
    ensures Cut(ROW, t + "\n", Matched(m.parts, m.rest + "\n")) <==> Cut(ROW, t, m)
  {
    SameLast(t, Concat(m.parts), m.rest);
  }

  lemma SameLast(t: string, c: string, rest: string)
    ensures t + "\n" == c + (rest + "\n") <==> t == c + rest
  {
    assert c + (rest + "\n") == (c + rest) + "\n";
    assert (t + "\n")[..|t|] == t && ((c + rest) + "\n")[..|c + rest|] == c + rest;
  }

  /** A line break at the end of the text is never needed for a match and never in the way of one. */
  lemma MatchEnd(t: string)
    ensures Match(ROW, t + "\n") == WithRest(Match(ROW, t), "\n")
  {
    if Match(ROW, t).Some? {
      var m := Match(ROW, t).value;
      MatchSound(ROW, t);
      SameCut(t, m);
      PartsComplete(t + "\n", Matched(m.parts, m.rest + "\n"));
    } else if Match(ROW, t + "\n").Some? {
      var m := Match(ROW, t + "\n").value;
      BreakIsLeft(t);
      MatchSound(ROW, t + "\n");
      var before := m.rest[..|m.rest| - 1];
      assert m.rest == before + "\n";
      SameCut(t, Matched(m.parts, before));
      PartsComplete(t, Matched(m.parts, before));
      assert false;
    }
  }

  lemma RowEnd(t: string)
    ensures MatchRow(t + "\n") == MatchRow(t)
  {
    MatchEnd(t);
    if Match(ROW, t).Some? {
      var rest := Match(ROW, t).value.rest;
      assert (rest + "\n")[0] == if rest == "" then '\n' else rest[0];
    }
  }

  /** The rows found in an output are the same whether or not its last line is terminated. */
  lemma RowsEnd(t: string)
    ensures FindIter(MatchRow, t + "\n") == FindIter(MatchRow, t)
  {
    forall u: string ensures MatchRow(u + "\n") == MatchRow(u) {
      RowEnd(u);
    }
    RowStaysInside();
    FindIterEnd(MatchRow, t);
  }

  // ---------- Lines that are cut off ----------

  /** The pieces of the row pattern that are white space, where a row can run on into the next line. */
  predicate IsGap(i: nat) {
    i == 5 || i == 7 || i == 9
  }

  /** `line` consists of the first `i` parts of a row and white space. */
  predicate CutInto(line: string, i: nat, parts: seq<string>, gap: string) {
    && IsGap(i) && |parts| == i && (forall k :: 0 <= k < i ==> Fits(ROW[k], parts[k]))
    && line == Concat(parts) + gap && AllOf(Space, gap)
  }

  ghost predicate CutOffAt(line: string, i: nat) {
    exists parts, gap :: CutInto(line, i, parts, gap)
  }

  /** After white space, `b` begins with what a row cut off at gap `i` lacks, up to a word boundary. */
  ghost predicate Completes(b: string, i: nat) {
    IsGap(i) && exists parts, rest :: Cut(ROW[i + 1..], Rest(Space, b), Matched(parts, rest)) && Boundary(rest)
  }

  lemma DeterministicFrom(ps: seq<Piece>, i: nat)
    requires Deterministic(ps) && i <= |ps|
    ensures Deterministic(ps[i..])
  {
    var later := ps[i..];
    assert forall k :: 0 <= k < |later| ==> later[k] == ps[i + k];
    forall k | 0 <= k < |later| && later[k].Run? ensures k + 1 < |later| && Stops(later[k].kind, later[k + 1]) {
      assert ps[i + k].Run? && i + k + 1 < |ps| && Stops(ps[i + k].kind, ps[i + k + 1]);
    }
  }

  lemma CompletesExact(b: string, i: nat)
    requires IsGap(i)
    ensures Completes(b, i) <==>
              var m := Match(ROW[i + 1..], Rest(Space, b)); m.Some? && Boundary(m.value.rest)
  {
    var ps, t := ROW[i + 1..], Rest(Space, b);
    RowIsDeterministic();
    DeterministicFrom(ROW, i + 1);
    if Match(ps, t).Some? {
      MatchSound(ps, t);
      var m := Match(ps, t).value;
      assert Cut(ps, t, Matched(m.parts, m.rest));
    }
    if Completes(b, i) {
      var parts, rest :| Cut(ps, t, Matched(parts, rest)) && Boundary(rest);
      MatchComplete(ps, t, Matched(parts, rest));
    }
  }

  lemma GapIsSpace(i: nat)
    requires IsGap(i)
    ensures ROW[i] == Run(Space, false)
  {
  }

  lemma GapFound(i: nat)
    requires i < |ROW| && ROW[i].Run? && ROW[i].kind == Space
    ensures IsGap(i)
  {
  }

  lemma CutOffText(line: string, i: nat, parts: seq<string>, gap: string, b: string)
    requires CutInto(line, i, parts, gap)
    ensures Match(ROW, (line + "\n") + b)
         == WithParts(parts, WithPart((gap + "\n") + TakeWhile(Space, b), Match(ROW[i + 1..], Rest(Space, b))))
  {
    GapIsSpace(i);
    RowIsDeterministic();
    assert AllOf(Space, gap + "\n");
    assert (line + "\n") + b == Concat(parts) + ((gap + "\n") + b);
    CutOffMatch(ROW, i, parts, gap + "\n", b);
  }

  /**
   * A line that is cut off at a gap is taken for a row exactly when the text after it completes it: not only by a
   * port row, but by any text that supplies the missing words.
   */
  lemma CutOffLine(line: string, i: nat, parts: seq<string>, gap: string, b: string)
    requires CutInto(line, i, parts, gap)
    ensures MatchRow((line + "\n") + b).Some? <==> Completes(b, i)
  {
    CutOffText(line, i, parts, gap, b);
    CompletesExact(b, i);
  }

  /** In particular a name and an administrative state, followed by a token, a gap and `Up` or `Down`. */
  lemma CutOffRow(c: seq<string>, b: string)
    requires IsCutOff(c)
    ensures MatchRow((Concat(c) + "\n") + b).Some? <==> Completes(b, 7)
    ensures var m := MatchRow((Concat(c) + "\n") + b);
            m.Some? ==> m.value.groups.name == Concat(c[..5]) && m.value.groups.admin == c[6]
  {
    var line := Concat(c);
    assert line + "" == line;
    CutOffLine(line, 7, c, "", b);
    CutOffText(line, 7, c, "", b);
    NameOf(c);
  }

  lemma BoundaryKept(m: Option<Matched>, t: string, b: string)
    requires m.Some? && |m.value.parts| == 11 && |m.value.rest| < |t| && m.value.rest != ""
    ensures AtBoundary(WithRest(m, b), |t + b|) == AtBoundary(m, |t|)
  {
    SameBoundary(m, t, b);
  }

  lemma OwnRow(line: string, b: string)
    requires Match(ROW, line + "\n").Some?
    ensures MatchRow((line + "\n") + b) == MatchRow(line + "\n")
  {
    RowIsDeterministic();
    var _, _, _ := SeamSplit(ROW, 0, line + "\n", b);
    assert ROW[0..] == ROW;
    BoundaryKept(Match(ROW, line + "\n"), line + "\n", b);
  }

  lemma SplitGap(line: string, parts: seq<string>, gap: string)
    requires line + "\n" == Concat(parts) + gap && EndsLine(gap)
    ensures line == Concat(parts) + gap[..|gap| - 1] && gap == gap[..|gap| - 1] + "\n"
  {
    var c, g := Concat(parts), gap[..|gap| - 1];
    assert gap == g + "\n";
    assert line + "\n" == (c + g) + "\n";
    assert (line + "\n")[..|line|] == line && ((c + g) + "\n")[..|c + g|] == c + g;
  }

  lemma RunOnIsCutOff(line: string, b: string)
    requires Match(ROW, line + "\n") == None && MatchRow((line + "\n") + b).Some?
    ensures exists i :: CutOffAt(line, i) && Completes(b, i)
  {
    RowIsDeterministic();
    assert ROW[0..] == ROW;
    var j, parts, gap := SeamSplit(ROW, 0, line + "\n", b);
    GapFound(j);
    SplitGap(line, parts, gap);
    assert CutInto(line, j, parts, gap[..|gap| - 1]);
    CompletesExact(b, j);
    assert CutOffAt(line, j) && Completes(b, j);
  }

  /**
   * A line is taken for a port row exactly when it is one by itself, or it is cut off at a gap and the text after it
   * completes it.
   */
  lemma RowRunsOn(line: string, b: string)
    ensures MatchRow((line + "\n") + b).Some?
       <==> MatchRow(line).Some? || exists i :: CutOffAt(line, i) && Completes(b, i)
  {
    RowEnd(line);
    if Match(ROW, line + "\n").Some? {
      OwnRow(line, b);
    } else if MatchRow((line + "\n") + b).Some? {
      RunOnIsCutOff(line, b);
    }
    if i :| CutOffAt(line, i) && Completes(b, i) {
      var parts, gap :| CutInto(line, i, parts, gap);
      CutOffLine(line, i, parts, gap, b);
    }
  }

  // ---------- Whole listings ----------

  /** The lines of an output, the last of which need not be terminated: `split("\n")`. */
  function LinesOf(text: string): (lines: seq<string>)
    ensures lines != []
  {
    if text == "" then [""]
    else
      var more := LinesOf(text[1..]);
      if text[0] == '\n' then [""] + more else [[text[0]] + more[0]] + more[1..]
  }

  /** These lines, each of them terminated. */
  function Text(lines: seq<string>): string {
    if lines == [] then "" else (lines[0] + "\n") + Text(lines[1..])
  }

  lemma LinesPush(c: char, more: seq<string>, lines: seq<string>)
    requires more != [] && lines == if c == '\n' then [""] + more else [[c] + more[0]] + more[1..]
    ensures Text(lines) == [c] + Text(more)
    ensures OneLiners(more) ==> OneLiners(lines)
  {
    if c == '\n' {
      assert lines[1..] == more && ("" + "\n") == [c];
    } else {
      assert lines[1..] == more[1..];
      assert (([c] + more[0]) + "\n") + Text(more[1..]) == [c] + ((more[0] + "\n") + Text(more[1..]));
    }
  }

  /** The lines hold no line break, and joined again they give the output back. */
  lemma {:induction false} LinesJoined(text: string)
    ensures Text(LinesOf(text)) == text + "\n" && OneLiners(LinesOf(text))
  {
    if text == "" {
      assert [""][1..] == [] && Text([""]) == ("" + "\n") + "";
    } else {
      LinesJoined(text[1..]);
      LinesPush(text[0], LinesOf(text[1..]), LinesOf(text));
      assert text + "\n" == [text[0]] + (text[1..] + "\n");
    }
  }

  predicate OneLiners(lines: seq<string>) {
    forall i :: 0 <= i < |lines| ==> '\n' !in lines[i]
  }

  function Offset(lines: seq<string>, i: nat): nat
    requires i <= |lines|
  {
    |Text(lines[..i])|
  }

  lemma {:induction false} TextAppend(a: seq<string>, b: seq<string>)
    ensures Text(a + b) == Text(a) + Text(b)
  {
    if a == [] {
      assert a + b == b;
    } else {
      TextAppend(a[1..], b);
      assert (a + b)[1..] == a[1..] + b;
      Regroup(a[0] + "\n", Text(a[1..]), Text(b));
    }
  }

  lemma TextEndsLine(lines: seq<string>)
    requires lines != []
    ensures EndsLine(Text(lines))
  {
    var last := lines[|lines| - 1];
    SplitLast(lines);
    TextAppend(lines[..|lines| - 1], [last]);
    assert [last][1..] == [] && Text([last]) == (last + "\n") + "";
  }

  /** The text from a line on begins at that line's offset, which is a line start. */
  lemma TextFrom(lines: seq<string>, i: nat)
    requires i <= |lines|
    ensures Offset(lines, i) <= |Text(lines)| && Text(lines)[Offset(lines, i)..] == Text(lines[i..])
    ensures LineStart(Text(lines), Offset(lines, i))
  {
    assert lines == lines[..i] + lines[i..];
    TextAppend(lines[..i], lines[i..]);
    if i > 0 {
      TextEndsLine(lines[..i]);
    }
  }

  lemma OffsetNext(lines: seq<string>, i: nat, next: nat)
    requires i < |lines| && next == i + 1
    ensures Offset(lines, next) == Offset(lines, i) + |lines[i]| + 1
  {
    TakePush(lines, i);
    TextAppend(lines[..i], [lines[i]]);
    assert [lines[i]][1..] == [] && Text([lines[i]]) == (lines[i] + "\n") + "";
  }

  lemma {:induction false} OffsetsGrow(lines: seq<string>, k: nat, i: nat)
    requires k < i <= |lines|
    ensures Offset(lines, k) + |lines[k]| + 1 <= Offset(lines, i)
    decreases i
  {
    var last: nat := i - 1;
    OffsetNext(lines, last, i);
    if k < last {
      OffsetsGrow(lines, k, last);
    }
  }

  lemma TextOf(lines: seq<string>, i: nat)
    requires i < |lines|
    ensures Text(lines[i..]) == (lines[i] + "\n") + Text(lines[i + 1..])
    ensures Offset(lines, i) < |Text(lines)|
  {
    assert lines[i..][0] == lines[i] && lines[i..][1..] == lines[i + 1..];
    TextFrom(lines, i);
  }

  lemma NoStartInside(line: string, more: string, p: nat)
    requires '\n' !in line && 0 < p < |line + "\n"|
    ensures !LineStart((line + "\n") + more, p)
  {
    assert ((line + "\n") + more)[p - 1] == line[p - 1];
  }

  /** The line starts of a text are the offsets of its lines. */
  lemma {:induction false} LineStartIsOffset(lines: seq<string>, p: nat) returns (k: nat)
    requires OneLiners(lines) && p < |Text(lines)| && LineStart(Text(lines), p)
    ensures k < |lines| && p == Offset(lines, k)
  {
    k := 0;
    if p > 0 {
      var first, more := lines[0] + "\n", Text(lines[1..]);
      if p < |first| {
        NoStartInside(lines[0], more, p);
      }
      var q: nat := p - |first|;
      assert q > 0 ==> more[q - 1] == Text(lines)[p - 1];
      var j := LineStartIsOffset(lines[1..], q);
      k := j + 1;
      OffsetShift(lines, j, k);
    }
  }

  lemma OffsetShift(lines: seq<string>, j: nat, k: nat)
    requires lines != [] && j <= |lines| - 1 && k == j + 1
    ensures Offset(lines, k) == |lines[0]| + 1 + Offset(lines[1..], j)
  {
    assert lines[..k][1..] == lines[1..][..j];
  }

  /** Line `i` is a port row by itself, or is cut off and completed by the lines after it. */
  ghost predicate Reports(lines: seq<string>, i: nat)
    requires i < |lines|
  {
    MatchRow(lines[i]).Some? || exists g :: CutOffAt(lines[i], g) && Completes(Text(lines[i + 1..]), g)
  }

  /** Line `k` is no row by itself, but is completed by later text, up to a place beyond the beginning of line `i`. */
  ghost predicate Swallows(lines: seq<string>, k: nat, i: nat)
    requires i < |lines|
  {
    && k < i && MatchRow(lines[k]) == None && Reports(lines, k)
    && MatchRow(Text(lines[k..])).Some?
    && Offset(lines, i) < Offset(lines, k) + MatchRow(Text(lines[k..])).value.length
  }

  function Hits(lines: seq<string>): seq<Hit> {
    FindIter(MatchRow, Text(lines))
  }

  lemma LineMatches(lines: seq<string>, i: nat)
    requires i < |lines|
    ensures Offset(lines, i) < |Text(lines)|
    ensures MatchRow(Text(lines)[Offset(lines, i)..]).Some? <==> Reports(lines, i)
  {
    TextFrom(lines, i);
    TextOf(lines, i);
    RowRunsOn(lines[i], Text(lines[i + 1..]));
  }

  lemma OwnRowEnds(lines: seq<string>, k: nat, i: nat)
    requires k < i < |lines| && MatchRow(lines[k]).Some?
    ensures MatchRow(Text(lines[k..])) == MatchRow(lines[k])
    ensures Offset(lines, k) + MatchRow(lines[k]).value.length <= Offset(lines, i)
  {
    RowEnd(lines[k]);
    TextOf(lines, k);
    OwnRow(lines[k], Text(lines[k + 1..]));
    RowStaysInside();
    OffsetsGrow(lines, k, i);
  }

  lemma LaterLine(lines: seq<string>, k: nat, i: nat)
    requires k < i < |lines|
    ensures RunsOver(MatchRow, Text(lines), Offset(lines, k), Offset(lines, i))
       <==> MatchRow(Text(lines[k..])).Some?
            && Offset(lines, i) < Offset(lines, k) + MatchRow(Text(lines[k..])).value.length
  {
    TextFrom(lines, k);
    TextFrom(lines, i);
    OffsetsGrow(lines, k, i);
  }

  lemma NotLaterLine(lines: seq<string>, k: nat, i: nat)
    requires i <= k < |lines|
    ensures !RunsOver(MatchRow, Text(lines), Offset(lines, k), Offset(lines, i))
  {
    if i < k {
      OffsetsGrow(lines, i, k);
    }
  }

  /** A match that runs over the beginning of a later line begins on a line that is cut off. */
  lemma RunsOverMeansSwallows(lines: seq<string>, k: nat, i: nat)
    requires k < |lines| && i < |lines|
    ensures RunsOver(MatchRow, Text(lines), Offset(lines, k), Offset(lines, i)) <==> Swallows(lines, k, i)
  {
    if k < i {
      LaterLine(lines, k, i);
      TextFrom(lines, k);
      LineMatches(lines, k);
      if MatchRow(lines[k]).Some? {
        OwnRowEnds(lines, k, i);
      }
    } else {
      NotLaterLine(lines, k, i);
    }
  }

  lemma CoveredMeansSwallowed(lines: seq<string>, i: nat)
    requires OneLiners(lines) && i < |lines|
    ensures Covered(MatchRow, Text(lines), Hits(lines), Offset(lines, i))
       <==> exists k :: 0 <= k < |lines| && HasHit(Hits(lines), Offset(lines, k)) && Swallows(lines, k, i)
  {
    var t, hits := Text(lines), Hits(lines);
    if Covered(MatchRow, t, hits, Offset(lines, i)) {
      var q :| HasHit(hits, q) && RunsOver(MatchRow, t, q, Offset(lines, i));
      var k := HitIsOffset(lines, q);
      RunsOverMeansSwallows(lines, k, i);
    }
    if k: nat :| k < |lines| && HasHit(hits, Offset(lines, k)) && Swallows(lines, k, i) {
      RunsOverMeansSwallows(lines, k, i);
    }
  }

  lemma HitIsOffset(lines: seq<string>, p: nat) returns (k: nat)
    requires OneLiners(lines) && HasHit(Hits(lines), p)
    ensures k < |lines| && p == Offset(lines, k)
  {
    HitsInOrder(MatchRow, Text(lines), true, Text(lines), 0);
    HitIsInOrder(MatchRow, Text(lines), 0, Hits(lines), p);
    k := LineStartIsOffset(lines, p);
  }

  lemma LinesExact(lines: seq<string>, i: nat)
    requires OneLiners(lines) && i < |lines|
    ensures HasHit(Hits(lines), Offset(lines, i))
       <==> Reports(lines, i)
            && !exists k :: 0 <= k < |lines| && HasHit(Hits(lines), Offset(lines, k)) && Swallows(lines, k, i)
  {
    RowStaysInside();
    TextFrom(lines, i);
    LineMatches(lines, i);
    HitsExact(MatchRow, Text(lines), Offset(lines, i));
    CoveredMeansSwallowed(lines, i);
  }

  lemma HitsOfText(text: string)
    ensures OneLiners(LinesOf(text)) && Hits(LinesOf(text)) == FindIter(MatchRow, text)
  {
    LinesJoined(text);
    RowsEnd(text);
  }

  /** Every port reported from an output begins a line of it. */
  lemma HitIsLine(text: string, p: nat) returns (k: nat)
    requires HasHit(FindIter(MatchRow, text), p)
    ensures k < |LinesOf(text)| && p == Offset(LinesOf(text), k)
  {
    HitsOfText(text);
    k := HitIsOffset(LinesOf(text), p);
  }

  /**
   * For every output: a line is reported as a port exactly when it is a row by itself or is cut off and completed by
   * what follows, and no line reported before it swallows it.
   */
  lemma ListingExact(text: string, i: nat)
    requires i < |LinesOf(text)|
    ensures var lines, hits := LinesOf(text), FindIter(MatchRow, text);
            (HasHit(hits, Offset(lines, i))
             <==> Reports(lines, i)
                  && !exists k :: 0 <= k < |lines| && HasHit(hits, Offset(lines, k)) && Swallows(lines, k, i))
  {
    HitsOfText(text);
    LinesExact(LinesOf(text), i);
  }

  /** A complete row is lost exactly when a cut-off line reported before it swallows it. */
  lemma CompleteRowIsReported(text: string, i: nat)
    requires i < |LinesOf(text)| && MatchRow(LinesOf(text)[i]).Some?
    ensures var lines, hits := LinesOf(text), FindIter(MatchRow, text);
            (!HasHit(hits, Offset(lines, i))
             <==> exists k :: 0 <= k < |lines| && HasHit(hits, Offset(lines, k)) && Swallows(lines, k, i))
  {
    ListingExact(text, i);
  }
}
