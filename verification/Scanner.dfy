/** Line-anchored pattern scanning: `re.finditer` for patterns that start with `^` under MULTILINE. */
module Scanner {
  import opened Base
  import opened Patterns

  type Positive = n: nat | 0 < n witness 1

  /** The named groups of an interface header or port row. */
  datatype Groups = Groups(name: string, admin: string, oper: string)

  datatype Found = Found(groups: Groups, length: Positive)

  datatype Hit = Hit(start: nat, groups: Groups)

  /** Tries a pattern at the beginning of a text. */
  type Pattern = string -> Option<Found>

  /** A match stays inside the text. */
  ghost predicate StaysInside(m: Pattern) {
    forall t :: m(t).Some? ==> m(t).value.length <= |t|
  }

  /**
   * Leftmost, non-overlapping matches in `t`, the text from position `at` on; `bol` says whether `^` holds there.
   */
  function Scan(m: Pattern, bol: bool, t: string, at: nat): seq<Hit>
    decreases |t|
  {
    if t == [] then []
    else
      var found := if bol then m(t) else None;
      if found == None || found.value.length > |t| then Scan(m, t[0] == '\n', t[1..], at + 1)
      else
        var n := found.value.length;
        [Hit(at, found.value.groups)] + Scan(m, t[n - 1] == '\n', t[n..], at + n)
  }

  /** `re.finditer` */
  function FindIter(m: Pattern, s: string): seq<Hit> {
    Scan(m, true, s, 0)
  }

  /** `a` consists of whole lines (possibly none). */
  predicate WholeLines(a: string) {
    a == [] || EndsLine(a)
  }

  /** No match in text that ends a line depends on `b` following it. */
  ghost predicate Independent(m: Pattern, b: string) {
    forall u :: EndsLine(u) ==> m(u + b) == m(u)
  }

  function Shift(offset: nat, hits: seq<Hit>): (r: seq<Hit>)
    ensures |r| == |hits|
    ensures forall i :: 0 <= i < |hits| ==> r[i] == Hit(hits[i].start + offset, hits[i].groups)
  {
    seq(|hits|, i requires 0 <= i < |hits| => Hit(hits[i].start + offset, hits[i].groups))
  }

  lemma {:induction false} ScanShift(m: Pattern, bol: bool, t: string, at: nat, offset: nat)
    ensures Scan(m, bol, t, at + offset) == Shift(offset, Scan(m, bol, t, at))
    decreases |t|
  {
    if t != [] {
      var found := if bol then m(t) else None;
      if found == None || found.value.length > |t| {
        ScanShift(m, t[0] == '\n', t[1..], at + 1, offset);
      } else {
        var n := found.value.length;
        ScanShift(m, t[n - 1] == '\n', t[n..], at + n, offset);
      }
    }
  }

  lemma ScanMiss(m: Pattern, bol: bool, t: string, at: nat)
    requires t != [] && !(bol && m(t).Some?)
    ensures Scan(m, bol, t, at) == Scan(m, t[0] == '\n', t[1..], at + 1)
  {
  }

  lemma ScanHit(m: Pattern, t: string, at: nat, found: Found)
    requires t != [] && m(t) == Some(found) && found.length <= |t|
    ensures Scan(m, true, t, at)
         == [Hit(at, found.groups)] + Scan(m, t[found.length - 1] == '\n', t[found.length..], at + found.length)
  {
  }

  /** The matches of `t + b` are those of `t`, and those of `b` scanned on its own. */
  lemma {:induction false} ScanConcat(m: Pattern, bol: bool, t: string, b: string, at: nat, end: nat)
    requires StaysInside(m) && Independent(m, b) && (if t == [] then bol else EndsLine(t)) && end == at + |t|
    ensures Scan(m, bol, t + b, at) == Scan(m, bol, t, at) + Scan(m, true, b, end)
    decreases |t|, 1
  {
    if t == [] {
      assert t + b == b;
    } else if bol && m(t).Some? {
      ScanConcatHit(m, t, b, at, end, m(t).value.length);
    } else {
      ScanConcatMiss(m, bol, t, b, at, end);
    }
  }

  lemma {:induction false} ScanConcatHit(m: Pattern, t: string, b: string, at: nat, end: nat, n: nat)
    requires StaysInside(m) && Independent(m, b) && EndsLine(t) && end == at + |t|
    requires m(t).Some? && n == m(t).value.length
    ensures Scan(m, true, t + b, at) == Scan(m, true, t, at) + Scan(m, true, b, end)
    decreases |t|, 0
  {
    ScanConcat(m, t[n - 1] == '\n', t[n..], b, at + n, end);
    HitBeforeSeam(m, t, t + b, b, at, m(t).value, Scan(m, true, b, end));
  }

  lemma {:induction false} ScanConcatMiss(m: Pattern, bol: bool, t: string, b: string, at: nat, end: nat)
    requires StaysInside(m) && Independent(m, b) && EndsLine(t) && end == at + |t| && !(bol && m(t).Some?)
    ensures Scan(m, bol, t + b, at) == Scan(m, bol, t, at) + Scan(m, true, b, end)
    decreases |t|, 0
  {
    ScanConcat(m, t[0] == '\n', t[1..], b, at + 1, end);
    MissBeforeSeam(m, bol, t, t + b, b, at, Scan(m, true, b, end));
  }

  lemma HitBeforeSeam(m: Pattern, t: string, u: string, b: string, at: nat, found: Found, tail: seq<Hit>)
    requires t != [] && u == t + b && m(t) == m(u) == Some(found) && found.length <= |t|
    requires var n := found.length;
             Scan(m, t[n - 1] == '\n', t[n..] + b, at + n) == Scan(m, t[n - 1] == '\n', t[n..], at + n) + tail
    ensures Scan(m, true, u, at) == Scan(m, true, t, at) + tail
  {
    var n := found.length;
    var bol, rest := t[n - 1] == '\n', t[n..];
    assert u[n..] == rest + b && u[n - 1] == t[n - 1];
    ScanHit(m, t, at, found);
    ScanHit(m, u, at, found);
    Reassociate(Hit(at, found.groups), Scan(m, bol, rest, at + n), tail);
  }

  lemma Reassociate(h: Hit, hits: seq<Hit>, tail: seq<Hit>)
    ensures [h] + (hits + tail) == ([h] + hits) + tail
  {
  }

  lemma MissBeforeSeam(m: Pattern, bol: bool, t: string, u: string, b: string, at: nat, tail: seq<Hit>)
    requires t != [] && u == t + b && m(t) == m(u) && !(bol && m(t).Some?)
    requires Scan(m, t[0] == '\n', t[1..] + b, at + 1) == Scan(m, t[0] == '\n', t[1..], at + 1) + tail
    ensures Scan(m, bol, u, at) == Scan(m, bol, t, at) + tail
  {
    assert u[1..] == t[1..] + b && u[0] == t[0];
    ScanMiss(m, bol, t, at);
    ScanMiss(m, bol, u, at);
  }

  /** Scanning whole lines followed by independent text gives the hits of both, the latter moved along. */
  lemma FindIterConcat(m: Pattern, a: string, b: string)
    requires StaysInside(m) && Independent(m, b) && WholeLines(a)
    ensures FindIter(m, a + b) == FindIter(m, a) + Shift(|a|, FindIter(m, b))
  {
    ScanConcat(m, true, a, b, 0, |a|);
    ScanShift(m, true, b, 0, |a|);
  }

  // ---------- A line break at the end ----------

  /** A line break at the end of a text changes none of its matches. */
  ghost predicate EndBlind(m: Pattern) {
    forall u :: m(u + "\n") == m(u)
  }

  lemma AtEnd(m: Pattern, u: string)
    requires EndBlind(m)
    ensures m(u + "\n") == m(u)
  {
  }

  lemma ScanBreak(m: Pattern, bol: bool, at: nat)
    requires StaysInside(m) && EndBlind(m)
    ensures Scan(m, bol, "\n", at) == []
  {
    AtEnd(m, "");
    assert "" + "\n" == "\n" && "\n"[1..] == "";
    assert m("") == None;
    ScanMiss(m, bol, "\n", at);
  }

  lemma {:induction false} ScanEnd(m: Pattern, bol: bool, t: string, u: string, at: nat)
    requires StaysInside(m) && EndBlind(m) && u == t + "\n"
    ensures Scan(m, bol, u, at) == Scan(m, bol, t, at)
    decreases |t|
  {
    AtEnd(m, t);
    if t == "" {
      assert u == "\n";
      ScanBreak(m, bol, at);
    } else if bol && m(t).Some? {
      var n := m(t).value.length;
      assert u[n..] == t[n..] + "\n" && u[n - 1] == t[n - 1];
      ScanEnd(m, t[n - 1] == '\n', t[n..], u[n..], at + n);
      ScanHit(m, t, at, m(t).value);
      ScanHit(m, u, at, m(t).value);
    } else {
      assert u[1..] == t[1..] + "\n" && u[0] == t[0];
      ScanEnd(m, t[0] == '\n', t[1..], u[1..], at + 1);
      ScanMiss(m, bol, t, at);
      ScanMiss(m, bol, u, at);
    }
  }

  /** So the last line of a text need not be terminated. */
  lemma FindIterEnd(m: Pattern, t: string)
    requires StaysInside(m) && EndBlind(m)
    ensures FindIter(m, t + "\n") == FindIter(m, t)
  {
    ScanEnd(m, true, t, t + "\n", 0);
  }

  // ---------- Where the matches are ----------

  predicate LineStart(s: string, p: nat) {
    p <= |s| && (p == 0 || s[p - 1] == '\n')
  }

  /** A hit stands at a line start of the text, where the pattern matches with these groups. */
  predicate IsHit(m: Pattern, s: string, h: Hit) {
    h.start < |s| && LineStart(s, h.start) && m(s[h.start..]).Some? && m(s[h.start..]).value.groups == h.groups
  }

  ghost predicate InOrder(m: Pattern, s: string, from: nat, hits: seq<Hit>) {
    && (forall i :: 0 <= i < |hits| ==> from <= hits[i].start && IsHit(m, s, hits[i]))
    && (forall i, j :: 0 <= i < j < |hits| ==> hits[i].start < hits[j].start)
  }

  lemma OrderPush(m: Pattern, s: string, from: nat, next: nat, h: Hit, hits: seq<Hit>)
    requires InOrder(m, s, next, hits) && IsHit(m, s, h) && h.start == from < next
    ensures InOrder(m, s, from, [h] + hits)
  {
  }

  lemma {:induction false} HitsInOrder(m: Pattern, s: string, bol: bool, t: string, at: nat)
    requires at <= |s| && t == s[at..] && bol == LineStart(s, at)
    ensures InOrder(m, s, at, Scan(m, bol, t, at))
    decreases |t|, 1
  {
    if t != [] {
      if bol && m(t).Some? && m(t).value.length <= |t| {
        HitInOrder(m, s, t, at, m(t).value.length);
      } else {
        HitsInOrder(m, s, t[0] == '\n', t[1..], at + 1);
      }
    }
  }

  lemma {:induction false} HitInOrder(m: Pattern, s: string, t: string, at: nat, n: nat)
    requires at < |s| && t == s[at..] && LineStart(s, at)
    requires m(t).Some? && m(t).value.length == n <= |t|
    ensures InOrder(m, s, at, Scan(m, true, t, at))
    decreases |t|, 0
  {
    var u, bol := t[n..], t[n - 1] == '\n';
    assert u == s[at + n..] && t[n - 1] == s[at + n - 1];
    HitsInOrder(m, s, bol, u, at + n);
    ScanHit(m, t, at, m(t).value);
    OrderPush(m, s, at, at + n, Hit(at, m(t).value.groups), Scan(m, bol, u, at + n));
  }

  /** No line that begins inside a match is the beginning of another match. */
  ghost predicate Solid(m: Pattern) {
    forall t, q :: m(t).Some? && 0 < q < m(t).value.length <= |t| && t[q - 1] == '\n' ==> m(t[q..]) == None
  }

  ghost predicate HasHit(hits: seq<Hit>, p: nat) {
    exists h :: h in hits && h.start == p
  }

  lemma HitAmong(h: Hit, hits: seq<Hit>)
    ensures HasHit([h] + hits, h.start)
    ensures forall p :: HasHit(hits, p) ==> HasHit([h] + hits, p)
  {
    assert h in [h] + hits;
    forall p | HasHit(hits, p) ensures HasHit([h] + hits, p) {
      var k :| k in hits && k.start == p;
      assert k in [h] + hits;
    }
  }

  /** The match at `q` runs over position `p`. */
  predicate RunsOver(m: Pattern, s: string, q: nat, p: nat) {
    q < p <= |s| && m(s[q..]).Some? && p < q + m(s[q..]).value.length
  }

  ghost predicate Covered(m: Pattern, s: string, hits: seq<Hit>, p: nat) {
    exists q :: HasHit(hits, q) && RunsOver(m, s, q, p)
  }

  lemma {:induction false} UncoveredIsHit(m: Pattern, s: string, bol: bool, t: string, at: nat, p: nat)
    requires StaysInside(m) && at <= p < |s| && t == s[at..] && bol == LineStart(s, at)
    requires LineStart(s, p) && m(s[p..]).Some? && !Covered(m, s, Scan(m, bol, t, at), p)
    ensures HasHit(Scan(m, bol, t, at), p)
    decreases |t|, 1
  {
    if bol && m(t).Some? {
      UncoveredAfterHit(m, s, t, at, p, m(t).value);
    } else {
      ScanMiss(m, bol, t, at);
      UncoveredIsHit(m, s, t[0] == '\n', t[1..], at + 1, p);
    }
  }

  lemma {:induction false} UncoveredAfterHit(m: Pattern, s: string, t: string, at: nat, p: nat, found: Found)
    requires StaysInside(m) && m(t) == Some(found) && at <= p < |s| && t == s[at..] && LineStart(s, at)
    requires LineStart(s, p) && m(s[p..]).Some? && !Covered(m, s, Scan(m, true, t, at), p)
    ensures HasHit(Scan(m, true, t, at), p)
    decreases |t|, 0
  {
    var n := found.length;
    var u, bol := t[n..], t[n - 1] == '\n';
    var h, later := Hit(at, found.groups), Scan(m, bol, u, at + n);
    ScanHit(m, t, at, found);
    HitAmong(h, later);
    if p > at {
      assert !RunsOver(m, s, at, p);
      assert u == s[at + n..] && t[n - 1] == s[at + n - 1];
      UncoveredIsHit(m, s, bol, u, at + n, p);
    }
  }

  lemma HitOfPush(h: Hit, hits: seq<Hit>, p: nat)
    requires HasHit([h] + hits, p)
    ensures p == h.start || HasHit(hits, p)
  {
    var k :| k in [h] + hits && k.start == p;
    assert k == h || k in hits;
  }

  lemma HitIsInOrder(m: Pattern, s: string, from: nat, hits: seq<Hit>, p: nat)
    requires InOrder(m, s, from, hits) && HasHit(hits, p)
    ensures from <= p < |s| && LineStart(s, p) && m(s[p..]).Some?
  {
    var i :| 0 <= i < |hits| && hits[i].start == p;
    assert IsHit(m, s, hits[i]);
  }

  lemma {:induction false} HitIsUncovered(m: Pattern, s: string, bol: bool, t: string, at: nat, p: nat)
    requires StaysInside(m) && at <= |s| && t == s[at..] && bol == LineStart(s, at) && HasHit(Scan(m, bol, t, at), p)
    ensures !Covered(m, s, Scan(m, bol, t, at), p)
    decreases |t|, 1
  {
    if bol && m(t).Some? && t != [] {
      UncoveredByHit(m, s, t, at, p, m(t).value);
    } else if t != [] {
      ScanMiss(m, bol, t, at);
      HitIsUncovered(m, s, t[0] == '\n', t[1..], at + 1, p);
    }
  }

  lemma {:induction false} UncoveredByHit(m: Pattern, s: string, t: string, at: nat, p: nat, found: Found)
    requires StaysInside(m) && m(t) == Some(found) && at < |s| && t == s[at..] && LineStart(s, at)
    requires HasHit(Scan(m, true, t, at), p)
    ensures !Covered(m, s, Scan(m, true, t, at), p)
    decreases |t|, 0
  {
    var n := found.length;
    var next := at + n;
    var u, bol := t[n..], t[n - 1] == '\n';
    var h, later := Hit(at, found.groups), Scan(m, bol, u, next);
    ScanHit(m, t, at, found);
    assert u == s[next..] && t[n - 1] == s[next - 1];
    HitsInOrder(m, s, bol, u, next);
    HitOfPush(h, later, p);
    if HasHit(later, p) {
      HitIsInOrder(m, s, next, later, p);
      HitIsUncovered(m, s, bol, u, next, p);
    }
    forall q: nat | HasHit([h] + later, q) && q < p ensures !RunsOver(m, s, q, p) {
      HitOfPush(h, later, q);
      if HasHit(later, q) {
        HitIsInOrder(m, s, next, later, q);
      }
    }
  }

  /** `re.finditer` finds exactly the line starts that match and that no match found before runs over. */
  lemma HitsExact(m: Pattern, s: string, p: nat)
    requires StaysInside(m) && p < |s|
    ensures HasHit(FindIter(m, s), p)
       <==> LineStart(s, p) && m(s[p..]).Some? && !Covered(m, s, FindIter(m, s), p)
  {
    if HasHit(FindIter(m, s), p) {
      HitsInOrder(m, s, true, s, 0);
      HitIsInOrder(m, s, 0, FindIter(m, s), p);
      HitIsUncovered(m, s, true, s, 0, p);
    }
    if LineStart(s, p) && m(s[p..]).Some? && !Covered(m, s, FindIter(m, s), p) {
      UncoveredIsHit(m, s, true, s, 0, p);
    }
  }

  lemma NothingCovered(m: Pattern, s: string, q: nat, p: nat)
    requires StaysInside(m) && Solid(m) && p < |s| && LineStart(s, p) && m(s[p..]).Some?
    ensures !RunsOver(m, s, q, p)
  {
    if q < p && m(s[q..]).Some? {
      assert s[q..][p - q - 1] == s[p - 1] && s[q..][p - q..] == s[p..];
    }
  }

  /** If no match begins inside another one, every line start that matches is found. */
  lemma EveryMatchIsHit(m: Pattern, s: string, p: nat)
    requires StaysInside(m) && Solid(m) && p < |s| && LineStart(s, p) && m(s[p..]).Some?
    ensures HasHit(FindIter(m, s), p)
  {
    forall q: nat ensures !RunsOver(m, s, q, p) {
      NothingCovered(m, s, q, p);
    }
    HitsExact(m, s, p);
  }

  // ---------- Scanning line by line ----------

  /** After something that was not a match at its beginning, the rest of the line is skipped. */
  lemma {:induction false} SkipLine(m: Pattern, bol: bool, line: string, u: string, t: string, at: nat, after: nat)
    requires u == line + "\n" + t && '\n' !in line && !(bol && m(u).Some?) && after == at + |line| + 1
    ensures Scan(m, bol, u, at) == Scan(m, true, t, after)
    decreases |line|
  {
    ScanMiss(m, bol, u, at);
    if line == "" {
      assert u[1..] == t;
    } else {
      assert u[0] == line[0] && u[1..] == line[1..] + "\n" + t;
      SkipLine(m, false, line[1..], u[1..], t, at + 1, after);
    }
  }

  lemma HitAtHead(m: Pattern, head: string, rest: string, at: nat, g: Groups)
    requires head != "" && head[|head| - 1] != '\n' && m(head + rest) == Some(Found(g, |head|))
    ensures Scan(m, true, head + rest, at) == [Hit(at, g)] + Scan(m, false, rest, at + |head|)
  {
    var t := head + rest;
    assert t[|head|..] == rest && t[|head| - 1] == head[|head| - 1];
    ScanHit(m, t, at, Found(g, |head|));
  }

  /** A match at the start of a line, not ending one, hides the rest of the line it ends in. */
  lemma HitThenSkip(m: Pattern, head: string, rest: string, tail: string, more: string, at: nat, g: Groups, after: nat)
    requires head != "" && head[|head| - 1] != '\n' && rest == tail + "\n" + more && '\n' !in tail
    requires m(head + rest) == Some(Found(g, |head|)) && after == at + |head| + |tail| + 1
    ensures Scan(m, true, head + rest, at) == [Hit(at, g)] + Scan(m, true, more, after)
  {
    HitAtHead(m, head, rest, at, g);
    SkipLine(m, false, tail, rest, more, at + |head|, after);
  }
}
