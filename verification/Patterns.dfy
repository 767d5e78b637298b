/**
 * Regular expressions that need no backtracking: a concatenation of character runs and word alternatives in which
 * no piece can eat the beginning of the next. `Match` is the one-pass matcher, `Cut` the language of the expression.
 */
module Patterns {
  import opened Base

  datatype Class = Space | NonSpace | Digit

  predicate In(k: Class, c: char) {
    match k
    case Space => IsSpace(c)
    case NonSpace => !IsSpace(c)
    case Digit => '0' <= c <= '9'
  }

  predicate AllOf(k: Class, s: string) {
    forall i :: 0 <= i < |s| ==> In(k, s[i])
  }

  /** The longest prefix over `k`: a greedy repetition. */
  function TakeWhile(k: Class, t: string): (r: string)
    ensures r <= t && AllOf(k, r)
    ensures |r| < |t| ==> !In(k, t[|r|])
  {
    if t != [] && In(k, t[0]) then [t[0]] + TakeWhile(k, t[1..]) else []
  }

  function Rest(k: Class, t: string): (r: string)
    ensures t == TakeWhile(k, t) + r
    ensures r == [] || !In(k, r[0])
  {
    t[|TakeWhile(k, t)|..]
  }

  /** A repetition followed by anything that does not continue it is read back exactly. */
  lemma TakeWhileExact(k: Class, a: string, b: string)
    requires AllOf(k, a) && (b == [] || !In(k, b[0]))
    ensures TakeWhile(k, a + b) == a && Rest(k, a + b) == b
  {
    var r := TakeWhile(k, a + b);
    assert forall i :: 0 <= i < |a| ==> (a + b)[i] == a[i];
    assert |a| < |a + b| ==> (a + b)[|a|] == b[0];
    assert |r| == |a|;
    assert (a + b)[..|a|] == a && (a + b)[|a|..] == b;
  }

  /** A repetition that stops inside `t` does not see what follows `t`. */
  lemma TakeWhileSeam(k: Class, t: string, b: string)
    requires !AllOf(k, t)
    ensures TakeWhile(k, t + b) == TakeWhile(k, t) && Rest(k, t + b) == Rest(k, t) + b && Rest(k, t) != []
  {
    assert t + b == TakeWhile(k, t) + (Rest(k, t) + b);
    assert Rest(k, t) != [];
    TakeWhileExact(k, TakeWhile(k, t), Rest(k, t) + b);
  }

  /** A repetition over all of `t` goes on into what follows. */
  lemma TakeWhileThrough(k: Class, t: string, b: string)
    requires AllOf(k, t)
    ensures TakeWhile(k, t + b) == t + TakeWhile(k, b) && Rest(k, t + b) == Rest(k, b)
  {
    assert t + b == (t + TakeWhile(k, b)) + Rest(k, b);
    TakeWhileExact(k, t + TakeWhile(k, b), Rest(k, b));
  }

  // ---------- Pieces ----------

  /** `k+` or `k*`, or an alternative of words, compared in lower case when `fold`. */
  datatype Piece = Run(kind: Class, optional: bool) | Word(words: seq<string>, fold: bool)

  function Folded(fold: bool, s: string): (r: string)
    ensures |r| == |s|
  {
    if fold then Lower(s) else s
  }

  /** `s` is in the language of the piece. */
  predicate Fits(p: Piece, s: string) {
    match p
    case Run(k, optional) => AllOf(k, s) && (s != [] || optional)
    case Word(words, fold) => Folded(fold, s) in words
  }

  /** The first of the words that `t` starts with. */
  function TakeWord(words: seq<string>, fold: bool, t: string): (r: Option<string>)
    ensures r.Some? ==> r.value <= t && Folded(fold, r.value) in words
  {
    if words == [] then None
    else if |words[0]| <= |t| && Folded(fold, t[..|words[0]|]) == words[0] then Some(t[..|words[0]|])
    else TakeWord(words[1..], fold, t)
  }

  function Take(p: Piece, t: string): (r: Option<string>)
    ensures r.Some? ==> r.value <= t && Fits(p, r.value)
  {
    match p
    case Run(k, optional) => if TakeWhile(k, t) == [] && !optional then None else Some(TakeWhile(k, t))
    case Word(words, fold) => TakeWord(words, fold, t)
  }

  predicate PrefixFree(words: seq<string>) {
    forall v, w :: v in words && w in words && v <= w ==> v == w
  }

  lemma {:induction false} TakeWordExact(words: seq<string>, fold: bool, a: string, b: string)
    requires PrefixFree(words) && Folded(fold, a) in words
    ensures TakeWord(words, fold, a + b) == Some(a)
  {
    var w := words[0];
    var v := Folded(fold, a);
    assert (a + b)[..|a|] == a;
    if |w| <= |a + b| && Folded(fold, (a + b)[..|w|]) == w {
      FoldedPrefix(fold, a, b, |w|);
      assert w in words && v in words;
      assert w == v;
    } else {
      assert w != v;
      assert forall x :: x in words[1..] ==> x in words;
      TakeWordExact(words[1..], fold, a, b);
    }
  }

  lemma FoldedPrefix(fold: bool, a: string, b: string, n: nat)
    requires n <= |a + b|
    ensures var w, v := Folded(fold, (a + b)[..n]), Folded(fold, a); w <= v || v <= w
  {
    var w, v := Folded(fold, (a + b)[..n]), Folded(fold, a);
    forall i | 0 <= i < |w| && i < |v|
      ensures w[i] == v[i]
    {
      assert (a + b)[..n][i] == a[i];
    }
    if |w| <= |v| {
      assert w == v[..|w|];
    } else {
      assert v == w[..|v|];
    }
  }

  // ---------- Expressions ----------

  datatype Matched = Matched(parts: seq<string>, rest: string)

  function WithPart(a: string, m: Option<Matched>): Option<Matched> {
    if m == None then None else Some(Matched([a] + m.value.parts, m.value.rest))
  }

  /** One pass over the pieces, never going back. */
  function Match(ps: seq<Piece>, t: string): (r: Option<Matched>)
    ensures r.Some? ==> |r.value.parts| == |ps| && |r.value.rest| <= |t|
    ensures r.Some? && ps != [] && ps[0].Run? && !ps[0].optional ==> |r.value.rest| < |t|
  {
    if ps == [] then Some(Matched([], t))
    else
      var a := Take(ps[0], t);
      if a == None then None else WithPart(a.value, Match(ps[1..], t[|a.value|..]))
  }

  function Concat(parts: seq<string>): string {
    if parts == [] then "" else parts[0] + Concat(parts[1..])
  }

  lemma ConcatPush(x: string, parts: seq<string>)
    ensures Concat([x] + parts) == x + Concat(parts)
  {
    assert ([x] + parts)[1..] == parts;
  }

  lemma ConcatAppendPush(x: string, a: seq<string>, b: seq<string>)
    requires Concat(a + b) == Concat(a) + Concat(b)
    ensures Concat([x] + (a + b)) == Concat([x] + a) + Concat(b)
  {
    ConcatPush(x, a + b);
    ConcatPush(x, a);
  }

  lemma {:induction false} ConcatAppend(a: seq<string>, b: seq<string>)
    ensures Concat(a + b) == Concat(a) + Concat(b)
  {
    if a == [] {
      assert a + b == b;
    } else {
      ConcatAppend(a[1..], b);
      ConcatAppendPush(a[0], a[1..], b);
      HeadAndTail(a, b);
    }
  }

  /** The text of parts followed by `rest`, as one concatenation after the other. */
  function Spread(parts: seq<string>, rest: string): string {
    if parts == [] then rest else parts[0] + Spread(parts[1..], rest)
  }

  lemma {:induction false} SpreadText(parts: seq<string>, rest: string)
    ensures Concat(parts) + rest == Spread(parts, rest)
  {
    if parts == [] {
      assert "" + rest == rest;
    } else {
      SpreadText(parts[1..], rest);
      Regroup(parts[0], Concat(parts[1..]), rest);
    }
  }

  lemma SpreadOne(a: string, rest: string)
    ensures Spread([a], rest) == a + rest
  {
    assert [a][1..] == [];
  }

  lemma SpreadPush(a: string, parts: seq<string>, all: seq<string>, rest: string)
    requires all == [a] + parts
    ensures Spread(all, rest) == a + Spread(parts, rest)
  {
    assert all[1..] == parts;
  }

  lemma SpreadThree(a: string, b: string, c: string, rest: string)
    ensures Spread([a, b, c], rest) == a + (b + (c + rest))
  {
    SpreadOne(c, rest);
    SpreadPush(b, [c], [b, c], rest);
    SpreadPush(a, [b, c], [a, b, c], rest);
  }

  lemma SpreadFour(a: string, b: string, c: string, d: string, rest: string)
    ensures Spread([a, b, c, d], rest) == a + (b + (c + (d + rest)))
  {
    SpreadThree(b, c, d, rest);
    SpreadPush(a, [b, c, d], [a, b, c, d], rest);
  }

  lemma {:induction false} SpreadAppend(a: seq<string>, b: seq<string>, rest: string)
    ensures Spread(a + b, rest) == Spread(a, Spread(b, rest))
  {
    if a == [] {
      assert a + b == b;
    } else {
      SpreadAppend(a[1..], b, rest);
      assert (a + b)[1..] == a[1..] + b;
    }
  }

  lemma HeadAndTail(a: seq<string>, b: seq<string>)
    requires a != []
    ensures a == [a[0]] + a[1..] && a + b == [a[0]] + (a[1..] + b)
  {
  }

  /** `t` is text of the expression, cut into these parts, followed by `rest`. */
  predicate Cut(ps: seq<Piece>, t: string, m: Matched) {
    && t == Concat(m.parts) + m.rest
    && |m.parts| == |ps|
    && (forall i :: 0 <= i < |ps| ==> Fits(ps[i], m.parts[i]))
  }

  /** No text of `p` is empty or starts with a character of `k`. */
  predicate Stops(k: Class, p: Piece) {
    match p
    case Run(j, optional) => !optional && (k == Space) != (j == Space)
    case Word(words, _) => forall w :: w in words ==> w != [] && !In(k, w[0])
  }

  /** Runs are followed by pieces that stop them, and no word is the beginning of another. */
  predicate Deterministic(ps: seq<Piece>) {
    && (forall i :: 0 <= i < |ps| && ps[i].Run? ==> i + 1 < |ps| && Stops(ps[i].kind, ps[i + 1]))
    && (forall i :: 0 <= i < |ps| && ps[i].Word? ==> PrefixFree(ps[i].words))
  }

  lemma DeterministicTail(ps: seq<Piece>)
    requires Deterministic(ps) && ps != []
    ensures Deterministic(ps[1..])
    ensures ps[0].Run? ==> |ps| > 1 && Stops(ps[0].kind, ps[1])
    ensures ps[0].Word? ==> PrefixFree(ps[0].words)
  {
    assert forall i :: 0 <= i < |ps| - 1 ==> ps[1..][i] == ps[i + 1];
  }

  lemma FitsStops(k: Class, p: Piece, s: string)
    requires Stops(k, p) && Fits(p, s)
    ensures s != [] && !In(k, s[0])
  {
    if p.Word? {
      assert Folded(p.fold, s)[0] == if p.fold then LowerChar(s[0]) else s[0];
    }
  }

  lemma TakeExact(p: Piece, a: string, b: string)
    requires Fits(p, a) && (p.Word? ==> PrefixFree(p.words)) && (p.Run? ==> b == [] || !In(p.kind, b[0]))
    ensures Take(p, a + b) == Some(a)
  {
    match p
    case Run(k, _) => TakeWhileExact(k, a, b);
    case Word(words, fold) => TakeWordExact(words, fold, a, b);
  }

  lemma {:induction false} MatchSound(ps: seq<Piece>, t: string)
    requires Match(ps, t).Some?
    ensures Cut(ps, t, Match(ps, t).value)
  {
    if ps != [] {
      var a := Take(ps[0], t).value;
      var more := Match(ps[1..], t[|a|..]).value;
      MatchSound(ps[1..], t[|a|..]);
      CutPush(ps, t, a, more);
    }
  }

  lemma CutPush(ps: seq<Piece>, t: string, a: string, more: Matched)
    requires ps != [] && a <= t && Fits(ps[0], a) && Cut(ps[1..], t[|a|..], more)
    ensures Cut(ps, t, Matched([a] + more.parts, more.rest))
  {
    var parts := [a] + more.parts;
    assert parts[1..] == more.parts;
    assert t == a + t[|a|..];
    assert Concat(parts) + more.rest == a + (Concat(more.parts) + more.rest);
    forall i | 0 <= i < |ps| ensures Fits(ps[i], parts[i]) {
      if i > 0 {
        assert ps[i] == ps[1..][i - 1];
      }
    }
  }

  lemma CutPop(ps: seq<Piece>, t: string, m: Matched)
    requires ps != [] && Cut(ps, t, m)
    ensures Fits(ps[0], m.parts[0])
    ensures var u := Concat(m.parts[1..]) + m.rest;
            t == m.parts[0] + u && Cut(ps[1..], u, Matched(m.parts[1..], m.rest))
  {
  }

  lemma {:induction false} MatchComplete(ps: seq<Piece>, t: string, m: Matched)
    requires Deterministic(ps) && Cut(ps, t, m)
    ensures Match(ps, t) == Some(m)
  {
    if ps == [] {
      assert t == m.rest;
    } else {
      CutPop(ps, t, m);
      var a := m.parts[0];
      var u := Concat(m.parts[1..]) + m.rest;
      DeterministicTail(ps);
      MatchComplete(ps[1..], u, Matched(m.parts[1..], m.rest));
      if ps[0].Run? {
        FitsStops(ps[0].kind, ps[1], m.parts[1]);
        assert u[0] == m.parts[1][0];
      }
      TakeExact(ps[0], a, u);
      assert t[|a|..] == u && m.parts == [a] + m.parts[1..];
    }
  }

  /** The one-pass matcher finds a match exactly when the text has one, and there is only one to find. */
  lemma MatchExact(ps: seq<Piece>, t: string, m: Matched)
    requires Deterministic(ps)
    ensures Match(ps, t) == Some(m) <==> Cut(ps, t, m)
  {
    if Match(ps, t) == Some(m) {
      MatchSound(ps, t);
    }
    if Cut(ps, t, m) {
      MatchComplete(ps, t, m);
    }
  }

  // ---------- What follows a text that ends a line ----------

  predicate EndsLine(a: string) {
    a != [] && a[|a| - 1] == '\n'
  }

  predicate OneLineWords(ps: seq<Piece>) {
    forall i, w :: 0 <= i < |ps| && ps[i].Word? && w in ps[i].words ==> '\n' !in w
  }

  /** After white space that runs into `b`, no rest of the expression can be matched in `b`. */
  predicate Unreachable(ps: seq<Piece>, b: string) {
    forall i :: 0 <= i < |ps| && ps[i].Run? && ps[i].kind == Space ==> Match(ps[i + 1..], Rest(Space, b)) == None
  }

  function WithRest(m: Option<Matched>, b: string): Option<Matched> {
    if m == None then None else Some(Matched(m.value.parts, m.value.rest + b))
  }

  lemma {:induction false} TakeWordSeam(words: seq<string>, fold: bool, t: string, b: string)
    requires EndsLine(t) && forall w :: w in words ==> '\n' !in w
    ensures TakeWord(words, fold, t + b) == TakeWord(words, fold, t)
    ensures var r := TakeWord(words, fold, t); r.Some? ==> |r.value| < |t|
  {
    if words != [] {
      var n := |words[0]|;
      assert forall x :: x in words[1..] ==> x in words;
      TakeWordSeam(words[1..], fold, t, b);
      if n < |t| {
        assert (t + b)[..n] == t[..n];
      } else if n <= |t + b| {
        assert (t + b)[..n][|t| - 1] == '\n';
        assert Folded(fold, (t + b)[..n])[|t| - 1] == '\n';
        if n == |t| {
          assert Folded(fold, t[..n])[|t| - 1] == '\n';
        }
      }
    }
  }

  /** A piece other than white space sees nothing beyond the end of its line, and does not reach it. */
  lemma TakeSeam(p: Piece, t: string, b: string)
    requires EndsLine(t) && (p.Word? ==> forall w :: w in p.words ==> '\n' !in w)
    requires p.Run? ==> p.kind != Space || !AllOf(Space, t)
    ensures Take(p, t + b) == Take(p, t)
    ensures Take(p, t).Some? ==> |Take(p, t).value| < |t|
  {
    match p
    case Run(k, _) =>
      assert k != Space ==> !In(k, t[|t| - 1]);
      TakeWhileSeam(k, t, b);
    case Word(words, fold) => TakeWordSeam(words, fold, t, b);
  }

  lemma MatchStep(ps: seq<Piece>, t: string, a: string, u: string)
    requires ps != [] && Take(ps[0], t) == Some(a) && t[|a|..] == u
    ensures Match(ps, t) == WithPart(a, Match(ps[1..], u))
  {
  }

  lemma RunThenNothing(ps: seq<Piece>, t: string)
    requires ps != [] && ps[0].Run? && Match(ps[1..], Rest(ps[0].kind, t)) == None
    ensures Match(ps, t) == None
  {
  }

  lemma NothingOfEmpty(ps: seq<Piece>, k: Class)
    requires ps != [] && Stops(k, ps[0])
    ensures Match(ps, "") == None
  {
    if Take(ps[0], "").Some? {
      FitsStops(k, ps[0], Take(ps[0], "").value);
    }
  }

  // ---------- A match that runs on into what follows ----------

  /**
   * `t`, which ends a line, is cut off in white space: its parts up to piece `j` fit, `gap` is all that is left for
   * piece `j`, and the pieces after it are matched, with the same rest as the whole, after the white space at the
   * beginning of `b`.
   */
  ghost predicate RunsOn(ps: seq<Piece>, i: nat, t: string, b: string, j: nat, parts: seq<string>, gap: string) {
    && i <= j < |ps| && ps[j].Run? && ps[j].kind == Space
    && |parts| == j - i && (forall k :: 0 <= k < |parts| ==> Fits(ps[i + k], parts[k]))
    && t == Concat(parts) + gap && EndsLine(gap) && AllOf(Space, gap)
    && Match(ps[j + 1..], Rest(Space, b)).Some? && Match(ps[i..], t + b).Some?
    && Match(ps[i..], t + b).value.rest == Match(ps[j + 1..], Rest(Space, b)).value.rest
  }

  lemma RunOfSpace(ps: seq<Piece>, i: nat, t: string, b: string)
    requires i < |ps| && Deterministic(ps) && ps[i].Run? && ps[i].kind == Space && EndsLine(t) && AllOf(Space, t)
    ensures Match(ps[i..], t) == None
    ensures Match(ps[i..], t + b).Some? ==> RunsOn(ps, i, t, b, i, [], t)
  {
    assert ps[i..][0] == ps[i] && ps[i..][1..] == ps[i + 1..];
    TakeWhileThrough(Space, t, b);
    TakeWhileExact(Space, t, "");
    assert t + "" == t;
    NothingOfEmpty(ps[i + 1..], Space);
    RunThenNothing(ps[i..], t);
    MatchStep(ps[i..], t + b, t + TakeWhile(Space, b), Rest(Space, b));
  }

  lemma FitsPush(ps: seq<Piece>, i: nat, a: string, parts: seq<string>)
    requires i + 1 + |parts| <= |ps| && Fits(ps[i], a)
    requires forall k :: 0 <= k < |parts| ==> Fits(ps[i + 1 + k], parts[k])
    ensures forall k :: 0 <= k < |parts| + 1 ==> Fits(ps[i + k], ([a] + parts)[k])
  {
    forall k | 0 <= k < |parts| + 1 ensures Fits(ps[i + k], ([a] + parts)[k]) {
      if k > 0 {
        assert Fits(ps[i + 1 + (k - 1)], parts[k - 1]);
      }
    }
  }

  lemma ConcatGap(a: string, parts: seq<string>, gap: string)
    ensures Concat([a] + parts) + gap == a + (Concat(parts) + gap)
  {
    ConcatPush(a, parts);
  }

  lemma RunsOnPush(
    ps: seq<Piece>, i: nat, t: string, a: string, u: string, b: string, j: nat, parts: seq<string>, gap: string)
    requires i < |ps| && Fits(ps[i], a) && t == a + u && RunsOn(ps, i + 1, u, b, j, parts, gap)
    requires Match(ps[i..], t + b) == WithPart(a, Match(ps[i + 1..], u + b))
    ensures RunsOn(ps, i, t, b, j, [a] + parts, gap)
  {
    FitsPush(ps, i, a, parts);
    ConcatGap(a, parts, gap);
  }

  /** A match in text that ends a line either stays in that text, or is cut off in white space and runs on. */
  lemma {:induction false} SeamSplit(ps: seq<Piece>, i: nat, t: string, b: string)
    returns (j: nat, parts: seq<string>, gap: string)
    requires i <= |ps| && Deterministic(ps) && OneLineWords(ps) && EndsLine(t)
    ensures Match(ps[i..], t).Some? ==>
              Match(ps[i..], t + b) == WithRest(Match(ps[i..], t), b) && EndsLine(Match(ps[i..], t).value.rest)
    ensures Match(ps[i..], t) == None && Match(ps[i..], t + b).Some? ==> RunsOn(ps, i, t, b, j, parts, gap)
    decreases |ps| - i
  {
    j, parts, gap := i, [], t;
    if i < |ps| {
      var p := ps[i];
      assert ps[i..][0] == p && ps[i..][1..] == ps[i + 1..];
      if p.Run? && p.kind == Space && AllOf(Space, t) {
        RunOfSpace(ps, i, t, b);
      } else {
        TakeSeam(p, t, b);
        if Take(p, t).Some? {
          var a, next := Take(p, t).value, i + 1;
          j, parts, gap := SeamSplit(ps, next, t[|a|..], b);
          parts := SeamStep(ps, i, next, t, a, t[|a|..], b, j, parts, gap);
        }
      }
    }
  }

  lemma SeamStep(
    ps: seq<Piece>, i: nat, next: nat, t: string, a: string, u: string, b: string, j: nat,
    later: seq<string>, gap: string)
    returns (parts: seq<string>)
    requires i < |ps| && next == i + 1 && Take(ps[i], t) == Some(a) == Take(ps[i], t + b) && u == t[|a|..]
    requires Match(ps[next..], u).Some? ==>
               Match(ps[next..], u + b) == WithRest(Match(ps[next..], u), b)
               && EndsLine(Match(ps[next..], u).value.rest)
    requires Match(ps[next..], u) == None && Match(ps[next..], u + b).Some? ==> RunsOn(ps, next, u, b, j, later, gap)
    ensures Match(ps[i..], t).Some? ==>
              Match(ps[i..], t + b) == WithRest(Match(ps[i..], t), b) && EndsLine(Match(ps[i..], t).value.rest)
    ensures Match(ps[i..], t) == None && Match(ps[i..], t + b).Some? ==> RunsOn(ps, i, t, b, j, parts, gap)
  {
    parts := [a] + later;
    assert ps[i..][0] == ps[i] && ps[i..][1..] == ps[next..];
    DropFirst(t, b, |a|);
    MatchStep(ps[i..], t, a, u);
    MatchStep(ps[i..], t + b, a, u + b);
    if Match(ps[next..], u) == None && Match(ps[next..], u + b).Some? {
      RunsOnPush(ps, i, t, a, u, b, j, later, gap);
    }
  }

  /** Text that ends a line is matched without looking at what follows, unless white space leads there. */
  lemma MatchSeam(ps: seq<Piece>, t: string, b: string)
    requires EndsLine(t) && OneLineWords(ps) && Deterministic(ps) && Unreachable(ps, b)
    ensures Match(ps, t + b) == WithRest(Match(ps, t), b)
    ensures Match(ps, t).Some? ==> EndsLine(Match(ps, t).value.rest)
  {
    var j, parts, gap := SeamSplit(ps, 0, t, b);
    assert ps[0..] == ps;
    assert RunsOn(ps, 0, t, b, j, parts, gap) ==> Match(ps[j + 1..], Rest(Space, b)) == None;
  }

  // ---------- A text whose first parts are known ----------

  function WithParts(parts: seq<string>, m: Option<Matched>): Option<Matched> {
    if m == None then None else Some(Matched(parts + m.value.parts, m.value.rest))
  }

  lemma PrefixPush(a: string, parts: seq<string>, m: Option<Matched>)
    ensures WithPart(a, WithParts(parts, m)) == WithParts([a] + parts, m)
  {
    if m.Some? {
      assert [a] + (parts + m.value.parts) == ([a] + parts) + m.value.parts;
    }
  }

  lemma PrefixStep(ps: seq<Piece>, a: string, later: seq<string>, u: string)
    requires |later| + 1 < |ps| && Take(ps[0], a + (Concat(later) + u)) == Some(a)
    requires Match(ps[1..], Concat(later) + u) == WithParts(later, Match(ps[1..][|later|..], u))
    ensures Match(ps, Concat([a] + later) + u) == WithParts([a] + later, Match(ps[|later| + 1..], u))
  {
    var v := Concat(later) + u;
    ConcatGap(a, later, u);
    assert (a + v)[|a|..] == v;
    MatchStep(ps, a + v, a, v);
    assert ps[1..][|later|..] == ps[|later| + 1..];
    PrefixPush(a, later, Match(ps[|later| + 1..], u));
  }

  /** After parts that fit, the matcher is where those parts end. */
  lemma {:induction false} MatchPrefix(ps: seq<Piece>, parts: seq<string>, u: string)
    requires Deterministic(ps) && |parts| < |ps| && (forall k :: 0 <= k < |parts| ==> Fits(ps[k], parts[k]))
    requires parts != [] && ps[|parts| - 1].Run? ==> u == "" || !In(ps[|parts| - 1].kind, u[0])
    ensures Match(ps, Concat(parts) + u) == WithParts(parts, Match(ps[|parts|..], u))
  {
    if parts == [] {
      assert Concat(parts) + u == u && ps[0..] == ps;
      NoParts(Match(ps, u));
    } else {
      DeterministicTail(ps);
      assert forall k :: 0 <= k < |parts| - 1 ==> ps[1..][k] == ps[k + 1];
      MatchPrefix(ps[1..], parts[1..], u);
      TakesFirst(ps, parts, u);
      PrefixStep(ps, parts[0], parts[1..], u);
      assert parts == [parts[0]] + parts[1..];
    }
  }

  lemma NoParts(m: Option<Matched>)
    ensures WithParts([], m) == m
  {
    if m.Some? {
      assert [] + m.value.parts == m.value.parts;
    }
  }

  lemma TakesFirst(ps: seq<Piece>, parts: seq<string>, u: string)
    requires Deterministic(ps) && 0 < |parts| < |ps| && (forall k :: 0 <= k < |parts| ==> Fits(ps[k], parts[k]))
    requires ps[|parts| - 1].Run? ==> u == "" || !In(ps[|parts| - 1].kind, u[0])
    ensures Take(ps[0], parts[0] + (Concat(parts[1..]) + u)) == Some(parts[0])
  {
    var v := Concat(parts[1..]) + u;
    if ps[0].Run? && |parts| > 1 {
      FitsStops(ps[0].kind, ps[1], parts[1]);
      assert v[0] == parts[1][0];
    } else {
      assert |parts| == 1 ==> v == u;
    }
    TakeExact(ps[0], parts[0], v);
  }

  lemma TakeGap(optional: bool, t: string, b: string)
    requires t != "" && AllOf(Space, t)
    ensures Take(Run(Space, optional), t + b) == Some(t + TakeWhile(Space, b))
    ensures (t + b)[|t + TakeWhile(Space, b)|..] == Rest(Space, b)
  {
    TakeWhileThrough(Space, t, b);
  }

  lemma GapMatch(ps: seq<Piece>, i: nat, t: string, b: string)
    requires i < |ps| && ps[i].Run? && ps[i].kind == Space && t != "" && AllOf(Space, t)
    ensures Match(ps[i..], t + b) == WithPart(t + TakeWhile(Space, b), Match(ps[i + 1..], Rest(Space, b)))
  {
    var later := ps[i..];
    assert later[0] == Run(Space, ps[i].optional) && later[1..] == ps[i + 1..];
    TakeGap(ps[i].optional, t, b);
    MatchStep(later, t + b, t + TakeWhile(Space, b), Rest(Space, b));
  }

  /** After its first `i` parts and white space, a text is matched as what follows completes it. */
  lemma CutOffMatch(ps: seq<Piece>, i: nat, parts: seq<string>, t: string, b: string)
    requires Deterministic(ps) && i < |ps| && ps[i].Run? && ps[i].kind == Space && t != "" && AllOf(Space, t)
    requires |parts| == i && (forall k :: 0 <= k < i ==> Fits(ps[k], parts[k]))
    ensures Match(ps, Concat(parts) + (t + b))
         == WithParts(parts, WithPart(t + TakeWhile(Space, b), Match(ps[i + 1..], Rest(Space, b))))
  {
    assert (t + b)[0] == t[0];
    assert i > 0 && ps[i - 1].Run? ==> Stops(ps[i - 1].kind, ps[i]);
    MatchPrefix(ps, parts, t + b);
    GapMatch(ps, i, t, b);
  }

  // ---------- Where a match can break a line ----------

  predicate OneLine(p: Piece) {
    match p
    case Run(k, _) => k != Space
    case Word(words, _) => forall w :: w in words ==> '\n' !in w
  }

  lemma FitsOneLine(p: Piece, s: string)
    requires OneLine(p) && Fits(p, s)
    ensures '\n' !in s
  {
    match p
    case Run(k, _) => assert forall i :: 0 <= i < |s| ==> In(k, s[i]);
    case Word(words, fold) => assert forall i :: 0 <= i < |s| && s[i] == '\n' ==> Folded(fold, s)[i] == '\n';
  }

  lemma {:induction false} ConcatOneLine(ps: seq<Piece>, parts: seq<string>)
    requires |ps| == |parts| && forall i :: 0 <= i < |ps| ==> OneLine(ps[i]) && Fits(ps[i], parts[i])
    ensures '\n' !in Concat(parts)
  {
    if ps != [] {
      FitsOneLine(ps[0], parts[0]);
      ConcatOneLine(ps[1..], parts[1..]);
    }
  }

  lemma ConcatFrom(parts: seq<string>, i: nat)
    requires i < |parts|
    ensures Concat(parts[i..]) == parts[i] + Concat(parts[i + 1..])
  {
    assert parts[i..][1..] == parts[i + 1..];
  }

  /** When only piece `i` can hold line breaks, every break of a match is in part `i`. */
  lemma {:induction false} BreakIsInPart(ps: seq<Piece>, i: nat, t: string, m: Matched, q: nat) returns (k: nat)
    requires Cut(ps, t, m) && i < |ps| && forall j :: 0 <= j < |ps| && j != i ==> OneLine(ps[j])
    requires 0 < q <= |t| - |m.rest| && t[q - 1] == '\n'
    ensures k <= |m.parts[i]| && t[q..] == m.parts[i][k..] + (Concat(m.parts[i + 1..]) + m.rest)
    decreases i
  {
    CutPop(ps, t, m);
    var a := m.parts[0];
    var c := Concat(m.parts[1..]);
    if i == 0 {
      assert q > |a| ==> t[q - 1] == c[q - 1 - |a|];
      ConcatOneLine(ps[1..], m.parts[1..]);
      k := q;
    } else {
      var u := c + m.rest;
      assert q <= |a| ==> t[q - 1] == a[q - 1];
      FitsOneLine(ps[0], a);
      assert t[q - 1] == u[q - |a| - 1] && t[q..] == u[q - |a|..];
      k := BreakIsInPart(ps[1..], i - 1, u, Matched(m.parts[1..], m.rest), q - |a|);
      assert m.parts[1..][i..] == m.parts[i + 1..];
    }
  }
}
