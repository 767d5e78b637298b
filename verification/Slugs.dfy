/**
 * What `_slugify` makes of a name: its words in lower case, joined by single underscores. The four laws here determine
 * it on every text.
 */
module Slugs {
  import opened Base
  import opened Storage

  /** The characters a slug keeps wherever they stand: letters in lower case, digits, full stops and hyphens. */
  predicate Letter(c: char) {
    'a' <= c <= 'z' || 'A' <= c <= 'Z' || '0' <= c <= '9' || c == '.' || c == '-'
  }

  /** The characters between the words of a name: an underscore, or one that no slug contains. */
  predicate Gap(c: char) {
    !Letter(c)
  }

  /** The characters that no slug contains. */
  predicate Junk(c: char) {
    !Letter(c) && c != '_'
  }

  predicate AllGap(s: string) {
    forall i :: 0 <= i < |s| ==> Gap(s[i])
  }

  predicate AllJunk(s: string) {
    forall i :: 0 <= i < |s| ==> Junk(s[i])
  }

  lemma CharKinds(c: char)
    ensures SlugChar(LowerChar(c)) <==> Letter(c) || c == '_'
    ensures Letter(c) ==> LowerChar(c) != '_'
    ensures Gap(c) ==> LowerChar(c) == c
    ensures IsSpace(c) ==> Junk(c)
  {
  }

  lemma LowerAppend(a: string, b: string)
    ensures Lower(a + b) == Lower(a) + Lower(b)
  {
  }

  lemma LowerGap(s: string)
    requires AllGap(s)
    ensures Lower(s) == s
  {
    forall i | 0 <= i < |s| ensures Lower(s)[i] == s[i] {
      CharKinds(s[i]);
    }
  }

  predicate Underscores(s: string) {
    forall i :: 0 <= i < |s| ==> s[i] == '_'
  }

  lemma GapFirst(t: string, inRun: bool)
    requires t != "" && Gap(t[0])
    ensures TrimLeft(Underscore, Squash(t, inRun)) == TrimLeft(Underscore, Squash(t[1..], !SlugChar(t[0])))
  {
    var later := Squash(t[1..], !SlugChar(t[0]));
    CharKinds(t[0]);
    TrimOne(later);
    assert [] + later == later;
  }

  /** What stands before the words becomes underscores, which are trimmed. */
  lemma {:induction false} SquashGapLeft(j: string, x: string, inRun: bool)
    requires AllGap(j)
    ensures TrimLeft(Underscore, Squash(j + x, inRun)) == TrimLeft(Underscore, Squash(x, false))
  {
    if j == "" {
      assert j + x == x;
      SquashInRun(x, inRun);
    } else {
      var t := j + x;
      assert t[1..] == j[1..] + x && t[0] == j[0];
      SquashGapLeft(j[1..], x, !SlugChar(t[0]));
      GapFirst(t, inRun);
    }
  }

  lemma TrimOne(s: string)
    ensures TrimLeft(Underscore, "_" + s) == TrimLeft(Underscore, s)
    ensures TrimLeft(Underscore, ['_'] + s) == TrimLeft(Underscore, s)
  {
    assert ("_" + s)[1..] == s && (['_'] + s)[1..] == s;
  }

  lemma SquashInRun(x: string, inRun: bool)
    ensures TrimLeft(Underscore, Squash(x, inRun)) == TrimLeft(Underscore, Squash(x, false))
  {
    if x != "" && !SlugChar(x[0]) {
      TrimOne(Squash(x[1..], true));
      assert [] + Squash(x[1..], true) == Squash(x[1..], true);
    }
  }

  /** So does what stands after them. */
  lemma {:induction false} SquashGapOnly(k: string, inRun: bool)
    requires AllGap(k)
    ensures Underscores(Squash(k, inRun))
  {
    if k != "" {
      CharKinds(k[0]);
      SquashGapOnly(k[1..], !SlugChar(k[0]));
    }
  }

  lemma {:induction false} SquashGapRight(x: string, k: string, inRun: bool) returns (u: string)
    requires AllGap(k)
    ensures Underscores(u) && Squash(x + k, inRun) == Squash(x, inRun) + u
  {
    if x == "" {
      assert x + k == k;
      u := Squash(k, inRun);
      SquashGapOnly(k, inRun);
      assert [] + u == u;
    } else {
      assert (x + k)[1..] == x[1..] + k && (x + k)[0] == x[0];
      u := SquashGapRight(x[1..], k, !SlugChar(x[0]));
      SquashPush(x, k, u, inRun);
    }
  }

  lemma SquashPush(x: string, k: string, u: string, inRun: bool)
    requires x != "" && (x + k)[1..] == x[1..] + k && (x + k)[0] == x[0]
    requires Squash(x[1..] + k, !SlugChar(x[0])) == Squash(x[1..], !SlugChar(x[0])) + u
    ensures Squash(x + k, inRun) == Squash(x, inRun) + u
  {
    var first := if SlugChar(x[0]) then [x[0]] else if inRun then [] else "_";
    Regroup(first, Squash(x[1..], !SlugChar(x[0])), u);
  }

  lemma {:induction false} TrimBoth(s: string, u: string)
    requires Underscores(u)
    ensures TrimRight(Underscore, TrimLeft(Underscore, s + u)) == TrimRight(Underscore, TrimLeft(Underscore, s))
  {
    if s == "" {
      assert s + u == u;
      TrimLeftAll(Underscore, u);
    } else if s[0] == '_' {
      assert (s + u)[1..] == s[1..] + u;
      TrimBoth(s[1..], u);
    } else {
      assert (s + u)[0] == s[0];
      TrimTail(s, u);
    }
  }

  lemma {:induction false} TrimTail(s: string, u: string)
    requires Underscores(u)
    ensures TrimRight(Underscore, s + u) == TrimRight(Underscore, s)
  {
    if u == "" {
      assert s + u == s;
    } else {
      assert (s + u)[..|s + u| - 1] == s + u[..|u| - 1];
      TrimTail(s, u[..|u| - 1]);
    }
  }

  /** The slug of a text in lower case, before it is stripped of white space. */
  function SlugOf(x: string): string {
    TrimOrUnknown(Squash(x, false))
  }

  lemma GapsTrimmed(j: string, x: string, k: string)
    requires AllGap(j) && AllGap(k)
    ensures SlugOf(j + x + k) == SlugOf(x)
  {
    var u := SquashGapRight(j + x, k, false);
    TrimBoth(Squash(j + x, false), u);
    SquashGapLeft(j, x, false);
  }

  lemma LeftSplits(p: char -> bool, value: string) returns (left: string)
    ensures value == left + TrimLeft(p, value) && forall i :: 0 <= i < |left| ==> p(left[i])
  {
    left := value[..|value| - |TrimLeft(p, value)|];
  }

  lemma RightSplits(p: char -> bool, value: string) returns (right: string)
    ensures value == TrimRight(p, value) + right && forall i :: 0 <= i < |right| ==> p(right[i])
  {
    right := value[|TrimRight(p, value)|..];
  }

  lemma StripSplits(value: string) returns (left: string, right: string)
    ensures value == left + Strip(value) + right
    ensures (forall i :: 0 <= i < |left| ==> IsSpace(left[i])) && forall i :: 0 <= i < |right| ==> IsSpace(right[i])
  {
    left := LeftSplits(IsSpace, value);
    right := RightSplits(IsSpace, TrimLeft(IsSpace, value));
    Regroup(left, Strip(value), right);
  }

  lemma SpacesAreGap(s: string)
    requires forall i :: 0 <= i < |s| ==> IsSpace(s[i])
    ensures AllGap(s)
  {
    forall i | 0 <= i < |s| ensures Gap(s[i]) {
      CharKinds(s[i]);
    }
  }

  /** White space needs no stripping of its own: it becomes underscores, which are trimmed. */
  lemma StripIsGap(value: string)
    ensures Slugify(value) == SlugOf(Lower(value))
  {
    var left, right := StripSplits(value);
    SpacesAreGap(left);
    SpacesAreGap(right);
    LowerGap(left);
    LowerGap(right);
    LowerAppend(left + Strip(value), right);
    LowerAppend(left, Strip(value));
    GapsTrimmed(left, Lower(Strip(value)), right);
  }

  lemma LowerTwice(value: string)
    ensures Lower(Lower(value)) == Lower(value)
  {
  }

  /** The case of letters does not matter. */
  lemma SlugIgnoresCase(value: string)
    ensures Slugify(Lower(value)) == Slugify(value)
  {
    StripIsGap(value);
    StripIsGap(Lower(value));
    LowerTwice(value);
  }

  /** Neither do underscores and foreign characters at the two ends. */
  lemma SlugIgnoresEnds(j: string, value: string, k: string)
    requires AllGap(j) && AllGap(k)
    ensures Slugify(j + value + k) == Slugify(value)
  {
    StripIsGap(value);
    StripIsGap(j + value + k);
    LowerGap(j);
    LowerGap(k);
    LowerAppend(j + value, k);
    LowerAppend(j, value);
    GapsTrimmed(j, Lower(value), k);
  }

  lemma SquashOfNothing()
    ensures SlugOf("") == "unknown"
  {
  }

  lemma GapsVanish(j: string)
    requires AllGap(j)
    ensures SlugOf(j) == SlugOf("")
  {
    GapsTrimmed(j, "", "");
    assert j + "" + "" == j;
  }

  /** A name of nothing else is `unknown`. */
  lemma SlugOfGaps(j: string)
    requires AllGap(j)
    ensures Slugify(j) == "unknown"
  {
    StripIsGap(j);
    LowerGap(j);
    GapsVanish(j);
    SquashOfNothing();
  }

  lemma {:induction false} SquashJoins(a: string, r: string, b: string, inRun: bool)
    requires a != "" && SlugChar(a[|a| - 1]) && r != "" && b != "" && SlugChar(b[0])
    requires forall i :: 0 <= i < |r| ==> !SlugChar(r[i])
    ensures Squash(a + (r + b), inRun) == Squash(a, inRun) + ("_" + Squash(b, false))
  {
    var tail := "_" + Squash(b, false);
    assert (a + (r + b))[1..] == a[1..] + (r + b) && (a + (r + b))[0] == a[0];
    if |a| == 1 {
      assert a[1..] + (r + b) == r + b;
      assert (r + b)[0] == r[0] && (r + b)[1..] == r[1..] + b;
      SquashRun(r[1..], b);
      assert [a[0]] + tail == a + tail && Squash(a[1..], false) == [];
    } else {
      SquashJoins(a[1..], r, b, !SlugChar(a[0]));
      SquashPush(a, r + b, tail, inRun);
    }
  }

  lemma {:induction false} SquashRun(r: string, b: string)
    requires b != "" && SlugChar(b[0]) && forall i :: 0 <= i < |r| ==> !SlugChar(r[i])
    ensures Squash(r + b, true) == Squash(b, false)
  {
    if r == "" {
      assert r + b == b;
    } else {
      assert (r + b)[0] == r[0] && (r + b)[1..] == r[1..] + b;
      SquashRun(r[1..], b);
    }
  }

  lemma TrimLeftJoin(a: string, z: string)
    requires a != "" && a[|a| - 1] != '_'
    ensures TrimLeft(Underscore, a + z) == TrimLeft(Underscore, a) + z
    ensures TrimLeft(Underscore, a) != ""
    decreases |a|
  {
    if a[0] == '_' {
      assert (a + z)[1..] == a[1..] + z;
      TrimLeftJoin(a[1..], z);
    }
  }

  lemma {:induction false} TrimRightJoin(z: string, b: string)
    requires b != "" && b[0] != '_'
    ensures TrimRight(Underscore, z + b) == z + TrimRight(Underscore, b)
    ensures TrimRight(Underscore, b) != ""
    decreases |b|
  {
    if b[|b| - 1] == '_' {
      assert (z + b)[..|z + b| - 1] == z + b[..|b| - 1];
      TrimRightJoin(z, b[..|b| - 1]);
    }
  }

  lemma TrimKept(p: char -> bool, s: string)
    requires s != "" && !p(s[0])
    ensures TrimLeft(p, s) == s
  {
  }

  lemma NotUnknown(s: string)
    requires TrimRight(Underscore, TrimLeft(Underscore, s)) != ""
    ensures TrimOrUnknown(s) == TrimRight(Underscore, TrimLeft(Underscore, s))
  {
  }

  lemma TrimJoined(a: string, b: string, left: string)
    requires a != "" && a[|a| - 1] != '_' && b != "" && b[0] != '_' && left == TrimLeft(Underscore, a)
    ensures TrimRight(Underscore, TrimLeft(Underscore, a + ("_" + b))) == left + ("_" + TrimRight(Underscore, b))
  {
    TrimLeftJoin(a, "_" + b);
    TrimRightJoin(left + "_", b);
    Regroup(left, "_", b);
    Regroup(left, "_", TrimRight(Underscore, b));
  }

  /** Two texts, the first ending and the second beginning with no underscore, are trimmed on the outside only. */
  lemma TrimJoin(a: string, b: string)
    requires a != "" && a[|a| - 1] != '_' && b != "" && b[0] != '_'
    ensures TrimOrUnknown(a + ("_" + b)) == TrimOrUnknown(a) + ("_" + TrimOrUnknown(b))
  {
    TrimJoined(a, b, TrimLeft(Underscore, a));
    TrimmedEnd(a);
    TrimLeftJoin(a, "");
    TrimRightJoin("", b);
    TrimKept(Underscore, b);
    NotUnknown(a);
    NotUnknown(b);
    NotUnknown(a + ("_" + b));
  }

  lemma TrimmedEnd(a: string)
    requires a != "" && a[|a| - 1] != '_'
    ensures TrimRight(Underscore, TrimLeft(Underscore, a)) == TrimLeft(Underscore, a)
  {
    TrimLeftJoin(a, "");
    var left := TrimLeft(Underscore, a);
    assert left[|left| - 1] == a[|a| - 1];
  }

  lemma {:induction false} SquashLast(a: string, inRun: bool)
    requires a != "" && SlugChar(a[|a| - 1])
    ensures var s := Squash(a, inRun); s != "" && s[|s| - 1] == a[|a| - 1]
  {
    if |a| > 1 {
      SquashLast(a[1..], !SlugChar(a[0]));
    }
  }

  lemma SlugOfJoins(a: string, r: string, b: string)
    requires a != "" && SlugChar(a[|a| - 1]) && a[|a| - 1] != '_' && b != "" && SlugChar(b[0]) && b[0] != '_'
    requires r != "" && forall i :: 0 <= i < |r| ==> !SlugChar(r[i])
    ensures SlugOf(a + (r + b)) == SlugOf(a) + ("_" + SlugOf(b))
  {
    SquashJoins(a, r, b, false);
    SquashLast(a, false);
    TrimJoin(Squash(a, false), Squash(b, false));
  }

  lemma LowerEnds(a: string, b: string)
    requires a != "" && Letter(a[|a| - 1]) && b != "" && Letter(b[0])
    ensures var x, y := Lower(a), Lower(b);
            SlugChar(x[|x| - 1]) && x[|x| - 1] != '_' && SlugChar(y[0]) && y[0] != '_'
  {
    CharKinds(a[|a| - 1]);
    CharKinds(b[0]);
  }

  lemma JunkIsForeign(r: string)
    requires AllJunk(r)
    ensures Lower(r) == r && forall i :: 0 <= i < |r| ==> !SlugChar(r[i])
  {
    LowerGap(r);
    forall i | 0 <= i < |r| ensures !SlugChar(r[i]) {
      CharKinds(r[i]);
    }
  }

  /** Foreign characters between two words, however many, become one underscore. */
  lemma SlugJoins(a: string, r: string, b: string)
    requires a != "" && Letter(a[|a| - 1]) && b != "" && Letter(b[0]) && r != "" && AllJunk(r)
    ensures Slugify(a + (r + b)) == Slugify(a) + ("_" + Slugify(b))
  {
    StripIsGap(a);
    StripIsGap(b);
    StripIsGap(a + (r + b));
    LowerAppend(a, r + b);
    LowerAppend(r, b);
    LowerEnds(a, b);
    JunkIsForeign(r);
    SlugOfJoins(Lower(a), r, Lower(b));
  }
}
