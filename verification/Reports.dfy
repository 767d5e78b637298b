/**
 * Reports that are cut into blocks from header to header, each block yielding one record. The header pattern and the
 * reading of a block are parameters: nothing here depends on the vendor.
 */
module Reports {
  import opened Base
  import opened Patterns
  import opened Scanner
  import opened Tables

  /** What is made of a header and of its whole block. */
  type Reader = (Groups, string) -> ParsedIface

  predicate Begins(m: Pattern, b: string) {
    m(b).Some?
  }

  /** `b` may follow a block: it is empty or begins with a header. */
  predicate Next(m: Pattern, b: string) {
    b == [] || Begins(m, b)
  }

  /** A header pattern that sees no further than its line when another header follows, and does not nest. */
  ghost predicate Delimits(m: Pattern) {
    StaysInside(m) && Solid(m) && forall b :: Next(m, b) ==> Independent(m, b)
  }

  ghost predicate Ascending(s: string, hits: seq<Hit>) {
    && (forall i :: 0 <= i < |hits| ==> hits[i].start < |s|)
    && (forall i, j :: 0 <= i < j < |hits| ==> hits[i].start < hits[j].start)
  }

  function BlockEnd(s: string, hits: seq<Hit>, i: nat): nat {
    if i + 1 < |hits| then hits[i + 1].start else |s|
  }

  function Block(s: string, hits: seq<Hit>, i: nat): string
    requires i < |hits| && Ascending(s, hits)
  {
    s[hits[i].start..BlockEnd(s, hits, i)]
  }

  function Headers(m: Pattern, s: string): (hits: seq<Hit>)
    ensures Ascending(s, hits)
  {
    HitsInOrder(m, s, true, s, 0);
    FindIter(m, s)
  }

  lemma HeaderAt(m: Pattern, s: string, i: nat)
    requires i < |Headers(m, s)|
    ensures var h := Headers(m, s)[i];
            && LineStart(s, h.start) && Begins(m, s[h.start..])
            && h.groups == m(s[h.start..]).value.groups
  {
    HitsInOrder(m, s, true, s, 0);
    assert IsHit(m, s, Headers(m, s)[i]);
  }

  function Blocks(m: Pattern, s: string): (r: seq<string>)
    ensures |r| == |Headers(m, s)|
    ensures forall i :: 0 <= i < |r| ==> r[i] == Block(s, Headers(m, s), i)
  {
    seq(|Headers(m, s)|, i requires 0 <= i < |Headers(m, s)| => Block(s, Headers(m, s), i))
  }

  function Records(s: string, hits: seq<Hit>, read: Reader): (r: seq<ParsedIface>)
    requires Ascending(s, hits)
    ensures |r| == |hits|
    ensures forall i :: 0 <= i < |hits| ==> r[i] == read(hits[i].groups, Block(s, hits, i))
  {
    seq<ParsedIface>(|hits|, i requires 0 <= i < |hits| => read(hits[i].groups, Block(s, hits, i)))
  }

  function Parse(m: Pattern, s: string, read: Reader): seq<ParsedIface> {
    Records(s, Headers(m, s), read)
  }

  /** The headers are exactly the line starts at which the header pattern matches, in order. */
  lemma HeadersAreAllMatches(m: Pattern, s: string, p: nat)
    requires Delimits(m) && p < |s|
    ensures HasHit(Headers(m, s), p) <==> LineStart(s, p) && Begins(m, s[p..])
  {
    if HasHit(Headers(m, s), p) {
      var i: nat :| i < |Headers(m, s)| && Headers(m, s)[i].start == p;
      HeaderAt(m, s, i);
    }
    if LineStart(s, p) && Begins(m, s[p..]) {
      EveryMatchIsHit(m, s, p);
    }
  }

  function Before(m: Pattern, s: string, i: nat): string
    requires i < |Headers(m, s)|
  {
    s[..Headers(m, s)[i].start]
  }

  function After(m: Pattern, s: string, i: nat): string
    requires i < |Headers(m, s)|
  {
    s[BlockEnd(s, Headers(m, s), i)..]
  }

  lemma SeamOfBlock(m: Pattern, s: string, i: nat)
    requires Delimits(m) && i + 1 < |Headers(m, s)|
    ensures EndsLine(Blocks(m, s)[i]) && Begins(m, After(m, s, i))
  {
    var x := Blocks(m, s)[i];
    HeaderAt(m, s, i + 1);
    assert x[|x| - 1] == s[Headers(m, s)[i + 1].start - 1];
  }

  /** Around its block, the output is whole lines in front and nothing or a header behind. */
  lemma BlockInPlace(m: Pattern, s: string, i: nat)
    requires Delimits(m) && i < |Headers(m, s)|
    ensures s == Before(m, s, i) + (Blocks(m, s)[i] + After(m, s, i))
    ensures WholeLines(Before(m, s, i)) && Begins(m, Blocks(m, s)[i])
    ensures Next(m, After(m, s, i)) && (After(m, s, i) != [] ==> EndsLine(Blocks(m, s)[i]))
  {
    var x, c := Blocks(m, s)[i], After(m, s, i);
    HeaderAt(m, s, i);
    assert s[Headers(m, s)[i].start..] == x + c;
    if i + 1 < |Headers(m, s)| {
      SeamOfBlock(m, s, i);
      assert Independent(m, c);
    } else {
      assert x + c == x;
    }
  }

  lemma {:induction false} TileFrom(m: Pattern, s: string, i: nat)
    requires i < |Headers(m, s)|
    ensures Concat(Blocks(m, s)[i..]) == s[Headers(m, s)[i].start..]
    decreases |Headers(m, s)| - i
  {
    var hits := Headers(m, s);
    ConcatFrom(Blocks(m, s), i);
    if i + 1 < |hits| {
      TileFrom(m, s, i + 1);
      assert s[hits[i].start..] == s[hits[i].start..hits[i + 1].start] + s[hits[i + 1].start..];
    } else {
      assert Blocks(m, s)[i + 1..] == [];
    }
  }

  /** One record per header, and the blocks tile the output: nothing between the first header and the end is lost. */
  lemma BlocksTile(m: Pattern, s: string, read: Reader)
    requires Delimits(m)
    ensures |Parse(m, s, read)| == |Blocks(m, s)| == |Headers(m, s)|
    ensures Headers(m, s) != [] ==> s == s[..Headers(m, s)[0].start] + Concat(Blocks(m, s))
    ensures forall b :: b in Blocks(m, s) ==> Begins(m, b)
  {
    if Headers(m, s) != [] {
      TileFrom(m, s, 0);
      assert Blocks(m, s)[0..] == Blocks(m, s);
    }
    forall i | 0 <= i < |Headers(m, s)| ensures Begins(m, Blocks(m, s)[i]) {
      BlockInPlace(m, s, i);
    }
  }

  // ---------- Locality ----------

  lemma HeadersConcat(m: Pattern, a: string, b: string)
    requires StaysInside(m) && Independent(m, b) && WholeLines(a)
    ensures Headers(m, a + b) == Headers(m, a) + Shift(|a|, Headers(m, b))
  {
    FindIterConcat(m, a, b);
  }

  lemma FirstHeader(m: Pattern, b: string)
    requires StaysInside(m) && Begins(m, b)
    ensures Headers(m, b) != [] && Headers(m, b)[0] == Hit(0, m(b).value.groups)
  {
    ScanHit(m, b, 0, m(b).value);
  }

  lemma SliceOfFirst(a: string, b: string, i: nat, j: nat)
    requires i <= j <= |a|
    ensures (a + b)[i..j] == a[i..j]
  {
  }

  lemma SliceOfSecond(a: string, b: string, i: nat, j: nat, lo: nat, hi: nat)
    requires i <= j <= |b| && lo == |a| + i && hi == |a| + j
    ensures (a + b)[lo..hi] == b[i..j]
  {
  }

  /** The headers of `a + b`, those of `b` moved behind `a`; `b` is empty or begins with its first header. */
  ghost predicate Seam(a: string, b: string, ha: seq<Hit>, hb: seq<Hit>, h: seq<Hit>) {
    && h == ha + Shift(|a|, hb)
    && Ascending(a, ha) && Ascending(b, hb) && Ascending(a + b, h)
    && (b == "" || (hb != [] && hb[0].start == 0))
  }

  lemma RecordOfFirst(a: string, b: string, ha: seq<Hit>, hb: seq<Hit>, h: seq<Hit>, read: Reader, i: nat)
    requires Seam(a, b, ha, hb, h) && i < |ha|
    ensures Records(a + b, h, read)[i] == Records(a, ha, read)[i]
  {
    assert BlockEnd(a + b, h, i) == BlockEnd(a, ha, i);
    SliceOfFirst(a, b, ha[i].start, BlockEnd(a, ha, i));
  }

  lemma RecordOfSecond(a: string, b: string, ha: seq<Hit>, hb: seq<Hit>, h: seq<Hit>, read: Reader, i: nat, k: nat)
    requires Seam(a, b, ha, hb, h) && i < |hb| && k == |ha| + i
    ensures Records(a + b, h, read)[k] == Records(b, hb, read)[i]
  {
    assert h[k] == Shift(|a|, hb)[i];
    assert i + 1 < |hb| ==> h[k + 1] == Shift(|a|, hb)[i + 1];
    SliceOfSecond(a, b, hb[i].start, BlockEnd(b, hb, i), h[k].start, BlockEnd(a + b, h, k));
    assert Block(a + b, h, k) == Block(b, hb, i);
  }

  lemma RecordsConcat(a: string, b: string, ha: seq<Hit>, hb: seq<Hit>, h: seq<Hit>, read: Reader)
    requires Seam(a, b, ha, hb, h)
    ensures Records(a + b, h, read) == Records(a, ha, read) + Records(b, hb, read)
  {
    var p, q, r := Records(a, ha, read), Records(b, hb, read), Records(a + b, h, read);
    forall k | 0 <= k < |r| ensures r[k] == (p + q)[k] {
      if k < |p| {
        RecordOfFirst(a, b, ha, hb, h, read, k);
      } else {
        var i := k - |p|;
        RecordOfSecond(a, b, ha, hb, h, read, i, k);
      }
    }
  }

  /** Output that ends a line can be parsed apart from what follows if no header depends on the latter. */
  lemma ParseSeam(m: Pattern, a: string, b: string, read: Reader)
    requires StaysInside(m) && Independent(m, b) && WholeLines(a) && Next(m, b)
    ensures Parse(m, a + b, read) == Parse(m, a, read) + Parse(m, b, read)
  {
    HeadersConcat(m, a, b);
    if b != [] {
      FirstHeader(m, b);
    }
    RecordsConcat(a, b, Headers(m, a), Headers(m, b), Headers(m, a + b), read);
  }

  /** Parsing is a homomorphism: output that ends a line and output that begins with a header can be parsed apart. */
  lemma ParseConcat(m: Pattern, a: string, b: string, read: Reader)
    requires Delimits(m) && WholeLines(a) && Next(m, b)
    ensures Parse(m, a + b, read) == Parse(m, a, read) + Parse(m, b, read)
  {
    assert Independent(m, b);
    ParseSeam(m, a, b, read);
  }

  lemma JoinedFollows(m: Pattern, x: string, c: string)
    requires Delimits(m) && Begins(m, x) && Next(m, c) && (c != [] ==> EndsLine(x))
    ensures Begins(m, x + c)
  {
    if c == [] {
      assert x + c == x;
    } else {
      assert Independent(m, c);
    }
  }

  lemma PositionOf(hits: seq<Hit>, i: nat, j: nat)
    requires forall k, l :: 0 <= k < l < |hits| ==> hits[k].start < hits[l].start
    requires i < |hits| && j < |hits| && hits[i].start == hits[j].start
    ensures i == j
  {
  }

  /** The text before block `i` has the first `i` headers. */
  lemma HeadersBefore(m: Pattern, s: string, i: nat)
    requires Delimits(m) && i < |Headers(m, s)|
    ensures |Headers(m, Before(m, s, i))| == i
  {
    var a, x, c := Before(m, s, i), Blocks(m, s)[i], After(m, s, i);
    BlockInPlace(m, s, i);
    JoinedFollows(m, x, c);
    HeadersConcat(m, a, x + c);
    FirstHeader(m, x + c);
    PositionOf(Headers(m, s), i, |Headers(m, a)|);
  }

  /** A block has one header, its own. */
  lemma HeadersOfBlock(m: Pattern, s: string, i: nat)
    requires Delimits(m) && i < |Headers(m, s)|
    ensures |Headers(m, Blocks(m, s)[i])| == 1
  {
    var a, x, c := Before(m, s, i), Blocks(m, s)[i], After(m, s, i);
    BlockInPlace(m, s, i);
    HeadersBefore(m, s, i);
    FirstHeader(m, x);
    if i + 1 < |Headers(m, s)| {
      HeadersBefore(m, s, i + 1);
      assert Before(m, s, i + 1) == a + x;
    } else {
      assert s == a + x;
    }
    HeadersConcat(m, a, x);
  }

  lemma UpdateMiddle<T>(a: seq<T>, x: T, y: T, c: seq<T>)
    ensures a + ([y] + c) == (a + ([x] + c))[|a| := y]
  {
  }

  lemma ParseOne(m: Pattern, x: string, read: Reader)
    requires Delimits(m) && Begins(m, x) && |Headers(m, x)| == 1
    ensures Parse(m, x, read) == [read(m(x).value.groups, x)]
  {
    FirstHeader(m, x);
    assert x[0..|x|] == x;
  }

  /** Rewriting one block, without creating or destroying headers, changes only that block's record. */
  lemma RewriteBlock(m: Pattern, s: string, i: nat, x: string, read: Reader)
    requires Delimits(m) && i < |Headers(m, s)|
    requires Begins(m, x) && |Headers(m, x)| == 1 && (After(m, s, i) != [] ==> EndsLine(x))
    ensures Parse(m, Before(m, s, i) + (x + After(m, s, i)), read)
         == Parse(m, s, read)[i := read(m(x).value.groups, x)]
  {
    var a, was, c := Before(m, s, i), Blocks(m, s)[i], After(m, s, i);
    BlockInPlace(m, s, i);
    HeadersBefore(m, s, i);
    HeadersOfBlock(m, s, i);
    ThreeParts(m, a, was, c, read);
    ThreeParts(m, a, x, c, read);
    ParseOne(m, was, read);
    ParseOne(m, x, read);
    UpdateMiddle(Parse(m, a, read), Parse(m, was, read)[0], Parse(m, x, read)[0], Parse(m, c, read));
  }

  lemma ThreeParts(m: Pattern, a: string, x: string, c: string, read: Reader)
    requires Delimits(m) && WholeLines(a) && Begins(m, x) && Next(m, c) && (c != [] ==> EndsLine(x))
    ensures Parse(m, a + (x + c), read) == Parse(m, a, read) + (Parse(m, x, read) + Parse(m, c, read))
  {
    JoinedFollows(m, x, c);
    ParseConcat(m, a, x + c, read);
    if c == [] {
      assert x + c == x && Parse(m, c, read) == [];
    } else {
      ParseConcat(m, x, c, read);
    }
  }
}
