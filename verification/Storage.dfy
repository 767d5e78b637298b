/** Backup file names and paths, and the disk as a map from path to content. */
module Storage {
  import opened Base
  import opened Tables

  // ---------- Slugs ----------

  predicate SlugChar(c: char) {
    'a' <= c <= 'z' || '0' <= c <= '9' || c in {'.', '_', '-'}
  }

  predicate Underscore(c: char) {
    c == '_'
  }

  /** `re.sub(r"[^a-z0-9._-]+", "_", s)`: every maximal run of other characters becomes one underscore. */
  function Squash(s: string, inRun: bool): (r: string)
    ensures forall c :: c in r ==> SlugChar(c)
  {
    if s == [] then []
    else if SlugChar(s[0]) then [s[0]] + Squash(s[1..], false)
    else (if inRun then [] else "_") + Squash(s[1..], true)
  }

  /** `s.strip("_") or "unknown"` */
  function TrimOrUnknown(s: string): string {
    var trimmed := TrimRight(Underscore, TrimLeft(Underscore, s));
    if trimmed == [] then "unknown" else trimmed
  }

  /** `_slugify` */
  function Slugify(value: string): string {
    TrimOrUnknown(Squash(Lower(Strip(value)), false))
  }

  /** What a slug looks like: nonempty, over the allowed alphabet, no underscore at either end. */
  predicate IsSlug(s: string) {
    && s != []
    && (forall i :: 0 <= i < |s| ==> SlugChar(s[i]))
    && s[0] != '_' && s[|s| - 1] != '_'
  }

  lemma TrimmedChars(s: string)
    requires forall c :: c in s ==> SlugChar(c)
    ensures var left := TrimLeft(Underscore, s);
            forall i :: 0 <= i < |left| ==> SlugChar(left[i])
  {
    var left := TrimLeft(Underscore, s);
    forall i | 0 <= i < |left| ensures SlugChar(left[i]) {
      assert left[i] == s[|s| - |left| + i];
      assert left[i] in s;
    }
  }

  lemma TrimGivesSlug(s: string)
    requires forall c :: c in s ==> SlugChar(c)
    ensures IsSlug(TrimOrUnknown(s))
  {
    TrimmedChars(s);
    var left := TrimLeft(Underscore, s);
    var trimmed := TrimRight(Underscore, left);
    assert forall i :: 0 <= i < |trimmed| ==> trimmed[i] == left[i];
    UnknownIsSlug();
  }

  lemma UnknownIsSlug()
    ensures IsSlug("unknown")
  {
  }

  lemma SlugifyGivesSlug(value: string)
    ensures IsSlug(Slugify(value))
  {
    TrimGivesSlug(Squash(Lower(Strip(value)), false));
  }

  lemma TrimKeeps(p: char -> bool, s: string)
    requires s != [] && !p(s[0]) && !p(s[|s| - 1])
    ensures TrimRight(p, TrimLeft(p, s)) == s
  {
  }

  lemma LowerKeeps(s: string)
    requires forall i :: 0 <= i < |s| ==> SlugChar(s[i])
    ensures Lower(s) == s
  {
  }

  lemma {:induction false} SquashKeeps(s: string)
    requires forall i :: 0 <= i < |s| ==> SlugChar(s[i])
    ensures Squash(s, false) == s
  {
    if s != [] {
      SquashKeeps(s[1..]);
      assert s == [s[0]] + s[1..];
    }
  }

  /** The fixed points of `_slugify` are exactly the slugs, so slugging twice changes nothing. */
  lemma SlugifyFixedPoints(value: string)
    ensures Slugify(value) == value <==> IsSlug(value)
    ensures Slugify(Slugify(value)) == Slugify(value)
  {
    SlugifyGivesSlug(value);
    if IsSlug(value) {
      SlugUnchanged(value);
    }
    SlugUnchanged(Slugify(value));
  }

  lemma SlugUnchanged(s: string)
    requires IsSlug(s)
    ensures Slugify(s) == s
  {
    assert SlugChar(s[0]) && SlugChar(s[|s| - 1]);
    TrimKeeps(IsSpace, s);
    LowerKeeps(s);
    SquashKeeps(s);
    TrimKeeps(Underscore, s);
  }

  // ---------- Paths ----------

  predicate Digits(s: string) {
    forall i :: 0 <= i < |s| ==> '0' <= s[i] <= '9'
  }

  /** A UTC second as `%Y%m%dT%H%M%SZ`. */
  predicate StampForm(s: string) {
    |s| == 16 && Digits(s[..8]) && s[8] == 'T' && Digits(s[9..15]) && s[15] == 'Z'
  }

  type Stamp = s: string | StampForm(s) witness "20260101T000000Z"

  function Filename(hostnameSlug: string, stamp: Stamp): string {
    hostnameSlug + "_" + stamp + ".cfg"
  }

  predicate NotDot(component: string) {
    component != "."
  }

  /** The parts of `BACKUP_ROOT / vendor / hostname / filename`: joining drops the component `.` but keeps `..`. */
  function Components(vendorSlug: string, hostnameSlug: string, stamp: Stamp): seq<string> {
    Filter(NotDot, ["backups", vendorSlug, hostnameSlug, Filename(hostnameSlug, stamp)])
  }

  /** The text of a path. */
  function Joined(components: seq<string>): string {
    if components == [] then ""
    else if |components| == 1 then components[0]
    else components[0] + ("/" + Joined(components[1..]))
  }

  /** The recorded path: `backups/<vendor>/<hostname>/<hostname>_<timestamp>.cfg` */
  function RelativePath(vendor: string, hostname: string, stamp: Stamp): string {
    Joined(Components(Slugify(vendor), Slugify(hostname), stamp))
  }

  lemma FourJoined(a: string, b: string, c: string, d: string)
    ensures Joined([a, b, c, d]) == a + ("/" + (b + ("/" + (c + ("/" + d)))))
  {
    assert [d][0] == d && Joined([d]) == d;
    assert [c, d][1..] == [d] && Joined([c, d]) == c + ("/" + d);
    assert [b, c, d][1..] == [c, d] && Joined([b, c, d]) == b + ("/" + (c + ("/" + d)));
    assert [a, b, c, d][1..] == [b, c, d];
  }

  function UntilSlash(s: string): (r: string)
    ensures r <= s && '/' !in r
    ensures |r| < |s| ==> s[|r|] == '/'
  {
    if s == "" || s[0] == '/' then "" else [s[0]] + UntilSlash(s[1..])
  }

  function Split(path: string): seq<string>
    decreases |path|
  {
    var first := UntilSlash(path);
    if |first| == |path| then [path] else [first] + Split(path[|first| + 1..])
  }

  function Entered(at: seq<string>, component: string): seq<string> {
    if component == ".." && at != [] && at[|at| - 1] != ".." then at[..|at| - 1] else at + [component]
  }

  /** Where the operating system finds the components, from the project root on: `..` leads back to the parent. */
  function Resolve(components: seq<string>): seq<string> {
    if components == [] then []
    else
      Entered(Resolve(components[..|components| - 1]), components[|components| - 1])
  }

  /** The file a recorded path names. */
  function FileAt(path: string): seq<string> {
    Resolve(Split(path))
  }

  lemma SlugHasNoSlash(s: string)
    requires IsSlug(s)
    ensures '/' !in s
  {
  }

  lemma FilenameInjective(slug: string, t1: Stamp, t2: Stamp)
    requires Filename(slug, t1) == Filename(slug, t2)
    ensures t1 == t2
  {
    var f1, f2 := Filename(slug, t1), Filename(slug, t2);
    assert f1[|slug| + 1..|f1| - 4] == t1 && f2[|slug| + 1..|f2| - 4] == t2;
  }

  lemma {:induction false} UntilSlashExact(a: string, b: string)
    requires '/' !in a && (b == "" || b[0] == '/')
    ensures UntilSlash(a + b) == a
  {
    if a == "" {
      assert a + b == b;
    } else {
      UntilSlashExact(a[1..], b);
      assert (a + b)[0] == a[0] && (a + b)[1..] == a[1..] + b;
    }
  }

  lemma {:induction false} SplitJoined(components: seq<string>)
    requires components != [] && forall c :: c in components ==> '/' !in c
    ensures Split(Joined(components)) == components
  {
    var first := components[0];
    assert first in components;
    if |components| == 1 {
      UntilSlashExact(first, "");
      assert first + "" == first;
    } else {
      var rest := Joined(components[1..]);
      SplitJoined(components[1..]);
      UntilSlashExact(first, "/" + rest);
      assert (first + ("/" + rest))[|first| + 1..] == rest;
      assert components == [first] + components[1..];
    }
  }

  lemma StampHasNoSlash(t: Stamp)
    ensures '/' !in t
  {
    assert forall i :: 0 <= i < 8 ==> t[i] == t[..8][i];
    assert forall i :: 9 <= i < 15 ==> t[i] == t[9..15][i - 9];
  }

  lemma FilenameHasNoSlash(h: string, t: Stamp)
    requires '/' !in h
    ensures '/' !in Filename(h, t)
    ensures Filename(h, t) != "." && Filename(h, t) != ".."
  {
    StampHasNoSlash(t);
  }

  lemma WithoutDots(a: string, v: string, h: string, f: string)
    requires NotDot(a) && NotDot(v) && NotDot(f)
    ensures Filter(NotDot, [a, v, h, f]) == if h == "." then [a, v, f] else [a, v, h, f]
  {
    assert [] + [a] == [a] && [a] + [v] == [a, v] && [a, v] + [h] == [a, v, h] && [a, v, h] + [f] == [a, v, h, f];
    assert [a, v] + [f] == [a, v, f];
    FilterPush(NotDot, [], a);
    FilterPush(NotDot, [a], v);
    FilterPush(NotDot, [a, v], h);
    FilterPush(NotDot, [a, v, h], f);
  }

  predicate Plain(component: string) {
    component != "." && component != ".."
  }

  lemma ResolvePush(components: seq<string>, c: string)
    ensures Resolve(components + [c]) == Entered(Resolve(components), c)
  {
    assert (components + [c])[..|components|] == components;
  }

  lemma ResolveThree(a: string, v: string, f: string)
    requires Plain(a) && Plain(v) && Plain(f)
    ensures Resolve([a, v]) == [a, v] && Resolve([a, v, f]) == [a, v, f]
  {
    assert [] + [a] == [a] && [a] + [v] == [a, v] && [a, v] + [f] == [a, v, f];
    ResolvePush([], a);
    ResolvePush([a], v);
    ResolvePush([a, v], f);
  }

  lemma ResolveFour(a: string, v: string, h: string, f: string)
    requires Plain(a) && Plain(v) && Plain(f)
    ensures Resolve([a, v, h, f]) == if h == ".." then [a, f] else [a, v, h, f]
  {
    ResolveThree(a, v, f);
    assert [a, v] + [h] == [a, v, h] && [a, v, h] + [f] == [a, v, h, f];
    ResolvePush([a, v], h);
    ResolvePush([a, v, h], f);
    assert [a, v][..1] == [a] && [a] + [f] == [a, f];
  }

  lemma AdapterIsSlug(name: string)
    requires name in ADAPTERS
    ensures IsSlug(name) && Plain(name)
  {
  }

  lemma SlugKept(s: string)
    requires IsSlug(s)
    ensures TrimOrUnknown(Squash(s, false)) == s
  {
    SquashKeeps(s);
    TrimKeeps(Underscore, s);
  }

  /** The recorded path, letter by letter, for a supported vendor and a host slug other than a full stop. */
  lemma PathText(vendor: string, hostname: string, stamp: Stamp)
    requires SupportedVendor(vendor) && Slugify(hostname) != "."
    ensures var v, h := Lower(Strip(vendor)), Slugify(hostname);
            RelativePath(vendor, hostname, stamp)
              == "backups" + ("/" + (v + ("/" + (h + ("/" + (h + "_" + stamp + ".cfg"))))))
  {
    var v, h := Slugify(vendor), Slugify(hostname);
    var f := Filename(h, stamp);
    VendorSlug(vendor);
    SlugifyGivesSlug(hostname);
    SlugHasNoSlash(h);
    FilenameHasNoSlash(h, stamp);
    BackupsIsPlain();
    WithoutDots("backups", v, h, f);
    FourJoined("backups", v, h, f);
  }

  /** The vendor directory of a supported vendor is the name of its adapter. */
  lemma VendorSlug(vendor: string)
    requires SupportedVendor(vendor)
    ensures Slugify(vendor) == Lower(Strip(vendor)) && Plain(Slugify(vendor))
  {
    AdapterIsSlug(Lower(Strip(vendor)));
    SlugKept(Lower(Strip(vendor)));
  }

  /** Where the file of a backup is: one level up for a host slug `.`, two levels up for `..`. */
  function Location(vendorSlug: string, hostnameSlug: string, stamp: Stamp): seq<string> {
    var file := Filename(hostnameSlug, stamp);
    if hostnameSlug == "." then ["backups", vendorSlug, file]
    else if hostnameSlug == ".." then ["backups", file]
    else ["backups", vendorSlug, hostnameSlug, file]
  }

  lemma LocationOf(v: string, h: string, stamp: Stamp)
    requires Plain(v) && '/' !in v && '/' !in h
    ensures FileAt(Joined(Components(v, h, stamp))) == Location(v, h, stamp)
  {
    var f := Filename(h, stamp);
    FilenameHasNoSlash(h, stamp);
    BackupsIsPlain();
    WithoutDots("backups", v, h, f);
    SplitJoined(Components(v, h, stamp));
    ResolveThree("backups", v, f);
    ResolveFour("backups", v, h, f);
  }

  lemma BackupsIsPlain()
    ensures Plain("backups") && '/' !in "backups"
  {
  }

  lemma VendorDirectory(vendor: string)
    requires SupportedVendor(vendor)
    ensures Plain(Slugify(vendor)) && '/' !in Slugify(vendor)
  {
    VendorSlug(vendor);
    SlugifyGivesSlug(vendor);
    SlugHasNoSlash(Slugify(vendor));
  }

  lemma FileOfBackup(vendor: string, hostname: string, stamp: Stamp)
    requires SupportedVendor(vendor)
    ensures FileAt(RelativePath(vendor, hostname, stamp)) == Location(Slugify(vendor), Slugify(hostname), stamp)
  {
    VendorDirectory(vendor);
    SlugifyGivesSlug(hostname);
    SlugHasNoSlash(Slugify(hostname));
    LocationOf(Slugify(vendor), Slugify(hostname), stamp);
  }

  /**
   * Two backups of supported vendors use the same file exactly when the second and the host slug agree, and so do
   * the vendor slugs unless the host slug is `..`.
   */
  lemma PathCollision(v1: string, h1: string, t1: Stamp, v2: string, h2: string, t2: Stamp)
    requires SupportedVendor(v1) && SupportedVendor(v2)
    ensures FileAt(RelativePath(v1, h1, t1)) == FileAt(RelativePath(v2, h2, t2))
       <==> t1 == t2 && Slugify(h1) == Slugify(h2) && (Slugify(v1) == Slugify(v2) || Slugify(h1) == "..")
  {
    FileOfBackup(v1, h1, t1);
    FileOfBackup(v2, h2, t2);
    LocationInjective(Slugify(v1), Slugify(h1), t1, Slugify(v2), Slugify(h2), t2);
  }

  lemma LocationInjective(v1: string, h1: string, t1: Stamp, v2: string, h2: string, t2: Stamp)
    ensures Location(v1, h1, t1) == Location(v2, h2, t2)
       <==> t1 == t2 && h1 == h2 && (v1 == v2 || h1 == "..")
  {
    var l1, l2 := Location(v1, h1, t1), Location(v2, h2, t2);
    if l1 == l2 {
      assert |l1| == |l2|;
      assert l1[|l1| - 1] == Filename(h1, t1) && l2[|l2| - 1] == Filename(h2, t2);
      assert h1 == h2 by {
        assert |l1| == 4 ==> l1[2] == h1 && l2[2] == h2;
      }
      FilenameInjective(h1, t1, t2);
      assert h1 != ".." ==> l1[1] == v1 && l2[1] == v2;
    }
  }

  /** The file lies in the directory of its vendor and host exactly when the host slug is neither `.` nor `..`. */
  lemma FileInHostDirectory(vendor: string, hostname: string, stamp: Stamp)
    requires SupportedVendor(vendor)
    ensures ["backups", Slugify(vendor), Slugify(hostname)] <= FileAt(RelativePath(vendor, hostname, stamp))
       <==> Slugify(hostname) != "." && Slugify(hostname) != ".."
  {
    var h := Slugify(hostname);
    FileOfBackup(vendor, hostname, stamp);
    var at := FileAt(RelativePath(vendor, hostname, stamp));
    assert h == "." ==> |at| == 3 && |at[2]| > |h|;
  }

  lemma DotsAreSlugs()
    ensures Slugify(".") == "." && Slugify("..") == ".."
  {
    SlugUnchanged(".");
    SlugUnchanged("..");
  }

  lemma PathsDiffer(v1: string, v2: string, h: string, stamp: Stamp)
    requires Plain(v1) && '/' !in v1 && Plain(v2) && '/' !in v2 && v1 != v2 && '/' !in h
    ensures Joined(Components(v1, h, stamp)) != Joined(Components(v2, h, stamp))
  {
    var f := Filename(h, stamp);
    BackupsIsPlain();
    FilenameHasNoSlash(h, stamp);
    WithoutDots("backups", v1, h, f);
    WithoutDots("backups", v2, h, f);
    SplitJoined(Components(v1, h, stamp));
    SplitJoined(Components(v2, h, stamp));
    assert Components(v1, h, stamp)[1] == v1 && Components(v2, h, stamp)[1] == v2;
  }

  lemma RecordedPathsDiffer(v1: string, v2: string, host: string, stamp: Stamp)
    requires SupportedVendor(v1) && SupportedVendor(v2) && Slugify(v1) != Slugify(v2)
    ensures RelativePath(v1, host, stamp) != RelativePath(v2, host, stamp)
  {
    VendorDirectory(v1);
    VendorDirectory(v2);
    SlugifyGivesSlug(host);
    SlugHasNoSlash(Slugify(host));
    PathsDiffer(Slugify(v1), Slugify(v2), Slugify(host), stamp);
  }

  /** Two devices of different vendors, both named `..`, write one file, although their recorded paths differ. */
  lemma DotDotHostsShareAFile(v1: string, v2: string, host: string, stamp: Stamp)
    requires SupportedVendor(v1) && SupportedVendor(v2) && Slugify(v1) != Slugify(v2)
    requires Slugify(host) == ".."
    ensures RelativePath(v1, host, stamp) != RelativePath(v2, host, stamp)
    ensures FileAt(RelativePath(v1, host, stamp)) == FileAt(RelativePath(v2, host, stamp))
  {
    PathCollision(v1, host, stamp, v2, host, stamp);
    RecordedPathsDiffer(v1, v2, host, stamp);
  }

  // ---------- The disk ----------

  /** The number of bytes of the UTF-8 encoding. */
  function Utf8Size(content: string): nat {
    if content == [] then 0
    else
      var c := content[|content| - 1] as int;
      Utf8Size(content[..|content| - 1])
      + (if c < 0x80 then 1 else if c < 0x800 then 2 else if c < 0x10000 then 3 else 4)
  }

  /** The sizes add up, and each character takes the bytes its code point needs. */
  lemma {:induction false} Utf8SizeExact(a: string, b: string, c: char)
    ensures Utf8Size(a + b) == Utf8Size(a) + Utf8Size(b)
    ensures c < '\U{80}' ==> Utf8Size([c]) == 1
    ensures '\U{80}' <= c < '\U{800}' ==> Utf8Size([c]) == 2
    ensures '\U{800}' <= c < '\U{10000}' ==> Utf8Size([c]) == 3
    ensures '\U{10000}' <= c ==> Utf8Size([c]) == 4
    decreases |b|
  {
    assert [c][..0] == [] && [c][0] == c;
    if b == "" {
      assert a + b == a;
    } else {
      assert (a + b)[..|a + b| - 1] == a + b[..|b| - 1];
      Utf8SizeExact(a, b[..|b| - 1], c);
    }
  }

  /** What the files of the disk hold after these writes, by location. */
  function Disk(writes: seq<Write>): map<seq<string>, string> {
    if writes == [] then map[]
    else
      var last := writes[|writes| - 1];
      Disk(writes[..|writes| - 1])[FileAt(last.path) := last.content]
  }

  /** No write after number `i` goes to the same file, by whatever path. */
  predicate NotRewritten(writes: seq<Write>, i: nat)
    requires i < |writes|
  {
    forall j :: i < j < |writes| ==> FileAt(writes[j].path) != FileAt(writes[i].path)
  }

  /** A written file stays, and keeps its content until the same file is written again. */
  lemma {:induction false} DiskKeeps(writes: seq<Write>, i: nat)
    requires i < |writes|
    ensures FileAt(writes[i].path) in Disk(writes)
    ensures NotRewritten(writes, i) ==> Disk(writes)[FileAt(writes[i].path)] == writes[i].content
  {
    if i < |writes| - 1 {
      var t := writes[..|writes| - 1];
      DiskKeeps(t, i);
      if NotRewritten(writes, i) {
        assert forall j :: i < j < |t| ==> t[j] == writes[j];
        assert FileAt(writes[|writes| - 1].path) != FileAt(writes[i].path);
      }
    }
  }
}
