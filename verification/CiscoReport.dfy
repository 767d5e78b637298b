/**
 * `show interfaces` as a list of records: the output is cut into blocks from header to header, and each block yields
 * one record.
 */
module CiscoReport {
  import opened Base
  import opened Cisco
  import opened InterfaceFields
  import opened Patterns
  import opened Reports
  import opened Scanner
  import opened Tables

  function Parse(s: string, extract: Extract): seq<ParsedIface> {
    Reports.Parse(MatchHeader, s, ReadWith(extract))
  }

  method ParseCiscoInterfaces(output: string, extract: Extract) returns (interfaces: seq<ParsedIface>)
    ensures interfaces == Parse(output, extract)
  {
    var headers := Headers(MatchHeader, output);
    interfaces := [];
    for i := 0 to |headers|
      invariant interfaces == Parse(output, extract)[..i]
    {
      var end := if i + 1 < |headers| then headers[i + 1].start else |output|;
      var block := output[headers[i].start..end];
      var fields := extract(block);
      interfaces := interfaces + [Record(headers[i].groups, fields)];
      TakePush(Parse(output, extract), i);
    }
  }

  // ---------- One record for each header ----------

  lemma HeaderWords(t: string)
    requires MatchHeader(t).Some?
    ensures NormalWords(MatchHeader(t).value.groups)
  {
    MatchSound(HEADER, t);
    var m := Match(HEADER, t).value;
    assert Fits(HEADER[2], m.parts[2]) && Fits(HEADER[6], m.parts[6]);
  }

  /** Every record's states are "up" or "down": "up" exactly when the header said so, in whatever case. */
  lemma StatesAreNormal(s: string, i: nat, extract: Extract)
    requires i < |Headers(MatchHeader, s)|
    ensures NormalRecord(Headers(MatchHeader, s)[i].groups, Parse(s, extract)[i])
    ensures CarriesFields(Parse(s, extract)[i], extract(Block(s, Headers(MatchHeader, s), i)))
  {
    HeaderAt(MatchHeader, s, i);
    HeaderWords(s[Headers(MatchHeader, s)[i].start..]);
    RecordAt(MatchHeader, s, i, extract);
  }

  /**
   * A header, whatever follows it, is read back: the record has its name, is administratively up exactly when the first
   * state is `up`, and has the second state for its operational one.
   */
  lemma HeaderReadBack(
    t: string, name: string, verb: string, admin: string, gap: string, protocol: string, oper: string, rest: string,
    extract: Extract)
    requires HeaderText(t, name, verb, admin, gap, protocol, oper, rest)
    ensures Parse(t, extract) != []
    ensures var r := Parse(t, extract)[0];
            && r.name == name
            && r.adminStatus == Some(if Lower(admin) == "up" then "up" else "down")
            && r.operStatus == Some(Lower(oper))
  {
    TextFound(t, name, verb, admin, gap, protocol, oper, rest);
    HeaderStaysInside();
    HeaderWords(t);
    FirstRecord(MatchHeader, t, extract);
  }

  // ---------- The header pattern delimits blocks ----------

  lemma CiscoDelimits()
    ensures Delimits(MatchHeader)
  {
    HeaderStaysInside();
    HeadersDoNotNest();
    forall b | Next(MatchHeader, b) ensures Independent(MatchHeader, b) {
      HeaderFollows(b);
    }
  }

  /** The records are those of all line starts at which the header pattern matches, and of no others. */
  lemma HeadersAreAllMatches(s: string, p: nat)
    requires p < |s|
    ensures HasHit(Headers(MatchHeader, s), p) <==> LineStart(s, p) && MatchHeader(s[p..]).Some?
  {
    CiscoDelimits();
    Reports.HeadersAreAllMatches(MatchHeader, s, p);
  }

  /** One record per header, and the blocks tile the output: nothing between the first header and the end is lost. */
  lemma BlocksTile(s: string, extract: Extract)
    ensures |Parse(s, extract)| == |Headers(MatchHeader, s)| == |Blocks(MatchHeader, s)|
    ensures var hits := Headers(MatchHeader, s);
            hits != [] ==> s == s[..hits[0].start] + Concat(Blocks(MatchHeader, s))
    ensures forall b :: b in Blocks(MatchHeader, s) ==> MatchHeader(b).Some?
  {
    CiscoDelimits();
    Reports.BlocksTile(MatchHeader, s, ReadWith(extract));
  }

  /** Parsing is a homomorphism: no header straddles the seam, and the last block of `a` is unchanged. */
  lemma ParseConcat(a: string, b: string, extract: Extract)
    requires (a == "" || EndsLine(a)) && (b == "" || MatchHeader(b).Some?)
    ensures Parse(a + b, extract) == Parse(a, extract) + Parse(b, extract)
  {
    CiscoDelimits();
    Reports.ParseConcat(MatchHeader, a, b, ReadWith(extract));
  }

  /** The record of a block depends on that block only: rewriting it leaves every other record alone. */
  lemma RewriteBlock(s: string, i: nat, x: string, extract: Extract)
    requires i < |Headers(MatchHeader, s)|
    requires MatchHeader(x).Some? && |Headers(MatchHeader, x)| == 1
    requires After(MatchHeader, s, i) != [] ==> EndsLine(x)
    ensures Parse(Before(MatchHeader, s, i) + (x + After(MatchHeader, s, i)), extract)
         == Parse(s, extract)[i := Record(MatchHeader(x).value.groups, extract(x))]
  {
    CiscoDelimits();
    Reports.RewriteBlock(MatchHeader, s, i, x, ReadWith(extract));
  }
}
