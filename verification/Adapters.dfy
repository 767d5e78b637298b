/** The interface parsers by vendor, and what their output has for interface names. */
module Adapters {
  import opened Base
  import opened InterfaceFields
  import opened Scanner
  import opened Tables
  import Cisco
  import CiscoReport
  import Huawei
  import Nokia
  import Reports

  /** The parts of the parsers that are not modelled: the searches for the fields of a block, by vendor. */
  datatype Parsers = Parsers(cisco: Extract, huawei: Extract)

  /** `get_vendor_adapter(vendor).parse_interfaces(text)`, for a supported vendor */
  function ParseInterfaces(vendor: string, text: string, parsers: Parsers): seq<ParsedIface> {
    var name := Lower(Strip(vendor));
    if name == "cisco" then CiscoReport.Parse(text, parsers.cisco)
    else if name == "nokia" then Nokia.Parse(text)
    else Huawei.Parse(text, parsers.huawei)
  }

  /** Each vendor's text is read by the parser of that vendor. */
  lemma ParserOfVendor(vendor: string, text: string, parsers: Parsers)
    requires SupportedVendor(vendor)
    ensures Lower(Strip(vendor)) == "cisco" ==>
              ParseInterfaces(vendor, text, parsers) == CiscoReport.Parse(text, parsers.cisco)
    ensures Lower(Strip(vendor)) == "huawei" ==>
              ParseInterfaces(vendor, text, parsers) == Huawei.Parse(text, parsers.huawei)
    ensures Lower(Strip(vendor)) == "nokia" ==> ParseInterfaces(vendor, text, parsers) == Nokia.Parse(text)
  {
    var name := Lower(Strip(vendor));
    assert "cisco"[0] == 'c' && "huawei"[0] == 'h' && "nokia"[0] == 'n';
  }

  method CallParser(vendor: string, text: string, parsers: Parsers) returns (interfaces: seq<ParsedIface>)
    ensures interfaces == ParseInterfaces(vendor, text, parsers)
  {
    var name := Lower(Strip(vendor));
    if name == "cisco" {
      interfaces := CiscoReport.ParseCiscoInterfaces(text, parsers.cisco);
    } else if name == "nokia" {
      interfaces := Nokia.ParseNokiaInterfaces(text);
    } else {
      interfaces := Huawei.ParseHuaweiInterfaces(text, parsers.huawei);
    }
  }

  /** The interface `n` occurs at most once. */
  ghost predicate OnceIn(found: seq<ParsedIface>, n: string) {
    forall i, j :: 0 <= i < j < |found| ==> !(found[i].name == n && found[j].name == n)
  }

  /** At most one of the headers or rows found in a text has the name `n`. */
  ghost predicate OnceAmong(hits: seq<Hit>, n: string) {
    forall i, j :: 0 <= i < j < |hits| ==> !(hits[i].groups.name == n && hits[j].groups.name == n)
  }

  lemma ReportNames(m: Pattern, text: string, extract: Extract, n: string)
    ensures OnceIn(Reports.Parse(m, text, ReadWith(extract)), n) <==> OnceAmong(Reports.Headers(m, text), n)
  {
    var hits, found := Reports.Headers(m, text), Reports.Parse(m, text, ReadWith(extract));
    forall i | 0 <= i < |hits| ensures found[i].name == hits[i].groups.name {
      NameAt(m, text, i, extract);
    }
    SameNames(hits, found, n);
  }

  lemma NokiaNames(text: string, n: string)
    ensures OnceIn(Nokia.Parse(text), n) <==> OnceAmong(FindIter(Nokia.MatchRow, text), n)
  {
    SameNames(FindIter(Nokia.MatchRow, text), Nokia.Parse(text), n);
  }

  lemma SameNames(hits: seq<Hit>, found: seq<ParsedIface>, n: string)
    requires |hits| == |found| && forall i :: 0 <= i < |hits| ==> found[i].name == hits[i].groups.name
    ensures OnceIn(found, n) <==> OnceAmong(hits, n)
  {
  }

  /** What the header or row expression of a vendor finds in a text. */
  function HitsFor(vendor: string, text: string): seq<Hit> {
    var name := Lower(Strip(vendor));
    if name == "cisco" then Reports.Headers(Cisco.MatchHeader, text)
    else if name == "nokia" then FindIter(Nokia.MatchRow, text)
    else Reports.Headers(Huawei.MatchHeader, text)
  }

  /** A batch has a name at most once exactly when the headers or rows it was read from do. */
  lemma NamesComeFromText(vendor: string, text: string, parsers: Parsers, n: string)
    ensures OnceIn(ParseInterfaces(vendor, text, parsers), n) <==> OnceAmong(HitsFor(vendor, text), n)
  {
    ReportNames(Cisco.MatchHeader, text, parsers.cisco, n);
    ReportNames(Huawei.MatchHeader, text, parsers.huawei, n);
    NokiaNames(text, n);
  }
}
