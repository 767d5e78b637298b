/**
 * What the Cisco and Huawei parsers make of a header and its block. `Extract` stands for the field searches, which see
 * nothing but their block.
 */
module InterfaceFields {
  import opened Base
  import opened Patterns
  import opened Reports
  import opened Scanner
  import opened Tables

  const ADMIN_WORDS := ["up", "down", "administratively down"]
  const OPER_WORDS := ["up", "down"]

  lemma WordsAreDistinct()
    ensures PrefixFree(ADMIN_WORDS) && PrefixFree(OPER_WORDS)
  {
    assert ADMIN_WORDS[0][0] == 'u' && ADMIN_WORDS[1][0] == 'd' && ADMIN_WORDS[2][0] == 'a';
    assert OPER_WORDS[0][0] == 'u' && OPER_WORDS[1][0] == 'd';
  }

  lemma WordsExact(w: string)
    ensures w in ADMIN_WORDS <==> w == "up" || w == "down" || w == "administratively down"
    ensures w in OPER_WORDS <==> w == "up" || w == "down"
  {
    OneOfThree(w, "up", "down", "administratively down");
    OneOfTwo(w, "up", "down");
  }

  lemma OneOf(w: string, word: string)
    ensures w in [word] <==> w == word
  {
  }

  /** What the field searches find in one block; counters are read from digits. */
  datatype Fields = Fields(
    description: Option<string>, ipAddress: Option<string>, speed: Option<string>, duplex: Option<string>,
    inputRate: Option<nat>, outputRate: Option<nat>, inputErrors: Option<nat>, outputErrors: Option<nat>)

  type Extract = string -> Fields

  /** `word in s` */
  predicate Contains(s: string, word: string)
    ensures |s| < |word| ==> !Contains(s, word)
  {
    word <= s || (s != [] && Contains(s[1..], word))
  }

  const ADMINISTRATIVELY := "administratively"

  function AdminStatus(raw: string): string {
    if Contains(Lower(raw), ADMINISTRATIVELY) then "down" else Lower(raw)
  }

  function Counter(c: Option<nat>): (r: Option<int>)
    ensures OrZero(r) >= 0
  {
    if c.Some? then Some(c.value) else None
  }

  function Record(g: Groups, f: Fields): ParsedIface {
    Iface(g.name, f.description, Some(AdminStatus(g.admin)), Some(Lower(g.oper)), f.ipAddress, f.speed, f.duplex,
          Counter(f.inputRate), Counter(f.outputRate), Counter(f.inputErrors), Counter(f.outputErrors))
  }

  /** What is made of one block: its header's groups and what the field searches find in it. */
  function ReadWith(extract: Extract): Reader {
    (g: Groups, block: string) => Record(g, extract(block))
  }

  // ---------- Normal states ----------

  predicate NormalWords(g: Groups) {
    Lower(g.admin) in ADMIN_WORDS && Lower(g.oper) in OPER_WORDS
  }

  /** The record has the name of its header, and both states are "up" exactly when the header said so, else "down". */
  predicate NormalRecord(g: Groups, r: ParsedIface) {
    && r.name == g.name
    && r.adminStatus == Some(if Lower(g.admin) == "up" then "up" else "down")
    && r.operStatus == Some(if Lower(g.oper) == "up" then "up" else "down")
  }

  lemma AdminStatusIsUpOrDown(raw: string)
    requires Lower(raw) in ADMIN_WORDS
    ensures AdminStatus(raw) == if Lower(raw) == "up" then "up" else "down"
  {
    assert ADMINISTRATIVELY <= ADMIN_WORDS[2];
  }

  lemma OperStatusIsUpOrDown(raw: string)
    requires Lower(raw) in OPER_WORDS
    ensures Lower(raw) == if Lower(raw) == "up" then "up" else "down"
  {
  }

  lemma RecordStates(g: Groups, f: Fields)
    requires NormalWords(g)
    ensures NormalRecord(g, Record(g, f))
  {
    AdminStatusIsUpOrDown(g.admin);
    OperStatusIsUpOrDown(g.oper);
  }

  /** Every other field of the record is what the searches found in the block. */
  predicate CarriesFields(r: Iface, f: Fields) {
    && r.description == f.description && r.ipAddress == f.ipAddress && r.speed == f.speed && r.duplex == f.duplex
    && (if f.inputRate.Some? then r.inputRate == Some(f.inputRate.value) else r.inputRate == None)
    && (if f.outputRate.Some? then r.outputRate == Some(f.outputRate.value) else r.outputRate == None)
    && (if f.inputErrors.Some? then r.inputErrors == Some(f.inputErrors.value) else r.inputErrors == None)
    && (if f.outputErrors.Some? then r.outputErrors == Some(f.outputErrors.value) else r.outputErrors == None)
  }

  lemma RecordCarries(g: Groups, f: Fields)
    ensures CarriesFields(Record(g, f), f)
  {
  }

  lemma NameAt(m: Pattern, s: string, i: nat, extract: Extract)
    requires i < |Headers(m, s)|
    ensures Reports.Parse(m, s, ReadWith(extract))[i].name == Headers(m, s)[i].groups.name
  {
    var hits := Headers(m, s);
    assert Record(hits[i].groups, extract(Block(s, hits, i))).name == hits[i].groups.name;
  }

  lemma FirstNamed(m: Pattern, s: string, extract: Extract)
    requires StaysInside(m) && m(s).Some?
    ensures Reports.Parse(m, s, ReadWith(extract)) != []
    ensures Reports.Parse(m, s, ReadWith(extract))[0].name == m(s).value.groups.name
  {
    FirstHeader(m, s);
    NameAt(m, s, 0, extract);
  }

  lemma RecordAt(m: Pattern, s: string, i: nat, extract: Extract)
    requires i < |Headers(m, s)| && NormalWords(Headers(m, s)[i].groups)
    ensures NormalRecord(Headers(m, s)[i].groups, Reports.Parse(m, s, ReadWith(extract))[i])
    ensures CarriesFields(Reports.Parse(m, s, ReadWith(extract))[i], extract(Block(s, Headers(m, s), i)))
  {
    var hits := Headers(m, s);
    RecordStates(hits[i].groups, extract(Block(s, hits, i)));
    RecordCarries(hits[i].groups, extract(Block(s, hits, i)));
  }

  /** A text that begins with a header yields its record first. */
  lemma FirstRecord(m: Pattern, s: string, extract: Extract)
    requires StaysInside(m) && m(s).Some? && NormalWords(m(s).value.groups)
    ensures Reports.Parse(m, s, ReadWith(extract)) != []
    ensures NormalRecord(m(s).value.groups, Reports.Parse(m, s, ReadWith(extract))[0])
  {
    FirstHeader(m, s);
    RecordAt(m, s, 0, extract);
  }
}
