/**
 The message parser: header, questions and resource records of a whole packet (section 4.1 of
 RFC 1035), and the OPT pseudo-record (section 6.1 of RFC 6891).

 The functions say what each section reads; the methods are the parser's own loops, with one
 cursor and growing vectors. Every failure is a PARSE error, as every throw of the parser is.
 */
module Message {
  import opened Results
  import opened Bytes
  import opened Names

  const HEADER_SIZE: nat := 12
  const QUESTION_FIXED_SIZE: nat := 4
  const RR_FIXED_SIZE: nat := 10
  const OPT_NAME_SIZE: nat := 1
  const TYPE_OPT: U16 := 41

  datatype Header = Header(
    id: U16, qr: bool, opcode: Byte, aa: bool, tc: bool, rd: bool, ra: bool, rcode: Byte,
    qdcount: U16, ancount: U16, nscount: U16, arcount: U16)

  datatype Question = Question(qname: Octets, qtype: U16, qclass: U16)

  datatype ResourceRecord = ResourceRecord(
    name: Octets, rtype: U16, qclass: U16, ttl: U32, rdata: Octets, rdataOffset: nat)

  datatype EdnsOption = EdnsOption(code: U16, data: Octets)

  datatype EdnsInfo = EdnsInfo(
    udpPayloadSize: U16, extendedRcode: Byte, version: Byte, dnssecOk: bool, options: seq<EdnsOption>)

  datatype Sections = Sections(
    questions: seq<Question>, answers: seq<ResourceRecord>, authorities: seq<ResourceRecord>,
    additionals: seq<ResourceRecord>, end: nat)

  datatype ParsedMessage = ParsedMessage(
    header: Header, sections: Sections, edns: Option<EdnsInfo>, rcode: Byte)

  // ------------------------------------------------------------------ what is read

  predicate Bit(b: int, weight: int)
    requires weight > 0
  {
    b / weight % 2 == 1
  }

  function ReadHeader(data: Octets): Header
    requires |data| >= HEADER_SIZE
  {
    Header(
      ReadU16(data, 0),
      Bit(data[2], 0x80), data[2] / 8 % 0x10, Bit(data[2], 0x04), Bit(data[2], 0x02), Bit(data[2], 0x01),
      Bit(data[3], 0x80), data[3] % 0x10,
      ReadU16(data, 4), ReadU16(data, 6), ReadU16(data, 8), ReadU16(data, 10))
  }

  function ReadQuestion(data: Octets, offset: nat): Result<(Question, nat), DnsError> {
    var (name, end) :- NameAt(data, offset);
    if end + QUESTION_FIXED_SIZE > |data| then Err(PARSE)
    else Ok((Question(name, ReadU16(data, end), ReadU16(data, end + 2)), end + QUESTION_FIXED_SIZE))
  }

  function ReadRecord(data: Octets, offset: nat, copyRdata: bool): Result<(ResourceRecord, nat), DnsError> {
    var (name, end) :- NameAt(data, offset);
    if end + RR_FIXED_SIZE > |data| then Err(PARSE)
    else
      var length := ReadU16(data, end + 8);
      var start := end + RR_FIXED_SIZE;
      if start + length > |data| then Err(PARSE)
      else
        var rdata := if copyRdata then data[start..start + length] else [];
        Ok((ResourceRecord(name, ReadU16(data, end), ReadU16(data, end + 2), ReadU32(data, end + 4), rdata, start),
            start + length))
  }

  function ReadQuestions(data: Octets, offset: nat, count: nat): Result<(seq<Question>, nat), DnsError>
    decreases count
  {
    if count == 0 then Ok(([], offset))
    else
      var (first, next) :- ReadQuestion(data, offset);
      var (rest, end) :- ReadQuestions(data, next, count - 1);
      Ok(([first] + rest, end))
  }

  function ReadRecords(data: Octets, offset: nat, count: nat, copyRdata: bool)
    : Result<(seq<ResourceRecord>, nat), DnsError>
    decreases count
  {
    if count == 0 then Ok(([], offset))
    else
      var (first, next) :- ReadRecord(data, offset, copyRdata);
      var (rest, end) :- ReadRecords(data, next, count - 1, copyRdata);
      Ok(([first] + rest, end))
  }

  function ReadSections(data: Octets, copyRdata: bool): Result<Sections, DnsError>
    requires |data| >= HEADER_SIZE
  {
    var h := ReadHeader(data);
    var (questions, o1) :- ReadQuestions(data, HEADER_SIZE, h.qdcount);
    var (answers, o2) :- ReadRecords(data, o1, h.ancount, copyRdata);
    var (authorities, o3) :- ReadRecords(data, o2, h.nscount, copyRdata);
    var (additionals, o4) :- ReadRecords(data, o3, h.arcount, copyRdata);
    Ok(Sections(questions, answers, authorities, additionals, o4))
  }

  /** Code, length and data of each option; fewer than four trailing octets are ignored. */
  function ReadOptions(rdata: Octets, offset: nat): Result<seq<EdnsOption>, DnsError>
    decreases |rdata| - offset
  {
    if offset + 4 > |rdata| then Ok([])
    else
      var length := ReadU16(rdata, offset + 2);
      if offset + 4 + length > |rdata| then Err(PARSE)
      else
        var rest :- ReadOptions(rdata, offset + 4 + length);
        Ok([EdnsOption(ReadU16(rdata, offset), rdata[offset + 4..offset + 4 + length])] + rest)
  }

  /** `parse_edns`: nothing for another type, otherwise the fields packed in CLASS and TTL. */
  function ReadEdns(rr: ResourceRecord): Result<Option<EdnsInfo>, DnsError> {
    if rr.rtype != TYPE_OPT then Ok(None)
    else
      var options :- ReadOptions(rr.rdata, 0);
      Ok(Some(EdnsInfo(rr.qclass, rr.ttl / 0x100_0000, rr.ttl / 0x1_0000 % 0x100, Bit(rr.ttl, 0x8000), options)))
  }

  /** The test `parse_message` applies before it reads a record as EDNS. A decoded root name is empty. */
  predicate IsOptCandidate(rr: ResourceRecord) {
    rr.rtype == TYPE_OPT && |rr.name| == OPT_NAME_SIZE && rr.qclass > 0
  }

  /** The EDNS information left after the additional records have been looked at in order. */
  function EdnsOf(records: seq<ResourceRecord>): Result<Option<EdnsInfo>, DnsError> {
    if records == [] then Ok(None)
    else
      var last := records[|records| - 1];
      var before :- EdnsOf(records[..|records| - 1]);
      if IsOptCandidate(last) then ReadEdns(last) else Ok(before)
  }

  /** The header's four bits under the extended eight, cut to an octet. */
  function FullRcode(rcode: Byte, edns: Option<EdnsInfo>): Byte {
    if edns.None? then rcode else (rcode + edns.value.extendedRcode * 0x10) % 0x100
  }

  function ReadMessage(data: Octets, copyRdata: bool): Result<ParsedMessage, DnsError> {
    if |data| < HEADER_SIZE then Err(PARSE)
    else
      var sections :- ReadSections(data, copyRdata);
      var edns :- EdnsOf(sections.additionals);
      var h := ReadHeader(data);
      Ok(ParsedMessage(h, sections, edns, FullRcode(h.rcode, edns)))
  }

  // ------------------------------------------------------------------ the parser's loops

  ghost function Prepended<T>(done: seq<T>, rest: Result<(seq<T>, nat), DnsError>): Result<(seq<T>, nat), DnsError> {
    match rest
    case Err(e) => Err(e)
    case Ok((items, end)) => Ok((done + items, end))
  }

  lemma PrependedNothing<T>(rest: Result<(seq<T>, nat), DnsError>)
    ensures Prepended([], rest) == rest
  {
    if rest.Ok? { assert [] + rest.value.0 == rest.value.0; }
  }

  lemma PrependedStep<T>(done: seq<T>, first: T, rest: Result<(seq<T>, nat), DnsError>)
    ensures Prepended(done, Prepended([first], rest)) == Prepended(done + [first], rest)
  {
    if rest.Ok? { assert done + ([first] + rest.value.0) == done + [first] + rest.value.0; }
  }

  lemma RecordStep(data: Octets, offset: nat, count: nat, copyRdata: bool)
    requires count > 0 && ReadRecord(data, offset, copyRdata).Ok?
    ensures ReadRecords(data, offset, count, copyRdata)
         == Prepended([ReadRecord(data, offset, copyRdata).value.0],
                      ReadRecords(data, ReadRecord(data, offset, copyRdata).value.1, count - 1, copyRdata))
  {
  }

  /** The question loop of `parse_message`. */
  method ParseQuestions(data: Octets, start: nat, count: nat) returns (r: Result<(seq<Question>, nat), DnsError>)
    ensures r == ReadQuestions(data, start, count)
  {
    hide NameAt;
    var offset: nat := start;
    var questions: seq<Question> := [];
    var i := 0;
    PrependedNothing(ReadQuestions(data, start, count));
    while i < count
      invariant i <= count
      invariant ReadQuestions(data, start, count) == Prepended(questions, ReadQuestions(data, offset, count - i))
    {
      var name := DecompressName(data, offset);
      if name.Err? { return Err(name.error); }
      var (qname, end) := name.value;
      if end + QUESTION_FIXED_SIZE > |data| { return Err(PARSE); }
      var q := Question(qname, ReadU16(data, end), ReadU16(data, end + 2));
      PrependedStep(questions, q, ReadQuestions(data, end + QUESTION_FIXED_SIZE, count - i - 1));
      offset := end + QUESTION_FIXED_SIZE;
      questions := questions + [q];
      i := i + 1;
    }
    assert questions + [] == questions;
    return Ok((questions, offset));
  }

  /** The local `parse_rr` of `parse_message`: one record, and the advanced cursor. */
  method ParseRecord(data: Octets, offset: nat, copyRdata: bool) returns (r: Result<(ResourceRecord, nat), DnsError>)
    ensures r == ReadRecord(data, offset, copyRdata)
  {
    hide NameAt;
    var decoded := DecompressName(data, offset);
    if decoded.Err? { return Err(decoded.error); }
    var (name, end) := decoded.value;
    if end + RR_FIXED_SIZE > |data| { return Err(PARSE); }
    var rtype, qclass, ttl := ReadU16(data, end), ReadU16(data, end + 2), ReadU32(data, end + 4);
    var length: nat := ReadU16(data, end + 8);
    var start := end + RR_FIXED_SIZE;
    if start + length > |data| { return Err(PARSE); }
    var rdata: Octets := [];
    if copyRdata { rdata := data[start..start + length]; }
    return Ok((ResourceRecord(name, rtype, qclass, ttl, rdata, start), start + length));
  }

  /** The answer and authority loops of `parse_message`. */
  method ParseRecords(data: Octets, start: nat, count: nat, copyRdata: bool)
    returns (r: Result<(seq<ResourceRecord>, nat), DnsError>)
    ensures r == ReadRecords(data, start, count, copyRdata)
  {
    hide NameAt;
    var offset: nat := start;
    var records: seq<ResourceRecord> := [];
    var i := 0;
    PrependedNothing(ReadRecords(data, start, count, copyRdata));
    while i < count
      invariant i <= count
      invariant ReadRecords(data, start, count, copyRdata)
             == Prepended(records, ReadRecords(data, offset, count - i, copyRdata))
    {
      var rr := ParseRecord(data, offset, copyRdata);
      if rr.Err? { return Err(rr.error); }
      RecordStep(data, offset, count - i, copyRdata);
      PrependedStep(records, rr.value.0, ReadRecords(data, rr.value.1, count - i - 1, copyRdata));
      records := records + [rr.value.0];
      offset := rr.value.1;
      i := i + 1;
    }
    assert records + [] == records;
    return Ok((records, offset));
  }

  ghost function Onto(done: seq<EdnsOption>, rest: Result<seq<EdnsOption>, DnsError>): Result<seq<EdnsOption>, DnsError> {
    var items :- rest;
    Ok(done + items)
  }

  lemma OptionStep(done: seq<EdnsOption>, rdata: Octets, offset: nat, next: nat)
    requires offset + 4 <= |rdata| && next == offset + 4 + ReadU16(rdata, offset + 2) <= |rdata|
    ensures Onto(done, ReadOptions(rdata, offset))
         == Onto(done + [EdnsOption(ReadU16(rdata, offset), rdata[offset + 4..next])], ReadOptions(rdata, next))
  {
    var option := EdnsOption(ReadU16(rdata, offset), rdata[offset + 4..next]);
    var rest := ReadOptions(rdata, next);
    if rest.Ok? { assert done + ([option] + rest.value) == done + [option] + rest.value; }
  }

  /** `parse_edns`. */
  method ParseEdns(rr: ResourceRecord) returns (r: Result<Option<EdnsInfo>, DnsError>)
    ensures r == ReadEdns(rr)
  {
    if rr.rtype != TYPE_OPT { return Ok(None); }
    var options: seq<EdnsOption> := [];
    var offset: nat := 0;
    ghost var all := ReadOptions(rr.rdata, 0);
    assert all.Ok? ==> [] + all.value == all.value;
    while offset + 4 <= |rr.rdata|
      invariant all == Onto(options, ReadOptions(rr.rdata, offset))
      decreases |rr.rdata| - offset
    {
      var code := ReadU16(rr.rdata, offset);
      var length: nat := ReadU16(rr.rdata, offset + 2);
      if offset + 4 + length > |rr.rdata| { return Err(PARSE); }
      OptionStep(options, rr.rdata, offset, offset + 4 + length);
      options := options + [EdnsOption(code, rr.rdata[offset + 4..offset + 4 + length])];
      offset := offset + 4 + length;
    }
    assert options + [] == options;
    return Ok(Some(EdnsInfo(rr.qclass, rr.ttl / 0x100_0000, rr.ttl / 0x1_0000 % 0x100, Bit(rr.ttl, 0x8000), options)));
  }

  /** Records, cursor and EDNS information of the additional section. */
  ghost function Additionals(records: Result<(seq<ResourceRecord>, nat), DnsError>)
    : Result<(seq<ResourceRecord>, nat, Option<EdnsInfo>), DnsError>
  {
    var (items, end) :- records;
    var edns :- EdnsOf(items);
    Ok((items, end, edns))
  }

  /** A candidate that cannot be read fails the section, whatever follows it. */
  lemma {:induction false} EdnsFailureStays(records: seq<ResourceRecord>, more: seq<ResourceRecord>)
    requires EdnsOf(records).Err?
    ensures EdnsOf(records + more).Err?
    decreases |more|
  {
    if more == [] {
      assert records + more == records;
    } else {
      EdnsFailureStays(records, more[..|more| - 1]);
      assert (records + more)[..|records + more| - 1] == records + more[..|more| - 1];
    }
  }

  lemma {:induction false} EdnsOfErrors(records: seq<ResourceRecord>)
    ensures EdnsOf(records).Err? ==> EdnsOf(records) == Err(PARSE)
  {
    if records != [] {
      EdnsOfErrors(records[..|records| - 1]);
      OptionErrors(records[|records| - 1].rdata, 0);
    }
  }

  lemma {:induction false} RecordErrors(data: Octets, offset: nat, count: nat, copyRdata: bool)
    ensures ReadRecords(data, offset, count, copyRdata).Err? ==> ReadRecords(data, offset, count, copyRdata) == Err(PARSE)
    decreases count
  {
    if count > 0 && ReadRecord(data, offset, copyRdata).Ok? {
      RecordErrors(data, ReadRecord(data, offset, copyRdata).value.1, count - 1, copyRdata);
    }
  }

  lemma {:induction false} OptionErrors(rdata: Octets, offset: nat)
    ensures ReadOptions(rdata, offset).Err? ==> ReadOptions(rdata, offset) == Err(PARSE)
    decreases |rdata| - offset
  {
    if offset + 4 <= |rdata| && offset + 4 + ReadU16(rdata, offset + 2) <= |rdata| {
      OptionErrors(rdata, offset + 4 + ReadU16(rdata, offset + 2));
    }
  }

  lemma EdnsStep(records: seq<ResourceRecord>, record: ResourceRecord)
    requires EdnsOf(records).Ok?
    ensures EdnsOf(records + [record]) == if IsOptCandidate(record) then ReadEdns(record) else EdnsOf(records)
  {
    assert (records + [record])[..|records|] == records;
  }

  /** A record that fails as EDNS fails the whole section, whatever the rest of it holds. */
  lemma AdditionalsFail(all: Result<(seq<ResourceRecord>, nat), DnsError>, records: seq<ResourceRecord>,
                        data: Octets, next: nat, count: nat, copyRdata: bool)
    requires all == Prepended(records, ReadRecords(data, next, count, copyRdata)) && EdnsOf(records).Err?
    ensures Additionals(all) == Err(PARSE)
  {
    var rest := ReadRecords(data, next, count, copyRdata);
    RecordErrors(data, next, count, copyRdata);
    if rest.Ok? {
      EdnsFailureStays(records, rest.value.0);
      EdnsOfErrors(records + rest.value.0);
    }
  }

  /** The additional-section loop, which looks for EDNS information as it goes. */
  method ParseAdditionals(data: Octets, start: nat, count: nat, copyRdata: bool)
    returns (r: Result<(seq<ResourceRecord>, nat, Option<EdnsInfo>), DnsError>)
    ensures r == Additionals(ReadRecords(data, start, count, copyRdata))
  {
    hide NameAt;
    var offset: nat := start;
    var records: seq<ResourceRecord> := [];
    var edns: Option<EdnsInfo> := None;
    var i := 0;
    ghost var all := ReadRecords(data, start, count, copyRdata);
    PrependedNothing(all);
    while i < count
      invariant i <= count
      invariant all == Prepended(records, ReadRecords(data, offset, count - i, copyRdata))
      invariant EdnsOf(records) == Ok(edns)
    {
      var rr := ParseRecord(data, offset, copyRdata);
      if rr.Err? { return Err(rr.error); }
      var (record, next) := rr.value;
      RecordStep(data, offset, count - i, copyRdata);
      PrependedStep(records, record, ReadRecords(data, next, count - i - 1, copyRdata));
      EdnsStep(records, record);
      records := records + [record];
      if IsOptCandidate(record) {
        var info := ParseEdns(record);
        if info.Err? {
          AdditionalsFail(all, records, data, next, count - i - 1, copyRdata);
          return Err(PARSE);
        }
        edns := info.value;
      }
      offset := next;
      i := i + 1;
    }
    assert records + [] == records;
    return Ok((records, offset, edns));
  }

  /** `parse_message`. */
  method ParseMessage(data: Octets, copyRdata: bool) returns (r: Result<ParsedMessage, DnsError>)
    ensures r == ReadMessage(data, copyRdata)
  {
    hide ReadQuestions, ReadRecords, ReadHeader, EdnsOf;
    if |data| < HEADER_SIZE { return Err(PARSE); }
    var h := ReadHeader(data);
    var questions := ParseQuestions(data, HEADER_SIZE, h.qdcount);
    if questions.Err? { return Err(questions.error); }
    var answers := ParseRecords(data, questions.value.1, h.ancount, copyRdata);
    if answers.Err? { return Err(answers.error); }
    var authorities := ParseRecords(data, answers.value.1, h.nscount, copyRdata);
    if authorities.Err? { return Err(authorities.error); }
    var additionals := ParseAdditionals(data, authorities.value.1, h.arcount, copyRdata);
    if additionals.Err? { return Err(additionals.error); }
    var (records, end, edns) := additionals.value;
    var sections := Sections(questions.value.0, answers.value.0, authorities.value.0, records, end);
    return Ok(ParsedMessage(h, sections, edns, FullRcode(h.rcode, edns)));
  }
}
