/**
 What a successful parse says about the packet: every octet is accounted for, RDATA ranges do
 not overlap, and parsing without copying RDATA reads the same message.
 */
module MessageLayout {
  import opened Results
  import opened Bytes
  import opened Names
  import opened Message

  /** The length field that precedes RDATA. */
  function RdLength(data: Octets, rr: ResourceRecord): nat
    requires 2 <= rr.rdataOffset <= |data|
  {
    ReadU16(data, rr.rdataOffset - 2)
  }

  /** The record's RDATA lies in the packet; `rdata` is a copy of it when RDATA was copied. */
  predicate RdataInside(data: Octets, rr: ResourceRecord, copied: bool) {
    && 2 <= rr.rdataOffset <= |data|
    && rr.rdataOffset + RdLength(data, rr) <= |data|
    && rr.rdata == if copied then data[rr.rdataOffset..rr.rdataOffset + RdLength(data, rr)] else []
  }

  function RdataEnd(data: Octets, rr: ResourceRecord): nat
    requires 2 <= rr.rdataOffset <= |data|
  {
    rr.rdataOffset + RdLength(data, rr)
  }

  /** Records fill the octets from `from` to `to` in order; each needs a name and ten fixed octets before its RDATA. */
  ghost predicate LaidOut(data: Octets, records: seq<ResourceRecord>, copied: bool, from: nat, to: nat) {
    && from <= to
    && (forall i :: 0 <= i < |records| ==> RdataInside(data, records[i], copied))
    && (forall i :: 0 <= i < |records| ==> from + 11 <= records[i].rdataOffset && RdataEnd(data, records[i]) <= to)
    && (forall i, j :: 0 <= i < j < |records| ==> RdataEnd(data, records[i]) + 11 <= records[j].rdataOffset)
  }

  lemma LaidOutTogether(data: Octets, a: seq<ResourceRecord>, b: seq<ResourceRecord>, copied: bool,
                        from: nat, middle: nat, to: nat)
    requires LaidOut(data, a, copied, from, middle) && LaidOut(data, b, copied, middle, to)
    ensures LaidOut(data, a + b, copied, from, to)
  {
  }

  lemma RecordLaidOut(data: Octets, offset: nat, copied: bool)
    requires ReadRecord(data, offset, copied).Ok?
    ensures LaidOut(data, [ReadRecord(data, offset, copied).value.0], copied,
                    offset, ReadRecord(data, offset, copied).value.1)
    ensures offset + 11 <= ReadRecord(data, offset, copied).value.1 <= |data|
  {
    hide NameAt;
    NameEnds(data, offset);
  }

  lemma {:induction false} RecordsLaidOut(data: Octets, offset: nat, count: nat, copied: bool)
    requires ReadRecords(data, offset, count, copied).Ok?
    ensures |ReadRecords(data, offset, count, copied).value.0| == count
    ensures LaidOut(data, ReadRecords(data, offset, count, copied).value.0, copied,
                    offset, ReadRecords(data, offset, count, copied).value.1)
    ensures offset + 11 * count <= ReadRecords(data, offset, count, copied).value.1
    ensures offset <= |data| ==> ReadRecords(data, offset, count, copied).value.1 <= |data|
    decreases count
  {
    hide NameAt;
    if count > 0 {
      RecordLaidOut(data, offset, copied);
      var (first, next) := ReadRecord(data, offset, copied).value;
      RecordsLaidOut(data, next, count - 1, copied);
      var (rest, end) := ReadRecords(data, next, count - 1, copied).value;
      LaidOutTogether(data, [first], rest, copied, offset, next, end);
    }
  }

  lemma {:induction false} QuestionsAccount(data: Octets, offset: nat, count: nat)
    requires ReadQuestions(data, offset, count).Ok?
    ensures |ReadQuestions(data, offset, count).value.0| == count
    ensures offset + 5 * count <= ReadQuestions(data, offset, count).value.1
    ensures offset <= |data| ==> ReadQuestions(data, offset, count).value.1 <= |data|
    decreases count
  {
    hide NameAt;
    if count > 0 {
      NameEnds(data, offset);
      QuestionsAccount(data, ReadQuestion(data, offset).value.1, count - 1);
    }
  }

  /**
   A parsed packet accounts for its octets: the sections hold as many entries as the header says,
   the entries fit between the header and the end, and the RDATA ranges of all records, in order,
   are disjoint and inside the packet.
   */
  lemma ParsedMessageAccounts(data: Octets, copied: bool)
    requires ReadMessage(data, copied).Ok?
    ensures var m := ReadMessage(data, copied).value;
            var h, s := ReadHeader(data), m.sections;
            && |s.questions| == h.qdcount && |s.answers| == h.ancount
            && |s.authorities| == h.nscount && |s.additionals| == h.arcount
            && 12 + 5 * h.qdcount as int + 11 * (h.ancount as int + h.nscount as int + h.arcount as int)
               <= s.end <= |data|
            && LaidOut(data, s.answers + s.authorities + s.additionals, copied,
                       12 + 5 * h.qdcount as int, s.end)
  {
    hide NameAt, ReadHeader;
    var h := ReadHeader(data);
    QuestionsAccount(data, HEADER_SIZE, h.qdcount);
    var (_, o1) := ReadQuestions(data, HEADER_SIZE, h.qdcount).value;
    RecordsLaidOut(data, o1, h.ancount, copied);
    var (answers, o2) := ReadRecords(data, o1, h.ancount, copied).value;
    RecordsLaidOut(data, o2, h.nscount, copied);
    var (authorities, o3) := ReadRecords(data, o2, h.nscount, copied).value;
    RecordsLaidOut(data, o3, h.arcount, copied);
    var (additionals, o4) := ReadRecords(data, o3, h.arcount, copied).value;
    LaidOutTogether(data, answers, authorities, copied, o1, o2, o3);
    LaidOutTogether(data, answers + authorities, additionals, copied, o1, o3, o4);
  }

  // ------------------------------------------------------------------ the path without copies

  function WithoutRdata(rr: ResourceRecord): ResourceRecord {
    rr.(rdata := [])
  }

  function AllWithoutRdata(records: seq<ResourceRecord>): (bare: seq<ResourceRecord>)
    ensures |bare| == |records|
    ensures forall i :: 0 <= i < |records| ==> bare[i] == WithoutRdata(records[i])
  {
    if records == [] then [] else [WithoutRdata(records[0])] + AllWithoutRdata(records[1..])
  }

  function SectionsWithoutRdata(s: Sections): Sections {
    s.(answers := AllWithoutRdata(s.answers),
       authorities := AllWithoutRdata(s.authorities),
       additionals := AllWithoutRdata(s.additionals))
  }

  lemma {:induction false} RecordsWithoutCopy(data: Octets, offset: nat, count: nat)
    ensures ReadRecords(data, offset, count, false)
         == match ReadRecords(data, offset, count, true)
            case Err(e) => Err(e)
            case Ok((records, end)) => Ok((AllWithoutRdata(records), end))
    decreases count
  {
    hide NameAt;
    if count > 0 && ReadRecord(data, offset, true).Ok? {
      RecordsWithoutCopy(data, ReadRecord(data, offset, true).value.1, count - 1);
    }
  }

  lemma SectionsWithoutCopy(data: Octets)
    requires |data| >= HEADER_SIZE
    ensures ReadSections(data, false)
         == match ReadSections(data, true)
            case Err(e) => Err(e)
            case Ok(s) => Ok(SectionsWithoutRdata(s))
  {
    hide NameAt, ReadHeader;
    var h := ReadHeader(data);
    var questions := ReadQuestions(data, HEADER_SIZE, h.qdcount);
    if questions.Ok? {
      RecordsWithoutCopy(data, questions.value.1, h.ancount);
      var answers := ReadRecords(data, questions.value.1, h.ancount, true);
      if answers.Ok? {
        RecordsWithoutCopy(data, answers.value.1, h.nscount);
        var authorities := ReadRecords(data, answers.value.1, h.nscount, true);
        if authorities.Ok? { RecordsWithoutCopy(data, authorities.value.1, h.arcount); }
      }
    }
  }

  function WithoutOptions(edns: Option<EdnsInfo>): Option<EdnsInfo> {
    match edns
    case None => None
    case Some(info) => Some(info.(options := []))
  }

  /** Every record read as EDNS has well-formed options. */
  ghost predicate CandidatesReadable(records: seq<ResourceRecord>) {
    forall i :: 0 <= i < |records| && IsOptCandidate(records[i]) ==> ReadOptions(records[i].rdata, 0).Ok?
  }

  lemma CandidatesSnoc(before: seq<ResourceRecord>, last: ResourceRecord)
    ensures CandidatesReadable(before + [last])
       <==> CandidatesReadable(before) && (IsOptCandidate(last) ==> ReadOptions(last.rdata, 0).Ok?)
  {
    var records := before + [last];
    if CandidatesReadable(records) {
      assert records[|before|] == last;
      forall i | 0 <= i < |before| && IsOptCandidate(before[i]) ensures ReadOptions(before[i].rdata, 0).Ok? {
        assert records[i] == before[i];
      }
    }
  }

  lemma BareSnoc(before: seq<ResourceRecord>, last: ResourceRecord)
    ensures AllWithoutRdata(before + [last]) == AllWithoutRdata(before) + [WithoutRdata(last)]
  {
  }

  lemma BareEdns(rr: ResourceRecord)
    requires rr.rtype == TYPE_OPT
    ensures ReadEdns(rr).Ok? <==> ReadOptions(rr.rdata, 0).Ok?
    ensures ReadEdns(WithoutRdata(rr)).Ok?
    ensures ReadEdns(rr).Ok? ==> ReadEdns(WithoutRdata(rr)).value == WithoutOptions(ReadEdns(rr).value)
  {
    assert ReadOptions(WithoutRdata(rr).rdata, 0) == Ok([]);
  }

  lemma {:induction false} EdnsWithoutCopy(records: seq<ResourceRecord>)
    ensures EdnsOf(records).Ok? <==> CandidatesReadable(records)
    ensures EdnsOf(AllWithoutRdata(records)).Ok?
    ensures EdnsOf(records).Ok? ==> EdnsOf(AllWithoutRdata(records)).value == WithoutOptions(EdnsOf(records).value)
  {
    if records != [] {
      var before, last := records[..|records| - 1], records[|records| - 1];
      assert records == before + [last];
      EdnsWithoutCopy(before);
      CandidatesSnoc(before, last);
      BareSnoc(before, last);
      EdnsSnoc(before, last);
      EdnsSnoc(AllWithoutRdata(before), WithoutRdata(last));
      if last.rtype == TYPE_OPT { BareEdns(last); }
    }
  }

  lemma EdnsSnoc(before: seq<ResourceRecord>, last: ResourceRecord)
    ensures EdnsOf(before + [last])
         == if EdnsOf(before).Ok? && IsOptCandidate(last) then ReadEdns(last) else EdnsOf(before)
  {
    assert (before + [last])[..|before|] == before;
  }

  function MessageWithoutRdata(m: ParsedMessage): ParsedMessage {
    m.(sections := SectionsWithoutRdata(m.sections), edns := WithoutOptions(m.edns))
  }

  /**
   The path without copies reads the same message but for RDATA and EDNS options, and it accepts
   more: copying accepts exactly the packets of the other path whose EDNS candidates have
   well-formed options.
   */
  lemma FastPathAgrees(data: Octets)
    ensures ReadMessage(data, false).Ok? <==> |data| >= HEADER_SIZE && ReadSections(data, true).Ok?
    ensures ReadMessage(data, true).Ok?
       <==> ReadMessage(data, false).Ok? && CandidatesReadable(ReadSections(data, true).value.additionals)
    ensures ReadMessage(data, true).Ok?
        ==> ReadMessage(data, false) == Ok(MessageWithoutRdata(ReadMessage(data, true).value))
  {
    if |data| >= HEADER_SIZE {
      SectionsWithoutCopy(data);
      var s := ReadSections(data, true);
      if s.Ok? {
        EdnsWithoutCopy(s.value.additionals);
        var edns := EdnsOf(s.value.additionals);
        if edns.Ok? { SameRcode(ReadHeader(data).rcode, edns.value); }
      }
    }
  }

  lemma SameRcode(rcode: Byte, edns: Option<EdnsInfo>)
    ensures FullRcode(rcode, WithoutOptions(edns)) == FullRcode(rcode, edns)
  {
  }

  lemma {:induction false} EdnsPresent(records: seq<ResourceRecord>)
    requires EdnsOf(records).Ok?
    ensures EdnsOf(records).value.Some? <==> exists i :: 0 <= i < |records| && IsOptCandidate(records[i])
  {
    if records != [] {
      var before, last := records[..|records| - 1], records[|records| - 1];
      EdnsPresent(before);
      assert forall i :: 0 <= i < |before| ==> before[i] == records[i];
      if IsOptCandidate(last) { assert IsOptCandidate(records[|records| - 1]); }
    }
  }

  /**
   When a parsed message carries EDNS information: exactly when some additional OPT record has a
   one-octet owner name and a non-zero class. The root owner that section 6.1.2 of RFC 6891
   demands decodes to the empty name, so a standard OPT record alone never sets it.
   */
  lemma EdnsExactlyForCandidates(data: Octets, copied: bool)
    requires ReadMessage(data, copied).Ok?
    ensures var m := ReadMessage(data, copied).value;
            && (m.edns.Some? <==> exists i :: 0 <= i < |m.sections.additionals| && IsOptCandidate(m.sections.additionals[i]))
            && (m.edns.None? ==> m.rcode == data[3] % 0x10)
  {
    EdnsPresent(ReadSections(data, copied).value.additionals);
  }
}
