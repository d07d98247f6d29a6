/**
 Records as text: RDATA dispatch, TXT segments, and the two ways of formatting a packet's answers.

 Address rendering is a function of the octets given from outside, and so are the MX, SOA and SRV
 renderings, which read fixed fields that the dispatch does not check against RDLENGTH.
 */
module RecordText {
  import opened Results
  import opened Bytes
  import opened Names
  import opened NameEncoding
  import opened Message
  import opened MessageLayout

  const SPACE: Byte := 32
  const RCODE_NOERROR: Byte := 0

  datatype Rendering = Rendering(
    ntop4: Octets -> Octets,
    ntop6: Octets -> Octets,
    fixedFields: (Octets, nat, U16) -> Result<Octets, DnsError>)

  // ------------------------------------------------------------------ TXT

  /** The character-strings of TXT RDATA (section 3.3.14 of RFC 1035). */
  function TxtSegments(rdata: Octets, pos: nat): Option<seq<Octets>>
    decreases |rdata| - pos
  {
    if pos >= |rdata| then Some([])
    else if pos + 1 + rdata[pos] > |rdata| then None
    else
      match TxtSegments(rdata, pos + 1 + rdata[pos])
      case None => None
      case Some(rest) => Some([rdata[pos + 1..pos + 1 + rdata[pos]]] + rest)
  }

  function DropEmpty(segments: seq<Octets>): seq<Octets> {
    if segments != [] && segments[0] == [] then DropEmpty(segments[1..]) else segments
  }

  /** Segments joined by spaces. Leading empty segments leave no space behind; later ones do. */
  function TxtText(segments: seq<Octets>): Octets {
    Joined(DropEmpty(segments), SPACE)
  }

  lemma {:induction false} TxtTextGrows(segments: seq<Octets>, next: Octets)
    ensures TxtText(segments + [next])
         == TxtText(segments) + (if TxtText(segments) == [] then [] else [SPACE]) + next
  {
    var all := segments + [next];
    if segments == [] {
      assert DropEmpty([next]) == if next == [] then [] else [next];
    } else if segments[0] == [] {
      assert all[1..] == segments[1..] + [next];
      TxtTextGrows(segments[1..], next);
    } else {
      JoinedSnoc(segments, SPACE, next);
      assert Joined(segments, SPACE) != [];
    }
  }

  function ReadTxt(rdata: Octets): Result<Octets, DnsError> {
    match TxtSegments(rdata, 0)
    case None => Err(PARSE)
    case Some(segments) => Ok(TxtText(segments))
  }

  ghost function SegmentsOnto(done: seq<Octets>, rest: Option<seq<Octets>>): Option<seq<Octets>> {
    match rest
    case None => None
    case Some(segments) => Some(done + segments)
  }

  lemma SegmentStep(done: seq<Octets>, rdata: Octets, pos: nat)
    requires pos < |rdata| && pos + 1 + rdata[pos] <= |rdata|
    ensures SegmentsOnto(done, TxtSegments(rdata, pos))
         == SegmentsOnto(done + [rdata[pos + 1..pos + 1 + rdata[pos]]], TxtSegments(rdata, pos + 1 + rdata[pos]))
  {
    var segment := rdata[pos + 1..pos + 1 + rdata[pos]];
    match TxtSegments(rdata, pos + 1 + rdata[pos]) {
      case None =>
      case Some(rest) => assert done + ([segment] + rest) == done + [segment] + rest;
    }
  }

  lemma NoSegments(all: Option<seq<Octets>>)
    ensures SegmentsOnto([], all) == all && TxtText([]) == []
  {
    if all.Some? { assert [] + all.value == all.value; }
  }

  lemma LastSegments(done: seq<Octets>, rdata: Octets, pos: nat)
    requires pos < |rdata| ==> pos + 1 + rdata[pos] > |rdata|
    ensures SegmentsOnto(done, TxtSegments(rdata, pos)) == if pos < |rdata| then None else Some(done)
  {
    assert done + [] == done;
  }

  /** `format_txt`. */
  method FormatTxt(rdata: Octets) returns (r: Result<Octets, DnsError>)
    ensures r == ReadTxt(rdata)
  {
    hide SegmentsOnto, TxtText;
    var result: Octets := [];
    var pos: nat := 0;
    ghost var segments: seq<Octets> := [];
    ghost var all := TxtSegments(rdata, 0);
    NoSegments(all);
    while pos < |rdata|
      invariant all == SegmentsOnto(segments, TxtSegments(rdata, pos))
      invariant result == TxtText(segments)
      decreases |rdata| - pos
    {
      var length: nat := rdata[pos];
      if pos + 1 + length > |rdata| {
        LastSegments(segments, rdata, pos);
        return Err(PARSE);
      }
      SegmentStep(segments, rdata, pos);
      TxtTextGrows(segments, rdata[pos + 1..pos + 1 + length]);
      segments := segments + [rdata[pos + 1..pos + 1 + length]];
      if result != [] { result := result + [SPACE]; }
      result := result + rdata[pos + 1..pos + 1 + length];
      pos := pos + 1 + length;
    }
    LastSegments(segments, rdata, pos);
    return Ok(result);
  }

  // ------------------------------------------------------------------ dispatch

  /** `rdata_to_string`: the length is read again from the wire, so `rr.rdata` is not consulted. */
  function RdataToString(rr: ResourceRecord, wire: Octets, render: Rendering): Result<Octets, DnsError>
    requires 2 <= rr.rdataOffset <= |wire| && RdataEnd(wire, rr) <= |wire|
  {
    var rdata := wire[rr.rdataOffset..RdataEnd(wire, rr)];
    match rr.rtype
    case 1 => if |rdata| != 4 then Err(PARSE) else Ok(render.ntop4(rdata))
    case 28 => if |rdata| != 16 then Err(PARSE) else Ok(render.ntop6(rdata))
    case 16 => ReadTxt(rdata)
    case 5 | 2 | 12 =>
      var (name, _) :- NameAt(wire, rr.rdataOffset);
      Ok(name)
    case 15 | 6 | 33 => render.fixedFields(wire, rr.rdataOffset, rr.rtype)
    case _ => Err(PARSE)
  }

  /** The text of a record by its own data alone, for the types that need nothing else. */
  function OwnText(rtype: U16, rdata: Octets, render: Rendering): Result<Octets, DnsError>
    requires rtype == 1 || rtype == 28 || rtype == 16
  {
    if rtype == 16 then ReadTxt(rdata)
    else if |rdata| != (if rtype == 1 then 4 else 16) then Err(PARSE)
    else Ok(if rtype == 1 then render.ntop4(rdata) else render.ntop6(rdata))
  }

  datatype RecordParser = RecordParser(wire: Octets, message: ParsedMessage) {

    /** The parser holds a message that was read, with copies, from its wire. */
    ghost predicate Valid() {
      ReadMessage(wire, true) == Ok(message)
    }

    /** `parse_record`. */
    function ParseRecord(index: nat, render: Rendering): Result<Octets, DnsError>
      requires Valid()
    {
      ParsedMessageAccounts(wire, true);
      if index >= |message.sections.answers| then Err(PARSE)
      else
        AnswerInside(wire, true, index);
        RdataToString(message.sections.answers[index], wire, render)
    }
  }

  lemma AnswerInside(data: Octets, copied: bool, i: nat)
    requires ReadMessage(data, copied).Ok? && i < |ReadMessage(data, copied).value.sections.answers|
    ensures RdataInside(data, ReadMessage(data, copied).value.sections.answers[i], copied)
  {
    ParsedMessageAccounts(data, copied);
    var s := ReadMessage(data, copied).value.sections;
    assert (s.answers + s.authorities + s.additionals)[i] == s.answers[i];
  }

  /** The `RecordParser` constructor, which throws when the packet does not parse. */
  method MakeParser(data: Octets) returns (r: Result<RecordParser, DnsError>)
    ensures r.Ok? <==> ReadMessage(data, true).Ok?
    ensures r.Ok? ==> r.value.Valid() && r.value.wire == data
  {
    var m := ParseMessage(data, true);
    if m.Err? { return Err(m.error); }
    return Ok(RecordParser(data, m.value));
  }

  datatype FormattedResponse = FormattedResponse(rcode: Byte, records: seq<Octets>)

  /** `parse_strings`: the path without copies, formatting every answer of a NOERROR message. */
  method ParseStrings(data: Octets, render: Rendering) returns (r: Result<FormattedResponse, DnsError>)
    ensures ReadMessage(data, false).Err? ==> r.Err?
    ensures ReadMessage(data, false).Ok? && ReadMessage(data, false).value.rcode != RCODE_NOERROR
        ==> r == Ok(FormattedResponse(ReadMessage(data, false).value.rcode, []))
    ensures ReadMessage(data, false).Ok? && ReadMessage(data, false).value.rcode == RCODE_NOERROR
        ==> Formats(data, ReadMessage(data, false).value.sections.answers, render, r)
  {
    var m := ParseMessage(data, false);
    if m.Err? { return Err(m.error); }
    var msg := m.value;
    var records: seq<Octets> := [];
    if msg.rcode == RCODE_NOERROR {
      var i := 0;
      while i < |msg.sections.answers|
        invariant i <= |msg.sections.answers| && |records| == i
        invariant forall k :: 0 <= k < i ==> AnswerText(data, msg.sections.answers[k], render) == Ok(records[k])
      {
        AnswerInside(data, false, i);
        assert AnswerText(data, msg.sections.answers[i], render) == RdataToString(msg.sections.answers[i], data, render);
        var record := RdataToString(msg.sections.answers[i], data, render);
        if record.Err? { return Err(record.error); }
        records := records + [record.value];
        i := i + 1;
      }
    }
    return Ok(FormattedResponse(msg.rcode, records));
  }

  /** The text of one answer of the packet. */
  function AnswerText(wire: Octets, rr: ResourceRecord, render: Rendering): Result<Octets, DnsError> {
    if 2 <= rr.rdataOffset <= |wire| && RdataEnd(wire, rr) <= |wire| then RdataToString(rr, wire, render) else Err(PARSE)
  }

  /** The outcome of formatting all answers: every text in order, or failure because some answer fails. */
  ghost predicate Formats(data: Octets, answers: seq<ResourceRecord>, render: Rendering,
                          r: Result<FormattedResponse, DnsError>) {
    match r
    case Ok(response) =>
      && response.rcode == RCODE_NOERROR && |response.records| == |answers|
      && forall k :: 0 <= k < |answers| ==> AnswerText(data, answers[k], render) == Ok(response.records[k])
    case Err(_) =>
      exists k :: 0 <= k < |answers| && AnswerText(data, answers[k], render).Err?
  }

  /** Formatting never consults the copied RDATA. */
  lemma TextIgnoresCopy(rr: ResourceRecord, wire: Octets, render: Rendering)
    ensures AnswerText(wire, WithoutRdata(rr), render) == AnswerText(wire, rr, render)
  {
  }

  lemma RecordIsAnswerText(parser: RecordParser, i: nat, render: Rendering)
    requires parser.Valid() && i < |parser.message.sections.answers|
    ensures parser.ParseRecord(i, render)
         == AnswerText(parser.wire, WithoutRdata(parser.message.sections.answers[i]), render)
  {
    AnswerInside(parser.wire, true, i);
    TextIgnoresCopy(parser.message.sections.answers[i], parser.wire, render);
  }

  /**
   The two ways of formatting agree. For a NOERROR packet that the record parser accepts, formatting
   all answers at once succeeds exactly when every answer formats by itself, with the same texts.
   */
  lemma StringsAgreeWithRecords(parser: RecordParser, render: Rendering, r: Result<FormattedResponse, DnsError>)
    requires parser.Valid() && parser.message.rcode == RCODE_NOERROR
    requires ReadMessage(parser.wire, false).Ok?
    requires Formats(parser.wire, ReadMessage(parser.wire, false).value.sections.answers, render, r)
    ensures r.Ok? <==> forall i: nat :: i < |parser.message.sections.answers| ==> parser.ParseRecord(i, render).Ok?
    ensures r.Ok? ==> |r.value.records| == |parser.message.sections.answers|
    ensures r.Ok? ==> forall i: nat :: i < |r.value.records| ==> parser.ParseRecord(i, render) == Ok(r.value.records[i])
  {
    FastPathAgrees(parser.wire);
    var full := parser.message.sections.answers;
    var bare := AllWithoutRdata(full);
    assert ReadMessage(parser.wire, false).value.sections.answers == bare;
    AgreeOnAnswers(parser, render, bare, r);
  }

  lemma AgreeOnAnswers(parser: RecordParser, render: Rendering, bare: seq<ResourceRecord>,
                       r: Result<FormattedResponse, DnsError>)
    requires parser.Valid() && bare == AllWithoutRdata(parser.message.sections.answers)
    requires Formats(parser.wire, bare, render, r)
    ensures r.Ok? <==> forall i: nat :: i < |bare| ==> parser.ParseRecord(i, render).Ok?
    ensures r.Ok? ==> |r.value.records| == |bare|
    ensures r.Ok? ==> forall i: nat :: i < |bare| ==> parser.ParseRecord(i, render) == Ok(r.value.records[i])
  {
    forall i: nat | i < |bare|
      ensures parser.ParseRecord(i, render) == AnswerText(parser.wire, bare[i], render)
    {
      RecordIsAnswerText(parser, i, render);
    }
  }

  /** The re-read length is the parsed RDLENGTH: addresses and text come from the record's own copied RDATA. */
  lemma TextIsOwnRdata(parser: RecordParser, index: nat, render: Rendering)
    requires parser.Valid() && index < |parser.message.sections.answers|
    requires parser.message.sections.answers[index].rtype in {1, 28, 16}
    ensures var rr := parser.message.sections.answers[index];
            parser.ParseRecord(index, render) == OwnText(rr.rtype, rr.rdata, render)
  {
    hide ReadMessage, NameAt, ReadTxt;
    AnswerInside(parser.wire, true, index);
  }

  /** A name in an answer's RDATA, as the builder would write it, comes out as text iff it has no empty label. */
  lemma NamesInAnswers(parser: RecordParser, index: nat, name: Octets, render: Rendering)
    requires parser.Valid() && index < |parser.message.sections.answers|
    requires parser.message.sections.answers[index].rtype in {2, 5, 12}
    requires Encodable(name) && At(parser.wire, parser.message.sections.answers[index].rdataOffset, EncodedName(name))
    ensures parser.ParseRecord(index, render).Ok?
    ensures parser.ParseRecord(index, render) == Ok(Undotted(name)) <==> NoEmptyLabel(name)
  {
    hide ReadMessage, NameAt, ReadTxt, Encodable, EncodedName, NoEmptyLabel, Undotted, At;
    AnswerInside(parser.wire, true, index);
    NameRoundTrip(parser.wire, parser.message.sections.answers[index].rdataOffset, name);
  }
}
