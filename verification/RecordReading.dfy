/**
 What resource records, TXT data and OPT records read as, told from their octets and numbers.
 */
module RecordReading {
  import opened Results
  import opened Bytes
  import opened Names
  import opened NameEncoding
  import opened Message
  import opened MessageLayout
  import opened RecordText
  import opened Compression

  // ------------------------------------------------------------------ records

  /** What follows a record's owner name. */
  function RecordTail(rtype: U16, qclass: U16, ttl: U32, rdata: Octets): Octets
    requires |rdata| < 0x1_0000
  {
    U16Bytes(rtype) + U16Bytes(qclass) + U32Bytes(ttl) + U16Bytes(|rdata|) + rdata
  }

  lemma TailFields(wire: Octets, at: nat, rtype: U16, qclass: U16, ttl: U32, rdata: Octets)
    requires |rdata| < 0x1_0000 && At(wire, at, RecordTail(rtype, qclass, ttl, rdata))
    ensures at + 10 + |rdata| <= |wire|
    ensures ReadU16(wire, at) == rtype && ReadU16(wire, at + 2) == qclass && ReadU32(wire, at + 4) == ttl
    ensures ReadU16(wire, at + 8) == |rdata| && wire[at + 10..at + 10 + |rdata|] == rdata
  {
    hide ReadU16, ReadU32, U16Bytes, U32Bytes;
    var a, b, c, d := U16Bytes(rtype), U16Bytes(qclass), U32Bytes(ttl), U16Bytes(|rdata|);
    AtSplit(wire, at, a + b + c + d, rdata);
    AtSplit(wire, at, a + b + c, d);
    AtSplit(wire, at, a + b, c);
    AtSplit(wire, at, a, b);
    ReadWrittenU16(wire, at, rtype);
    ReadWrittenU16(wire, at + 2, qclass);
    ReadWrittenU32(wire, at + 4, ttl);
    ReadWrittenU16(wire, at + 8, |rdata|);
  }

  /** A record reads as its owner name, with its fields, its RDATA and where that stands. */
  lemma RecordReads(
      wire: Octets, at: nat, owner: Octets, end: nat, rtype: U16, qclass: U16, ttl: U32, rdata: Octets, copied: bool)
    requires NameAt(wire, at) == Ok((owner, end))
    requires |rdata| < 0x1_0000 && At(wire, end, RecordTail(rtype, qclass, ttl, rdata))
    ensures ReadRecord(wire, at, copied)
         == Ok((ResourceRecord(owner, rtype, qclass, ttl, if copied then rdata else [], end + 10), end + 10 + |rdata|))
  {
    hide NameAt, ReadU16, ReadU32, At;
    TailFields(wire, end, rtype, qclass, ttl, rdata);
  }

  /** So a record whose owner is written out, or is a pointer to a name written earlier, gets that name. */
  lemma OwnersRead(wire: Octets, at: nat, name: Octets, target: nat, rtype: U16, qclass: U16, ttl: U32, rdata: Octets)
    requires Encodable(name) && NoEmptyLabel(name) && |rdata| < 0x1_0000 && target < 0x4000
    ensures At(wire, at, EncodedName(name) + RecordTail(rtype, qclass, ttl, rdata)) ==>
      && ReadRecord(wire, at, true).Ok?
      && ReadRecord(wire, at, true).value.0.name == Undotted(name) && ReadRecord(wire, at, true).value.0.rdata == rdata
    ensures At(wire, target, EncodedName(name)) && At(wire, at, PointerBytes(target) + RecordTail(rtype, qclass, ttl, rdata)) ==>
      && ReadRecord(wire, at, true).Ok?
      && ReadRecord(wire, at, true).value.0.name == Undotted(name) && ReadRecord(wire, at, true).value.0.rdata == rdata
  {
    hide Encodable, NoEmptyLabel, At, RecordTail, PointerBytes, ReadRecord, NameAt, EncodedName;
    var tail := RecordTail(rtype, qclass, ttl, rdata);
    if At(wire, at, EncodedName(name) + tail) {
      AtSplit(wire, at, EncodedName(name), tail);
      NameRoundTrip(wire, at, name);
      RecordReads(wire, at, Undotted(name), at + |EncodedName(name)|, rtype, qclass, ttl, rdata, true);
    }
    if At(wire, target, EncodedName(name)) && At(wire, at, PointerBytes(target) + tail) {
      AtSplit(wire, at, PointerBytes(target), tail);
      PointerToName(wire, at, target, name);
      PointerSize(target);
      RecordReads(wire, at, Undotted(name), at + 2, rtype, qclass, ttl, rdata, true);
    }
  }

  lemma PointerSize(target: nat)
    requires target < 0x4000
    ensures |PointerBytes(target)| == 2
  {
  }

  /** A CNAME, NS or PTR answer whose RDATA is labels and a pointer into the packet reads as the joined name. */
  lemma CompressedNamesInAnswers(
      parser: RecordParser, index: nat, labels: seq<Octets>, target: nat, name: Octets, render: Rendering)
    requires parser.Valid() && index < |parser.message.sections.answers|
    requires parser.message.sections.answers[index].rtype in {2, 5, 12}
    requires target < 0x4000 && ShortLabels(labels) && NonEmptyLabels(labels)
    requires Encodable(name) && NoEmptyLabel(name) && !IsRoot(name) && At(parser.wire, target, EncodedName(name))
    requires At(parser.wire, parser.message.sections.answers[index].rdataOffset, EncodedLabels(labels) + PointerBytes(target))
    ensures parser.ParseRecord(index, render)
         == Ok(if labels == [] then Undotted(name) else Dotted(labels) + [DOT] + Undotted(name))
  {
    hide ReadMessage, NameAt, ReadTxt, Encodable, EncodedName, NoEmptyLabel, Undotted, At, EncodedLabels, PointerBytes, Dotted;
    AnswerInside(parser.wire, true, index);
    var at := parser.message.sections.answers[index].rdataOffset;
    if labels == [] {
      NothingEncoded(target);
      PointerToName(parser.wire, at, target, name);
    } else {
      SuffixedName(parser.wire, at, labels, target, name);
    }
  }

  lemma NothingEncoded(target: nat)
    requires target < 0x4000
    ensures EncodedLabels([]) + PointerBytes(target) == PointerBytes(target)
  {
  }

  // ------------------------------------------------------------------ TXT

  /** Character-strings: each behind its length octet. */
  predicate Strings(segments: seq<Octets>) {
    forall i :: 0 <= i < |segments| ==> |segments[i]| < 0x100
  }

  lemma {:induction false} SegmentsRead(rdata: Octets, pos: nat, segments: seq<Octets>)
    requires Strings(segments) && At(rdata, pos, EncodedLabels(segments))
    ensures var end := pos + |EncodedLabels(segments)|;
            TxtSegments(rdata, pos) ==
              match TxtSegments(rdata, end)
              case None => None
              case Some(rest) => Some(segments + rest)
    decreases |segments|
  {
    hide At, LabelBytes, TxtSegments;
    if segments == [] {
      var all := TxtSegments(rdata, pos);
      if all.Some? { assert segments + all.value == all.value; }
    } else {
      var first, more := segments[0], segments[1..];
      AtSplit(rdata, pos, LabelBytes(first), EncodedLabels(more));
      LabelSize(first);
      SegmentReads(rdata, pos, first);
      SegmentsRead(rdata, pos + 1 + |first|, more);
      var rest := TxtSegments(rdata, pos + |EncodedLabels(segments)|);
      if rest.Some? { assert segments + rest.value == [first] + (more + rest.value); }
    }
  }

  lemma SegmentReads(rdata: Octets, pos: nat, segment: Octets)
    requires |segment| < 0x100 && At(rdata, pos, LabelBytes(segment))
    ensures TxtSegments(rdata, pos) ==
      match TxtSegments(rdata, pos + 1 + |segment|)
      case None => None
      case Some(rest) => Some([segment] + rest)
  {
    var bytes := rdata[pos..pos + 1 + |segment|];
    assert bytes[0] == rdata[pos] && bytes[1..] == segment;
    assert bytes[1..] == rdata[pos + 1..pos + 1 + |segment|];
  }

  lemma {:induction false} EmptiesDrop(n: nat, segments: seq<Octets>)
    requires segments != [] ==> segments[0] != []
    ensures DropEmpty(seq(n, i => []) + segments) == segments
    decreases n
  {
    var empties: seq<Octets> := seq(n, i => []);
    if n == 0 {
      assert empties + segments == segments;
    } else {
      var fewer: seq<Octets> := seq(n - 1, i => []);
      assert (empties + segments)[1..] == fewer + segments;
      EmptiesDrop(n - 1, segments);
    }
  }

  lemma AllSegmentsRead(segments: seq<Octets>)
    requires Strings(segments)
    ensures TxtSegments(EncodedLabels(segments), 0) == Some(segments)
  {
    var rdata := EncodedLabels(segments);
    assert At(rdata, 0, rdata);
    SegmentsRead(rdata, 0, segments);
    assert segments + [] == segments;
  }

  /** TXT data reads as its strings joined by spaces; empty strings in front leave nothing behind. */
  lemma TxtReads(n: nat, segments: seq<Octets>)
    requires Strings(segments) && (segments != [] ==> segments[0] != [])
    ensures ReadTxt(EncodedLabels(seq(n, i => []) + segments)) == Ok(Joined(segments, 32))
  {
    hide TxtSegments, EncodedLabels, DropEmpty, Joined;
    var all: seq<Octets> := seq(n, i => []) + segments;
    assert Strings(all);
    AllSegmentsRead(all);
    EmptiesDrop(n, segments);
  }

  /** TXT data whose last string is cut off is refused. */
  lemma CutTxtIsRefused(segments: seq<Octets>, length: Byte, part: Octets)
    requires Strings(segments) && |part| < length
    ensures ReadTxt(EncodedLabels(segments) + [length] + part) == Err(PARSE)
  {
    var rdata := EncodedLabels(segments) + [length] + part;
    assert At(rdata, 0, EncodedLabels(segments)) by {
      assert rdata[0..|EncodedLabels(segments)|] == EncodedLabels(segments);
    }
    SegmentsRead(rdata, 0, segments);
    assert rdata[|EncodedLabels(segments)|] == length;
  }

  // ------------------------------------------------------------------ EDNS

  /** The fields of an OPT record, from the number in its TTL (section 6.1.3 of RFC 6891). */
  lemma EdnsFields(rr: ResourceRecord, extended: Byte, version: Byte, dnssecOk: bool, zero: nat)
    requires rr.rtype == 41 && zero < 0x8000
    requires rr.ttl == extended * 0x100_0000 + version * 0x1_0000 + (if dnssecOk then 0x8000 else 0) + zero
    ensures ReadEdns(rr).Ok? <==> ReadOptions(rr.rdata, 0).Ok?
    ensures ReadEdns(rr).Ok? ==>
      ReadEdns(rr).value == Some(EdnsInfo(rr.qclass, extended, version, dnssecOk, ReadOptions(rr.rdata, 0).value))
  {
    hide ReadOptions;
    TtlParts(extended, version, if dnssecOk then 1 else 0, zero);
  }

  lemma TtlParts(extended: Byte, version: Byte, flag: nat, zero: nat)
    requires flag < 2 && zero < 0x8000
    ensures var ttl := extended * 0x100_0000 + version * 0x1_0000 + flag * 0x8000 + zero;
            ttl / 0x100_0000 == extended && ttl / 0x1_0000 % 0x100 == version && ttl / 0x8000 % 2 == flag
  {
  }

  /** Of several candidates the last one gives the message its EDNS information. */
  lemma {:induction false} LastCandidateCounts(records: seq<ResourceRecord>, i: nat)
    requires EdnsOf(records).Ok? && i < |records|
    requires records[i].rtype == 41 && |records[i].name| == 1 && records[i].qclass > 0
    requires forall j :: i < j < |records| ==> !(records[j].rtype == 41 && |records[j].name| == 1 && records[j].qclass > 0)
    ensures EdnsOf(records) == ReadEdns(records[i])
    decreases |records|
  {
    hide ReadEdns;
    if i < |records| - 1 { LastCandidateCounts(records[..|records| - 1], i); }
  }

  /** The message's code: its low four bits are the header's, the others the extended code's low four. */
  lemma CodeHasBothParts(data: Octets, copied: bool)
    requires ReadMessage(data, copied).Ok?
    ensures var m := ReadMessage(data, copied).value;
            && m.rcode % 0x10 == data[3] % 0x10
            && m.rcode / 0x10 == if m.edns.Some? then m.edns.value.extendedRcode % 0x10 else 0
  {
    hide ReadSections, EdnsOf;
  }
}
