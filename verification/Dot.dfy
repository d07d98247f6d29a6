/**
 DNS over TLS: padding a query to a block boundary (section 3 of RFC 7830, section 4.1 of RFC 8467)
 and the two-octet length in front of it (section 3.3 of RFC 7858).
 */
module Dot {
  import opened Results
  import opened Bytes
  import opened Names
  import opened NameEncoding
  import opened Message
  import opened Builder
  import opened RoundTrip
  import opened Framing

  const PAD_BLOCK: nat := 128
  const EDNS_PAD_OVERHEAD: nat := 15
  const PADDING_OPTION: U16 := 12
  const PAD_UDP_PAYLOAD: U16 := 512

  function BaseQuery(id: U16, host: Octets, rtype: U16): Query {
    Query(id, false, 0, false, false, true, false, 0, [PendingQuestion(host, rtype, CLASS_IN)], None)
  }

  function PaddedQuery(id: U16, host: Octets, rtype: U16, padding: Octets): Query {
    BaseQuery(id, host, rtype).(
      edns := Some(EdnsConfig(PAD_UDP_PAYLOAD, 0, false, [EdnsOption(PADDING_OPTION, padding)])))
  }

  /** The padding that takes a packet of `baseSize` octets, with its OPT record, to a block boundary. */
  function PadLength(baseSize: nat): nat {
    var rawSize := baseSize + EDNS_PAD_OVERHEAD;
    if rawSize % PAD_BLOCK == 0 then PAD_BLOCK else PAD_BLOCK - rawSize % PAD_BLOCK
  }

  lemma OneQuestionBytes(q: PendingQuestion)
    ensures QuestionsBytes([q]) == QuestionBytes(q) && |QuestionBytes(q)| == EncodedSize(q.qname) + 4
  {
    assert QuestionsBytes([q]) == QuestionBytes(q) + QuestionsBytes([]);
    EncodedSizeIsExact(q.qname);
  }

  lemma BaseSize(id: U16, host: Octets, rtype: U16)
    ensures |Packet(BaseQuery(id, host, rtype))| == 16 + EncodedSize(host)
  {
    OneQuestionBytes(PendingQuestion(host, rtype, CLASS_IN));
  }

  lemma PaddedSize(id: U16, host: Octets, rtype: U16, padding: Octets)
    ensures |Packet(PaddedQuery(id, host, rtype, padding))| == 16 + EncodedSize(host) + EDNS_PAD_OVERHEAD + |padding|
  {
    var option := EdnsOption(PADDING_OPTION, padding);
    OneQuestionBytes(PendingQuestion(host, rtype, CLASS_IN));
    assert OptionsBytes([option]) == OptionBytes(option) + OptionsBytes([]);
  }

  lemma BuildableWhenEncodable(firstId: U16, id: U16, host: Octets, rtype: U16, padding: Octets)
    ensures Buildable(BaseQuery(firstId, host, rtype)) <==> Encodable(host)
    ensures Buildable(PaddedQuery(id, host, rtype, padding)) <==> Encodable(host)
  {
    hide Encodable;
    assert BaseQuery(firstId, host, rtype).questions[0].qname == host;
    assert PaddedQuery(id, host, rtype, padding).questions[0].qname == host;
  }

  /** `build_padded_query`: builds once to learn the size, then again with the padding option. */
  method BuildPaddedQuery(host: Octets, rtype: U16, firstId: U16, id: U16, random: nat -> Byte)
    returns (r: Result<Octets, PacketError>)
    ensures r.Ok? <==> Encodable(host)
    ensures r.Ok? ==>
      var padding := seq(PadLength(16 + EncodedSize(host)), (i: nat) => random(i));
      r.value == Packet(PaddedQuery(id, host, rtype, padding))
  {
    hide Packet, EncodedSize, Encodable;
    BuildableWhenEncodable(firstId, id, host, rtype, seq(PadLength(16 + EncodedSize(host)), (i: nat) => random(i)));
    var first := new QueryBuilder(firstId);
    first.AddQuestion(host, rtype, CLASS_IN);
    assert first.State() == BaseQuery(firstId, host, rtype);
    var base := first.Build();
    if base.Err? { return Err(base.error); }
    BaseSize(firstId, host, rtype);
    var rawSize := |base.value| + EDNS_PAD_OVERHEAD;
    var padLen := if rawSize % PAD_BLOCK == 0 then PAD_BLOCK else PAD_BLOCK - rawSize % PAD_BLOCK;
    var padding := seq(padLen, (i: nat) => random(i));
    var second := new QueryBuilder(id);
    second.AddQuestion(host, rtype, CLASS_IN);
    second.AddEdns(PAD_UDP_PAYLOAD, 0, false, [EdnsOption(PADDING_OPTION, padding)]);
    assert second.State() == PaddedQuery(id, host, rtype, padding);
    r := second.Build();
  }

  lemma PadArithmetic(baseSize: nat, padding: nat)
    requires baseSize <= 16 + 255 && padding == PadLength(baseSize)
    ensures 1 <= padding <= PAD_BLOCK
    ensures baseSize + EDNS_PAD_OVERHEAD + padding in {128, 256, 384}
  {
  }

  lemma EncodableSize(host: Octets)
    requires Encodable(host)
    ensures EncodedSize(host) <= 255
  {
  }

  /** Every padded query is one, two or three blocks long and carries 1 to 128 octets of padding. */
  lemma PaddedToBlocks(id: U16, host: Octets, rtype: U16, padding: Octets)
    requires Encodable(host) && |padding| == PadLength(16 + EncodedSize(host))
    ensures 1 <= |padding| <= PAD_BLOCK
    ensures |Packet(PaddedQuery(id, host, rtype, padding))| in {128, 256, 384}
  {
    hide Packet, Encodable, EncodedSize, PadLength;
    PaddedSize(id, host, rtype, padding);
    EncodableSize(host);
    PadArithmetic(16 + EncodedSize(host), |padding|);
  }

  /** A padded query reads back as the question asked, with the padding option in its OPT record. */
  lemma PaddedQueryReads(id: U16, host: Octets, rtype: U16, padding: Octets)
    requires Encodable(host) && NoEmptyLabel(host) && |padding| == PadLength(16 + EncodedSize(host))
    ensures var q := PaddedQuery(id, host, rtype, padding);
            && ReadMessage(Packet(q), true) == Ok(ExpectedMessage(q))
            && ExpectedMessage(q).header == Header(id, false, 0, false, false, true, false, 0, 1, 0, 0, 1)
            && ExpectedMessage(q).sections.questions == [Question(Undotted(host), rtype, 1)]
            && ReadEdns(ExpectedMessage(q).sections.additionals[0])
               == Ok(Some(EdnsInfo(512, 0, 0, false, [EdnsOption(12, padding)])))
  {
    hide ReadMessage, ReadEdns, Packet;
    var q := PaddedQuery(id, host, rtype, padding);
    var option := EdnsOption(PADDING_OPTION, padding);
    assert OptionsBytes([option]) == OptionBytes(option) + OptionsBytes([]);
    assert ExpectedQuestions([q.questions[0]]) == [ExpectedQuestion(q.questions[0])] + ExpectedQuestions([]);
    MessageRoundTrip(q);
  }

  /** `build_wire_format`: a buffer two octets longer, the length written in place, the query copied behind it. */
  method BuildWireFormat(query: Octets) returns (wire: array<Byte>)
    ensures fresh(wire) && wire[..] == U16Bytes(|query| % 0x1_0000) + query
  {
    wire := new Byte[2 + |query|];
    var length := |query| % 0x1_0000;
    wire[0] := length / 0x100;
    wire[1] := length % 0x100;
    var i := 0;
    while i < |query|
      invariant i <= |query| && wire[..2 + i] == U16Bytes(length) + query[..i]
    {
      wire[2 + i] := query[i];
      assert wire[..2 + i + 1] == wire[..2 + i] + [query[i]];
      assert query[..i + 1] == query[..i] + [query[i]];
      i := i + 1;
    }
    assert wire[..2 + i] == wire[..] && query[..i] == query;
  }

  /**
   The length in front of a padded query is its size, so a receiver of length-prefixed messages gets
   back exactly the query, whatever follows it on the stream.
   */
  lemma FramedQueryArrives(id: U16, host: Octets, rtype: U16, padding: Octets, rest: Octets, fault: DnsError)
    requires Encodable(host) && |padding| == PadLength(16 + EncodedSize(host))
    ensures var query := Packet(PaddedQuery(id, host, rtype, padding));
            var wire := U16Bytes(|query| % 0x1_0000) + query;
            ReadU16(wire, 0) == |query| && Framed(wire + rest, fault) == Ok(query)
  {
    hide Packet, Framed;
    var query := Packet(PaddedQuery(id, host, rtype, padding));
    PaddedToBlocks(id, host, rtype, padding);
    var wire := U16Bytes(|query| % 0x1_0000) + query;
    FramedExactly(wire + rest, fault, query);
    assert wire[0] == |query| / 0x100 && wire[1] == |query| % 0x100;
  }
}
