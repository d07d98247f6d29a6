/**
 Printing and parsing a whole message are inverse: what the parser reads from a built packet, and
 exactly for which builder states that is the message the state stands for.
 */
module RoundTrip {
  import opened Results
  import opened Bytes
  import opened Names
  import opened NameEncoding
  import opened Message
  import opened MessageLayout
  import opened Builder

  // ------------------------------------------------------------------ the message a state stands for

  function ExpectedQuestion(q: PendingQuestion): Question {
    Question(Undotted(q.qname), q.qtype, q.qclass)
  }

  function ExpectedQuestions(questions: seq<PendingQuestion>): seq<Question> {
    if questions == [] then [] else [ExpectedQuestion(questions[0])] + ExpectedQuestions(questions[1..])
  }

  function ExpectedHeader(q: Query): Header {
    Header(q.id, q.qr, q.opcode % 0x10, q.aa, q.tc, q.rd, q.ra, q.rcode % 0x10,
           |q.questions| % 0x1_0000, 0, 0, if q.edns.Some? then 1 else 0)
  }

  function ExpectedOpt(edns: EdnsConfig, rdataOffset: nat): ResourceRecord {
    ResourceRecord([], TYPE_OPT, edns.udpPayloadSize, EdnsTtl(edns), OptionsBytes(edns.options), rdataOffset)
  }

  /** All questions, the OPT record alone in the additional section, and the end at the packet's end. */
  function ExpectedMessage(q: Query): ParsedMessage {
    var size := |Packet(q)|;
    ParsedMessage(
      ExpectedHeader(q),
      Sections(ExpectedQuestions(q.questions), [], [],
               if q.edns.Some? then [ExpectedOpt(q.edns.value, HEADER_SIZE + |QuestionsBytes(q.questions)| + 11)] else [],
               size),
      None,
      q.rcode % 0x10)
  }

  predicate NoEmptyLabels(questions: seq<PendingQuestion>) {
    forall i :: 0 <= i < |questions| ==> NoEmptyLabel(questions[i].qname)
  }

  /** Counts and lengths fit their 16-bit fields, and no name has an empty label. */
  predicate RoundTrippable(q: Query) {
    && |q.questions| < 0x1_0000
    && NoEmptyLabels(q.questions)
    && (q.edns.Some? ==> |OptionsBytes(q.edns.value.options)| < 0x1_0000)
  }

  // ------------------------------------------------------------------ header

  /** The flag octets carry every field of `build_flags` back. */
  lemma FlagsRoundTrip(qr: bool, opcode: Byte, aa: bool, tc: bool, rd: bool, ra: bool, rcode: Byte)
    ensures var f := FlagsWord(qr, opcode, aa, tc, rd, ra, rcode);
            var (hi, lo) := (f / 0x100, f % 0x100);
            && Bit(hi, 0x80) == qr && hi / 8 % 0x10 == opcode % 0x10 && Bit(hi, 0x04) == aa && Bit(hi, 0x02) == tc
            && Bit(hi, 0x01) == rd && Bit(lo, 0x80) == ra && lo % 0x10 == rcode % 0x10
  {
    var op, rc := opcode as int % 0x10, rcode as int % 0x10;
    var hi := 0x80 * BitValue(qr, 1) + 8 * op + 4 * BitValue(aa, 1) + 2 * BitValue(tc, 1) + BitValue(rd, 1);
    SplitWord(FlagsWord(qr, opcode, aa, tc, rd, ra, rcode), hi, BitValue(ra, 0x80) + rc);
    HighOctet(BitValue(qr, 1), op, BitValue(aa, 1), BitValue(tc, 1), BitValue(rd, 1));
  }

  lemma SplitWord(word: nat, hi: nat, lo: nat)
    requires word == hi * 0x100 + lo && lo < 0x100
    ensures word / 0x100 == hi && word % 0x100 == lo
  {
  }

  lemma HighOctet(qr: nat, op: nat, aa: nat, tc: nat, rd: nat)
    requires qr < 2 && op < 0x10 && aa < 2 && tc < 2 && rd < 2
    ensures var hi := 0x80 * qr + 8 * op + 4 * aa + 2 * tc + rd;
            hi / 0x80 % 2 == qr && hi / 8 % 0x10 == op && hi / 4 % 2 == aa && hi / 2 % 2 == tc && hi % 2 == rd
  {
    var hi := 0x80 * qr + 8 * op + 4 * aa + 2 * tc + rd;
    assert hi / 0x80 == qr && hi / 8 == 0x10 * qr + op;
    assert hi / 4 == 2 * (0x10 * qr + op) + aa && hi / 2 == 4 * (0x10 * qr + op) + 2 * aa + tc;
  }

  lemma HeaderRoundTrip(whole: Octets, q: Query)
    requires At(whole, 0, HeaderBytes(q))
    ensures ReadHeader(whole) == ExpectedHeader(q)
  {
    hide FlagsWord, Bit;
    var head := HeaderBytes(q);
    var flags := FlagsWord(q.qr, q.opcode, q.aa, q.tc, q.rd, q.ra, q.rcode);
    assert forall i :: 0 <= i < HEADER_SIZE ==> whole[i] == whole[0..HEADER_SIZE][i] == head[i];
    assert head[0] == q.id / 0x100 && head[1] == q.id % 0x100;
    assert head[2] == flags / 0x100 && head[3] == flags % 0x100;
    assert head[4] == |q.questions| % 0x1_0000 / 0x100 && head[5] == |q.questions| % 0x1_0000 % 0x100;
    assert head[6] == head[7] == head[8] == head[9] == head[10] == 0;
    assert head[11] == if q.edns.Some? then 1 else 0;
    FlagsRoundTrip(q.qr, q.opcode, q.aa, q.tc, q.rd, q.ra, q.rcode);
  }

  // ------------------------------------------------------------------ questions

  lemma QuestionPieces(whole: Octets, at: nat, q: PendingQuestion)
    requires At(whole, at, QuestionBytes(q))
    ensures var end := at + |EncodedName(q.qname)|;
            && At(whole, at, EncodedName(q.qname)) && end + 4 <= |whole|
            && ReadU16(whole, end) == q.qtype && ReadU16(whole, end + 2) == q.qclass
  {
    hide EncodedName;
    var name, rest := EncodedName(q.qname), U16Bytes(q.qtype) + U16Bytes(q.qclass);
    assert QuestionBytes(q) == name + rest;
    AtSplit(whole, at, name, rest);
    AtSplit(whole, at + |name|, U16Bytes(q.qtype), U16Bytes(q.qclass));
    ReadWrittenU16(whole, at + |name|, q.qtype);
    ReadWrittenU16(whole, at + |name| + 2, q.qclass);
  }

  /** A written question reads back, with its own end, when its name has no empty label; its name does not otherwise. */
  lemma QuestionRoundTrip(whole: Octets, at: nat, q: PendingQuestion)
    requires At(whole, at, QuestionBytes(q)) && Encodable(q.qname)
    ensures NoEmptyLabel(q.qname) ==> ReadQuestion(whole, at) == Ok((ExpectedQuestion(q), at + |QuestionBytes(q)|))
    ensures ReadQuestion(whole, at).Ok? && ReadQuestion(whole, at).value.0 == ExpectedQuestion(q) ==> NoEmptyLabel(q.qname)
  {
    hide NameAt, At, EncodedName, NoEmptyLabel, Encodable, Undotted;
    QuestionPieces(whole, at, q);
    assert |QuestionBytes(q)| == |EncodedName(q.qname)| + 4;
    NameRoundTrip(whole, at, q.qname);
  }

  lemma QuestionsSplit(whole: Octets, at: nat, questions: seq<PendingQuestion>)
    requires questions != [] && At(whole, at, QuestionsBytes(questions))
    ensures At(whole, at, QuestionBytes(questions[0]))
    ensures At(whole, at + |QuestionBytes(questions[0])|, QuestionsBytes(questions[1..]))
  {
    hide At, QuestionBytes;
    AtSplit(whole, at, QuestionBytes(questions[0]), QuestionsBytes(questions[1..]));
  }

  lemma TailKeeps(questions: seq<PendingQuestion>)
    requires questions != []
    ensures AllEncodable(questions) ==> Encodable(questions[0].qname) && AllEncodable(questions[1..])
    ensures NoEmptyLabels(questions) ==> NoEmptyLabel(questions[0].qname) && NoEmptyLabels(questions[1..])
    ensures NoEmptyLabel(questions[0].qname) && NoEmptyLabels(questions[1..]) ==> NoEmptyLabels(questions)
  {
    assert questions == [questions[0]] + questions[1..];
  }

  lemma NoQuestions(data: Octets, at: nat)
    ensures ReadQuestions(data, at, 0) == Ok(([], at))
  {
  }

  lemma QuestionsStep(data: Octets, offset: nat, count: nat, first: Question, next: nat, n: nat,
                      rest: seq<Question>, end: nat)
    requires count == n + 1 && ReadQuestion(data, offset) == Ok((first, next))
    requires ReadQuestions(data, next, n) == Ok((rest, end))
    ensures ReadQuestions(data, offset, count) == Ok(([first] + rest, end))
  {
  }

  lemma {:induction false} QuestionsRoundTrip(whole: Octets, at: nat, questions: seq<PendingQuestion>)
    requires At(whole, at, QuestionsBytes(questions)) && AllEncodable(questions)
    requires NoEmptyLabels(questions)
    ensures ReadQuestions(whole, at, |questions|)
         == Ok((ExpectedQuestions(questions), at + |QuestionsBytes(questions)|))
    decreases |questions|
  {
    hide ReadQuestions, ReadQuestion, QuestionBytes, At, Encodable, NoEmptyLabel, ExpectedQuestion;
    if questions == [] {
      NoQuestions(whole, at);
    } else {
      var first, tail := questions[0], questions[1..];
      var next, end := at + |QuestionBytes(first)|, at + |QuestionsBytes(questions)|;
      assert next + |QuestionsBytes(tail)| == end;
      QuestionsSplit(whole, at, questions);
      TailKeeps(questions);
      QuestionRoundTrip(whole, at, first);
      QuestionsRoundTrip(whole, next, tail);
      QuestionsStep(whole, at, |questions|, ExpectedQuestion(first), next, |tail|, ExpectedQuestions(tail), end);
    }
  }

  lemma QuestionsUnstep(data: Octets, offset: nat, n: nat)
    requires ReadQuestions(data, offset, n + 1).Ok?
    ensures ReadQuestion(data, offset).Ok?
    ensures ReadQuestions(data, ReadQuestion(data, offset).value.1, n).Ok?
    ensures ReadQuestions(data, offset, n + 1).value.0
         == [ReadQuestion(data, offset).value.0] + ReadQuestions(data, ReadQuestion(data, offset).value.1, n).value.0
  {
    hide ReadQuestion;
  }

  /** Reading the expected questions back shows that no name had an empty label. */
  lemma {:induction false} ReadBackMeansNoEmptyLabel(whole: Octets, at: nat, questions: seq<PendingQuestion>)
    requires At(whole, at, QuestionsBytes(questions)) && AllEncodable(questions)
    requires ReadQuestions(whole, at, |questions|).Ok?
    requires ReadQuestions(whole, at, |questions|).value.0 == ExpectedQuestions(questions)
    ensures NoEmptyLabels(questions)
    decreases |questions|
  {
    hide ReadQuestions, ReadQuestion, QuestionBytes, QuestionsBytes, At, NoEmptyLabel, Encodable, ExpectedQuestion;
    if questions != [] {
      var n := |questions[1..]|;
      assert |questions| == n + 1;
      QuestionsUnstep(whole, at, n);
      var (first, next) := ReadQuestion(whole, at).value;
      var rest := ReadQuestions(whole, next, n).value.0;
      assert ([first] + rest)[0] == ExpectedQuestions(questions)[0];
      assert ([first] + rest)[1..] == ExpectedQuestions(questions)[1..];
      QuestionsSplit(whole, at, questions);
      TailKeeps(questions);
      QuestionRoundTrip(whole, at, questions[0]);
      ReadBackMeansNoEmptyLabel(whole, next, questions[1..]);
    }
  }

  // ------------------------------------------------------------------ the OPT record

  lemma OptionPieces(rdata: Octets, offset: nat, first: EdnsOption, rest: seq<EdnsOption>)
    requires At(rdata, offset, OptionBytes(first) + OptionsBytes(rest)) && |first.data| < 0x1_0000
    ensures ReadU16(rdata, offset) == first.code && ReadU16(rdata, offset + 2) == |first.data|
    ensures rdata[offset + 4..offset + 4 + |first.data|] == first.data
    ensures At(rdata, offset + 4 + |first.data|, OptionsBytes(rest))
  {
    hide OptionsBytes;
    var code, length := U16Bytes(first.code), U16Bytes(|first.data| % 0x1_0000);
    AtSplit(rdata, offset, OptionBytes(first), OptionsBytes(rest));
    Regroup(code, length, first.data);
    AtSplit(rdata, offset, code, length + first.data);
    AtSplit(rdata, offset + 2, length, first.data);
    ReadWrittenU16(rdata, offset, first.code);
    ReadWrittenU16(rdata, offset + 2, |first.data| % 0x1_0000);
  }

  lemma {:induction false} OptionsRoundTrip(rdata: Octets, offset: nat, options: seq<EdnsOption>)
    requires At(rdata, offset, OptionsBytes(options)) && offset + |OptionsBytes(options)| == |rdata|
    requires |OptionsBytes(options)| < 0x1_0000
    ensures ReadOptions(rdata, offset) == Ok(options)
    decreases |options|
  {
    hide At;
    if options != [] {
      var first, rest := options[0], options[1..];
      assert |OptionBytes(first)| == 4 + |first.data|;
      OptionPieces(rdata, offset, first, rest);
      OptionsRoundTrip(rdata, offset + 4 + |first.data|, rest);
      assert options == [first] + rest;
    }
  }

  /** The fields packed in CLASS and TTL, and the options, come back from the record. */
  lemma EdnsRoundTrip(edns: EdnsConfig, rdataOffset: nat)
    requires |OptionsBytes(edns.options)| < 0x1_0000
    ensures ReadEdns(ExpectedOpt(edns, rdataOffset))
         == Ok(Some(EdnsInfo(edns.udpPayloadSize, 0, edns.version, edns.dnssecOk, edns.options)))
  {
    hide OptionsBytes, ReadOptions;
    var rdata := OptionsBytes(edns.options);
    assert rdata[0..|rdata|] == rdata;
    OptionsRoundTrip(rdata, 0, edns.options);
    TtlFields(edns);
  }

  lemma TtlFields(edns: EdnsConfig)
    ensures EdnsTtl(edns) / 0x100_0000 == 0 && EdnsTtl(edns) / 0x1_0000 % 0x100 == edns.version
    ensures Bit(EdnsTtl(edns), 0x8000) == edns.dnssecOk
  {
    assert EdnsTtl(edns) / 0x1_0000 == edns.version;
    assert EdnsTtl(edns) / 0x8000 == 2 * edns.version as int + BitValue(edns.dnssecOk, 1);
  }

  /** Owner, type, class, TTL and RDLENGTH of the OPT record. */
  function OptFixed(edns: EdnsConfig): (s: Octets)
    ensures |s| == 11
  {
    [0] + U16Bytes(TYPE_OPT) + U16Bytes(edns.udpPayloadSize) + U32Bytes(EdnsTtl(edns))
    + U16Bytes(|OptionsBytes(edns.options)| % 0x1_0000)
  }

  lemma OptFields(whole: Octets, at: nat, edns: EdnsConfig)
    requires At(whole, at, OptFixed(edns))
    ensures whole[at] == 0 && ReadU16(whole, at + 1) == TYPE_OPT && ReadU16(whole, at + 3) == edns.udpPayloadSize
    ensures ReadU32(whole, at + 5) == EdnsTtl(edns)
    ensures ReadU16(whole, at + 9) == |OptionsBytes(edns.options)| % 0x1_0000
  {
    var rtype, payload, ttl := U16Bytes(TYPE_OPT), U16Bytes(edns.udpPayloadSize), U32Bytes(EdnsTtl(edns));
    var length := U16Bytes(|OptionsBytes(edns.options)| % 0x1_0000);
    assert OptFixed(edns) == [0] + (rtype + (payload + (ttl + length)));
    AtSplit(whole, at, [0], rtype + (payload + (ttl + length)));
    AtSplit(whole, at + 1, rtype, payload + (ttl + length));
    AtSplit(whole, at + 3, payload, ttl + length);
    AtSplit(whole, at + 5, ttl, length);
    assert whole[at] == whole[at..at + 1][0];
    ReadWrittenU16(whole, at + 1, TYPE_OPT);
    ReadWrittenU16(whole, at + 3, edns.udpPayloadSize);
    ReadWrittenU32(whole, at + 5, EdnsTtl(edns));
    ReadWrittenU16(whole, at + 9, |OptionsBytes(edns.options)| % 0x1_0000);
  }

  lemma RootDecodes(wire: Octets, at: nat)
    requires at < |wire| && wire[at] == 0
    ensures NameAt(wire, at) == Ok(([], at + 1))
  {
  }

  lemma OptRoundTrip(whole: Octets, at: nat, edns: EdnsConfig)
    requires At(whole, at, OptBytes(edns)) && |OptionsBytes(edns.options)| < 0x1_0000
    ensures ReadRecord(whole, at, true) == Ok((ExpectedOpt(edns, at + 11), at + |OptBytes(edns)|))
  {
    hide At, OptionsBytes, NameAt;
    assert OptBytes(edns) == OptFixed(edns) + OptionsBytes(edns.options);
    AtSplit(whole, at, OptFixed(edns), OptionsBytes(edns.options));
    OptFields(whole, at, edns);
    RootDecodes(whole, at);
  }

  // ------------------------------------------------------------------ the whole message

  function OptPart(q: Query): Octets {
    if q.edns.Some? then OptBytes(q.edns.value) else []
  }

  lemma PacketParts(q: Query)
    ensures At(Packet(q), 0, HeaderBytes(q))
    ensures At(Packet(q), HEADER_SIZE, QuestionsBytes(q.questions))
    ensures At(Packet(q), HEADER_SIZE + |QuestionsBytes(q.questions)|, OptPart(q))
    ensures |Packet(q)| == HEADER_SIZE + |QuestionsBytes(q.questions)| + |OptPart(q)|
  {
    ThreeParts(HeaderBytes(q), QuestionsBytes(q.questions), OptPart(q));
  }

  lemma ThreeParts(a: Octets, b: Octets, c: Octets)
    ensures At(a + b + c, 0, a) && At(a + b + c, |a|, b) && At(a + b + c, |a| + |b|, c)
  {
  }

  lemma SectionsFrom(data: Octets, copied: bool, s: Sections, o1: nat, o2: nat, o3: nat)
    requires |data| >= HEADER_SIZE
    requires ReadQuestions(data, HEADER_SIZE, ReadHeader(data).qdcount) == Ok((s.questions, o1))
    requires ReadRecords(data, o1, ReadHeader(data).ancount, copied) == Ok((s.answers, o2))
    requires ReadRecords(data, o2, ReadHeader(data).nscount, copied) == Ok((s.authorities, o3))
    requires ReadRecords(data, o3, ReadHeader(data).arcount, copied) == Ok((s.additionals, s.end))
    ensures ReadSections(data, copied) == Ok(s)
  {
  }

  lemma NoRecords(data: Octets, at: nat)
    ensures ReadRecords(data, at, 0, true) == Ok(([], at))
  {
  }

  lemma BuiltSectionsRead(q: Query)
    requires Buildable(q) && RoundTrippable(q)
    ensures ReadSections(Packet(q), true) == Ok(ExpectedMessage(q).sections)
    ensures ReadHeader(Packet(q)) == ExpectedHeader(q)
  {
    hide ReadQuestions, ReadRecords, ReadHeader, At, QuestionsBytes, OptBytes, Packet, HeaderBytes;
    var whole, s := Packet(q), ExpectedMessage(q).sections;
    var at := HEADER_SIZE + |QuestionsBytes(q.questions)|;
    PacketParts(q);
    HeaderRoundTrip(whole, q);
    BuiltOptReads(q, whole, at);
    assert ReadHeader(whole).qdcount == |q.questions|;
    QuestionsRoundTrip(whole, HEADER_SIZE, q.questions);
    NoRecords(whole, at);
    SectionsFrom(whole, true, s, at, at, at);
  }

  lemma BuiltOptReads(q: Query, whole: Octets, at: nat)
    requires At(whole, at, OptPart(q)) && RoundTrippable(q)
    ensures ReadRecords(whole, at, if q.edns.Some? then 1 else 0, true)
         == Ok((if q.edns.Some? then [ExpectedOpt(q.edns.value, at + 11)] else [], at + |OptPart(q)|))
  {
    if q.edns.Some? {
      OptRoundTrip(whole, at, q.edns.value);
      OneRecord(whole, at);
    }
  }

  lemma BuiltMessageReads(q: Query)
    requires Buildable(q) && RoundTrippable(q)
    ensures ReadMessage(Packet(q), true) == Ok(ExpectedMessage(q))
  {
    BuiltSectionsRead(q);
    var additionals := ExpectedMessage(q).sections.additionals;
    if q.edns.Some? { RootIsNoCandidate(additionals[0]); }
    assert EdnsOf(additionals) == Ok(None);
  }

  lemma OneRecord(whole: Octets, at: nat)
    requires ReadRecord(whole, at, true).Ok?
    ensures ReadRecords(whole, at, 1, true)
         == Ok(([ReadRecord(whole, at, true).value.0], ReadRecord(whole, at, true).value.1))
  {
    var (first, next) := ReadRecord(whole, at, true).value;
    assert ReadRecords(whole, next, 0, true) == Ok(([], next));
    assert [first] + [] == [first];
  }

  lemma RootIsNoCandidate(rr: ResourceRecord)
    requires rr.name == []
    ensures EdnsOf([rr]) == Ok(None)
  {
    assert [rr][..0] == [];
    assert EdnsOf([]) == Ok(None);
  }

  lemma {:induction false} ExpectedQuestionCount(questions: seq<PendingQuestion>)
    ensures |ExpectedQuestions(questions)| == |questions|
  {
    if questions != [] { ExpectedQuestionCount(questions[1..]); }
  }

  lemma ReadBackMeansRoundTrippable(q: Query)
    requires Buildable(q) && ReadMessage(Packet(q), true) == Ok(ExpectedMessage(q))
    ensures RoundTrippable(q)
  {
    hide ReadQuestions, ReadRecords, ReadHeader, HeaderBytes, QuestionsBytes, NoEmptyLabels, AllEncodable, LaidOut;
    var whole := Packet(q);
    PacketParts(q);
    HeaderRoundTrip(whole, q);
    ParsedMessageAccounts(whole, true);
    ExpectedQuestionCount(q.questions);
    ReadBackMeansNoEmptyLabel(whole, HEADER_SIZE, q.questions);
    if q.edns.Some? { ReadBackLength(q); }
  }

  lemma ReadBackLength(q: Query)
    requires q.edns.Some? && ReadMessage(Packet(q), true) == Ok(ExpectedMessage(q))
    ensures |OptionsBytes(q.edns.value.options)| < 0x1_0000
  {
    hide ReadMessage, ReadHeader, Packet, OptionsBytes;
    ParsedMessageAccounts(Packet(q), true);
    var s := ExpectedMessage(q).sections;
    assert (s.answers + s.authorities + s.additionals)[0] == s.additionals[0];
    assert RdataInside(Packet(q), s.additionals[0], true);
  }

  /**
   The message round trip, for every state the builder accepts: parsing the built packet gives the
   state's identifier, flags, questions and OPT record, ending at the packet's end, exactly when
   counts and lengths fit 16 bits and no name has an empty label. The EDNS fields then come back
   from the OPT record; the message's own EDNS information stays empty, since the record's owner
   is the root.
   */
  lemma MessageRoundTrip(q: Query)
    requires Buildable(q)
    ensures ReadMessage(Packet(q), true) == Ok(ExpectedMessage(q)) <==> RoundTrippable(q)
    ensures RoundTrippable(q) && q.edns.Some? ==>
      var edns := q.edns.value;
      ReadEdns(ExpectedMessage(q).sections.additionals[0])
      == Ok(Some(EdnsInfo(edns.udpPayloadSize, 0, 0, edns.dnssecOk, edns.options)))
  {
    if RoundTrippable(q) {
      BuiltMessageReads(q);
      if q.edns.Some? {
        EdnsRoundTrip(q.edns.value, HEADER_SIZE + |QuestionsBytes(q.questions)| + 11);
      }
    }
    if ReadMessage(Packet(q), true) == Ok(ExpectedMessage(q)) { ReadBackMeansRoundTrippable(q); }
  }

  /** Two states agree in every field the wire has room for. */
  predicate SameOnTheWire(p: Query, q: Query) {
    && p.id == q.id && p.qr == q.qr && p.aa == q.aa && p.tc == q.tc && p.rd == q.rd && p.ra == q.ra
    && p.opcode % 0x10 == q.opcode % 0x10 && p.rcode % 0x10 == q.rcode % 0x10 && p.edns == q.edns
    && ExpectedQuestions(p.questions) == ExpectedQuestions(q.questions)
  }

  /**
   A packet of a state that reads back belongs to no other state that reads back, and to no state with the
   same fields that does not: another state with this packet agrees with it iff it reads back as well.
   */
  lemma PacketDetermines(p: Query, q: Query)
    requires Buildable(p) && Buildable(q) && RoundTrippable(q) && Packet(p) == Packet(q)
    ensures SameOnTheWire(p, q) <==> RoundTrippable(p)
  {
    hide ReadMessage, Packet, RoundTrippable;
    MessageRoundTrip(p);
    MessageRoundTrip(q);
    if RoundTrippable(p) {
      assert ExpectedMessage(p) == ExpectedMessage(q);
      RoundTripsAgree(p, q);
    }
    if SameOnTheWire(p, q) { AgreementRoundTrips(p, q); }
  }

  lemma RoundTripsAgree(p: Query, q: Query)
    requires Buildable(p) && Buildable(q) && RoundTrippable(p) && RoundTrippable(q)
    requires ExpectedMessage(p) == ExpectedMessage(q)
    ensures SameOnTheWire(p, q)
  {
    MessageRoundTrip(p);
    MessageRoundTrip(q);
    assert ExpectedHeader(p) == ExpectedHeader(q);
    hide ReadMessage, Packet;
  }

  lemma AgreementRoundTrips(p: Query, q: Query)
    requires Buildable(p) && SameOnTheWire(p, q) && Packet(p) == Packet(q)
    requires ReadMessage(Packet(q), true) == Ok(ExpectedMessage(q))
    ensures RoundTrippable(p)
  {
    hide ReadMessage, RoundTrippable, Buildable;
    ExpectedQuestionCount(p.questions);
    ExpectedQuestionCount(q.questions);
    QuestionsFill(p);
    QuestionsFill(q);
    hide Packet;
    assert ExpectedMessage(p) == ExpectedMessage(q);
    MessageRoundTrip(p);
  }

  lemma QuestionsFill(q: Query)
    ensures |QuestionsBytes(q.questions)|
         == |Packet(q)| - HEADER_SIZE - if q.edns.Some? then |OptBytes(q.edns.value)| else 0
  {
    hide QuestionsBytes, OptBytes;
  }

  lemma OnePiece(name: Octets)
    requires name != [] && forall i :: 0 <= i < |name| ==> name[i] != DOT
    ensures Pieces(name) == [name]
  {
    assert DotIndex(name, 0) == |name|;
    assert name[..|name|] == name && Rest(name, |name| + 1) == [];
    assert Pieces([]) == [];
  }

  lemma OneEncoded(name: Octets)
    requires LabelsOf(name) == [name] && |name| <= MAX_LABEL_LENGTH
    ensures EncodedName(name) == [|name|] + name + [0]
  {
    hide LabelsOf, Pieces;
    assert [name][1..] == [];
    assert EncodedLabels([name]) == LabelBytes(name) + EncodedLabels([]);
    assert EncodedLabels([]) == [];
    assert EncodedLabels([name]) == LabelBytes(name);
  }

  lemma OneEncodable(name: Octets)
    requires LabelsOf(name) == [name] && 0 < |name| <= MAX_LABEL_LENGTH
    ensures Encodable(name) && NoEmptyLabel(name)
  {
    hide LabelsOf, Pieces;
  }

  lemma OneLabel(name: Octets)
    requires name != [] && |name| <= MAX_LABEL_LENGTH && forall i :: 0 <= i < |name| ==> name[i] != DOT
    ensures Pieces(name) == [name] && Encodable(name) && NoEmptyLabel(name)
    ensures EncodedName(name) == [|name|] + name + [0]
  {
    hide Encodable, NoEmptyLabel, EncodedName;
    OnePiece(name);
    assert LabelsOf(name) == [name];
    OneEncoded(name);
    OneEncodable(name);
  }

  /** `.a`: an empty label and one of one octet. */
  lemma DotA(name: Octets)
    requires name == [DOT, 97]
    ensures Encodable(name) && !NoEmptyLabel(name) && EncodedName(name) == [0, 1, 97, 0]
  {
    var a: Octets := [97];
    OneLabel(a);
    assert DotIndex(name, 0) == 0 && name[..0] == [] && name[1..] == a;
    var labels: seq<Octets> := [[], a];
    assert Pieces(name) == [[]] + Pieces(a) == labels;
    assert LabelsOf(name)[0] == [];
    assert labels[1..] == [a] && [a][1..] == [];
    assert EncodedLabels([a]) == LabelBytes(a) + EncodedLabels([]);
    assert EncodedLabels(labels) == [0] + EncodedLabels([a]);
  }

  lemma TwoQuestions(a: PendingQuestion, b: PendingQuestion)
    ensures QuestionsBytes([a, b]) == QuestionBytes(a) + QuestionBytes(b)
    ensures ExpectedQuestions([a, b]) == [ExpectedQuestion(a), ExpectedQuestion(b)]
  {
    hide QuestionBytes;
    assert [a, b][1..] == [b] && [b][1..] == [];
    assert QuestionsBytes([b]) == QuestionBytes(b) + QuestionsBytes([]);
    assert ExpectedQuestions([b]) == [ExpectedQuestion(b)] + ExpectedQuestions([]);
  }

  function TwoQuestionQuery(a: PendingQuestion, b: PendingQuestion): Query {
    Query(0, false, 0, false, false, true, false, 0, [a, b], None)
  }

  /** Octets that are two questions in two ways. */
  lemma AmbiguousQuestions(p1: PendingQuestion, p2: PendingQuestion, q1: PendingQuestion, q2: PendingQuestion)
    requires p1 == PendingQuestion([DOT, 97], 0x0102, 0x7879) && p2 == PendingQuestion([], 1, 1)
    requires q1 == PendingQuestion([], 0x0161, 1) && q2 == PendingQuestion([120, 121], 1, 1)
    ensures QuestionsBytes([p1, p2]) == QuestionsBytes([q1, q2])
  {
    hide Encodable, EncodedName, NoEmptyLabel;
    DotA(p1.qname);
    OneLabel(q2.qname);
    RootName();
    assert QuestionBytes(p1) == [0, 1, 97, 0, 1, 2, 120, 121] && QuestionBytes(p2) == [0, 0, 1, 0, 1];
    assert QuestionBytes(q1) == [0, 1, 97, 0, 1] && QuestionBytes(q2) == [2, 120, 121, 0, 0, 1, 0, 1];
    TwoQuestions(p1, p2);
    TwoQuestions(q1, q2);
  }

  /** A name with an empty label can make a packet ambiguous: these two states differ in their questions, not in their packets. */
  lemma AmbiguousPackets() returns (p: Query, q: Query)
    ensures Buildable(p) && Buildable(q) && Packet(p) == Packet(q)
    ensures RoundTrippable(q) && !RoundTrippable(p) && !SameOnTheWire(p, q)
  {
    hide Encodable, EncodedName, NoEmptyLabel, QuestionsBytes, Undotted;
    var p1, p2 := PendingQuestion([DOT, 97], 0x0102, 0x7879), PendingQuestion([], 1, 1);
    var q1, q2 := PendingQuestion([], 0x0161, 1), PendingQuestion([120, 121], 1, 1);
    p, q := TwoQuestionQuery(p1, p2), TwoQuestionQuery(q1, q2);
    AmbiguousQuestions(p1, p2, q1, q2);
    DotA(p1.qname);
    OneLabel(q2.qname);
    RootName();
    TwoQuestions(p1, p2);
    TwoQuestions(q1, q2);
    assert p.questions[0] == p1 && p.questions[1] == p2 && q.questions[0] == q1 && q.questions[1] == q2;
    assert ExpectedQuestions(p.questions)[0].qtype == 0x0102 && ExpectedQuestions(q.questions)[0].qtype == 0x0161;
  }

  lemma RootName()
    ensures Encodable([]) && NoEmptyLabel([]) && EncodedName([]) == [0]
  {
  }
}
