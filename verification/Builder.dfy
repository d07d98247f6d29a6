/**
 The packet builder: `WireWriter`, which appends to a growing buffer, and `QueryBuilder`, whose
 setters update fields and whose `build` writes header, questions and OPT record.

 The functions say which octets a builder state stands for, casts to 16 bits included.
 */
module Builder {
  import opened Results
  import opened Bytes
  import opened Names
  import opened NameEncoding
  import opened Message

  const CLASS_IN: U16 := 1
  const MIN_UDP_PAYLOAD: nat := 512

  datatype PacketError = PacketError

  datatype PendingQuestion = PendingQuestion(qname: Octets, qtype: U16, qclass: U16)

  datatype EdnsConfig = EdnsConfig(
    udpPayloadSize: U16, version: Byte, dnssecOk: bool, options: seq<EdnsOption>)

  /** Everything a builder holds. */
  datatype Query = Query(
    id: U16, qr: bool, opcode: Byte, aa: bool, tc: bool, rd: bool, ra: bool, rcode: Byte,
    questions: seq<PendingQuestion>, edns: Option<EdnsConfig>)

  // ------------------------------------------------------------------ the octets of a packet

  function BitValue(flag: bool, weight: nat): nat {
    if flag then weight else 0
  }

  /** `build_flags`: the fields occupy disjoint bits, so their union is a sum (section 4.1.1 of RFC 1035). */
  function FlagsWord(qr: bool, opcode: Byte, aa: bool, tc: bool, rd: bool, ra: bool, rcode: Byte): U16 {
    BitValue(qr, 0x8000) + opcode as int % 0x10 * 0x800 + BitValue(aa, 0x400) + BitValue(tc, 0x200)
    + BitValue(rd, 0x100) + BitValue(ra, 0x80) + rcode as int % 0x10
  }

  /** Identifier, flags and QDCOUNT. */
  function HeaderStart(q: Query): (s: Octets)
    ensures |s| == 6
  {
    U16Bytes(q.id) + U16Bytes(FlagsWord(q.qr, q.opcode, q.aa, q.tc, q.rd, q.ra, q.rcode))
    + U16Bytes(|q.questions| % 0x1_0000)
  }

  function HeaderBytes(q: Query): (s: Octets)
    ensures |s| == HEADER_SIZE
  {
    HeaderStart(q) + U16Bytes(0) + U16Bytes(0) + U16Bytes(if q.edns.Some? then 1 else 0)
  }

  function QuestionBytes(q: PendingQuestion): Octets {
    EncodedName(q.qname) + U16Bytes(q.qtype) + U16Bytes(q.qclass)
  }

  function QuestionsBytes(questions: seq<PendingQuestion>): Octets {
    if questions == [] then [] else QuestionBytes(questions[0]) + QuestionsBytes(questions[1..])
  }

  function OptionBytes(option: EdnsOption): Octets {
    U16Bytes(option.code) + U16Bytes(|option.data| % 0x1_0000) + option.data
  }

  function OptionsBytes(options: seq<EdnsOption>): Octets {
    if options == [] then [] else OptionBytes(options[0]) + OptionsBytes(options[1..])
  }

  /** The TTL field: version in bits 23 to 16, DO in bit 15 (section 6.1.3 of RFC 6891). */
  function EdnsTtl(edns: EdnsConfig): U32 {
    edns.version as int * 0x1_0000 + BitValue(edns.dnssecOk, 0x8000)
  }

  function OptBytes(edns: EdnsConfig): Octets {
    [0] + U16Bytes(TYPE_OPT) + U16Bytes(edns.udpPayloadSize) + U32Bytes(EdnsTtl(edns))
    + U16Bytes(|OptionsBytes(edns.options)| % 0x1_0000) + OptionsBytes(edns.options)
  }

  function Packet(q: Query): Octets {
    HeaderBytes(q) + QuestionsBytes(q.questions) + (if q.edns.Some? then OptBytes(q.edns.value) else [])
  }

  predicate AllEncodable(questions: seq<PendingQuestion>) {
    forall i :: 0 <= i < |questions| ==> Encodable(questions[i].qname)
  }

  /** The builder accepts the state: its own checks, no more. */
  predicate Buildable(q: Query) {
    && q.questions != []
    && AllEncodable(q.questions)
    && (q.edns.Some? ==> q.edns.value.version == 0 && q.edns.value.udpPayloadSize >= MIN_UDP_PAYLOAD)
  }

  lemma {:induction false} QuestionsBytesSnoc(questions: seq<PendingQuestion>, last: PendingQuestion)
    ensures QuestionsBytes(questions + [last]) == QuestionsBytes(questions) + QuestionBytes(last)
  {
    if questions == [] {
      assert QuestionsBytes([last]) == QuestionBytes(last) + [];
    } else {
      assert (questions + [last])[1..] == questions[1..] + [last];
      QuestionsBytesSnoc(questions[1..], last);
    }
  }

  lemma {:induction false} OptionsBytesSnoc(options: seq<EdnsOption>, last: EdnsOption)
    ensures OptionsBytes(options + [last]) == OptionsBytes(options) + OptionBytes(last)
  {
    if options == [] {
      assert OptionsBytes([last]) == OptionBytes(last) + [];
    } else {
      assert (options + [last])[1..] == options[1..] + [last];
      OptionsBytesSnoc(options[1..], last);
    }
  }

  // ------------------------------------------------------------------ the writer

  class WireWriter {
    var buf: Octets

    constructor ()
      ensures buf == []
    {
      buf := [];
    }

    method WriteU16(v: U16)
      modifies this
      ensures buf == old(buf) + U16Bytes(v)
    {
      buf := buf + [v / 0x100];
      buf := buf + [v % 0x100];
    }

    method WriteU32(v: U32)
      modifies this
      ensures buf == old(buf) + U32Bytes(v)
    {
      buf := buf + [v / 0x100_0000];
      buf := buf + [v / 0x1_0000 % 0x100];
      buf := buf + [v / 0x100 % 0x100];
      buf := buf + [v % 0x100];
    }

    method WriteBytes(bytes: Octets)
      modifies this
      ensures buf == old(buf) + bytes
    {
      buf := buf + bytes;
    }

    /** Length octet and octets of one label. */
    method WriteLabel(name: Octets, pos: nat, dot: nat)
      requires pos <= dot <= |name| && dot - pos <= MAX_LABEL_LENGTH
      modifies this
      ensures buf == old(buf) + LabelBytes(name[pos..dot])
    {
      var length := dot - pos;
      buf := buf + [length];
      var i := 0;
      while i < length
        invariant i <= length && buf == old(buf) + [length] + name[pos..pos + i]
      {
        assert name[pos..pos + i + 1] == name[pos..pos + i] + [name[pos + i]];
        buf := buf + [name[pos + i]];
        i := i + 1;
      }
    }

    /** `encode_name`: refused names leave the writer behind, as the exception does. */
    method EncodeName(name: Octets) returns (ok: bool)
      modifies this
      ensures ok <==> Encodable(name)
      ensures ok ==> buf == old(buf) + EncodedName(name)
    {
      if name == [] || name == [DOT] {
        buf := buf + [0];
        assert EncodedName(name) == [0];
        return true;
      }
      var trailingDot := name[|name| - 1] == DOT;
      var encodedSize := |name| + if trailingDot then 1 else 2;
      if encodedSize > NAME_MAX_BYTES { return false; }
      ok := WriteLabels(name);
      if ok { buf := buf + [0]; }
    }

    /** The label loop of `encode_name`. */
    method WriteLabels(name: Octets) returns (ok: bool)
      requires !IsRoot(name) && EncodedSize(name) <= NAME_MAX_BYTES
      modifies this
      ensures ok <==> ShortLabels(LabelsOf(name))
      ensures ok ==> buf == old(buf) + EncodedLabels(LabelsOf(name))
    {
      hide LabelsWritten, LabelsOf, EncodedLabels;
      var pos := 0;
      ghost var before, done: seq<Octets> := buf, [];
      NoLabelWritten(name, before);
      while pos < |name|
        invariant pos <= |name| + 1 && LabelsWritten(name, pos, done, before, buf)
      {
        var dot := DotIndex(name, pos);
        var length: Byte := (dot - pos) % 0x100;
        CastKeepsLength(dot - pos);
        if length > MAX_LABEL_LENGTH {
          LongPiece(name, pos, dot, done, before, buf);
          return false;
        }
        ghost var written := buf;
        WriteLabel(name, pos, dot);
        done := LabelWritten(name, pos, dot, done, before, written, buf);
        pos := dot + 1;
      }
      AllLabelsWritten(name, pos, done, before, buf);
      return true;
    }
  }

  /** `buf` continues `before` by the encoded labels of `name` up to `pos`. */
  ghost predicate LabelsWritten(name: Octets, pos: nat, done: seq<Octets>, before: Octets, buf: Octets) {
    && pos <= |name| + 1 && ShortLabels(done)
    && Pieces(name) == done + Pieces(Rest(name, pos))
    && buf == before + EncodedLabels(done)
  }

  lemma LabelWritten(name: Octets, pos: nat, dot: nat, done: seq<Octets>, before: Octets, buf: Octets, buf': Octets)
    returns (done': seq<Octets>)
    requires LabelsWritten(name, pos, done, before, buf) && pos < |name| && dot == DotIndex(name, pos)
    requires dot - pos <= MAX_LABEL_LENGTH && buf' == buf + LabelBytes(name[pos..dot])
    ensures LabelsWritten(name, dot + 1, done', before, buf')
  {
    done' := done + [name[pos..dot]];
    PieceAt(name, pos, dot, done);
    BufferGrows(done, name[pos..dot], before, buf, buf');
  }

  lemma BufferGrows(done: seq<Octets>, piece: Octets, before: Octets, buf: Octets, buf': Octets)
    requires |piece| <= MAX_LABEL_LENGTH && ShortLabels(done)
    requires buf == before + EncodedLabels(done) && buf' == buf + LabelBytes(piece)
    ensures buf' == before + EncodedLabels(done + [piece]) && ShortLabels(done + [piece])
  {
    EncodedLabelsConcat(done, [piece]);
    assert EncodedLabels([piece]) == LabelBytes(piece) + [];
    assert before + EncodedLabels(done) + LabelBytes(piece) == before + (EncodedLabels(done) + LabelBytes(piece));
  }

  lemma NoLabelWritten(name: Octets, before: Octets)
    ensures LabelsWritten(name, 0, [], before, before)
  {
    assert [] + Pieces(name) == Pieces(name) && name[0..] == name && before + [] == before;
  }

  lemma AllLabelsWritten(name: Octets, pos: nat, done: seq<Octets>, before: Octets, buf: Octets)
    requires LabelsWritten(name, pos, done, before, buf) && pos >= |name| && !IsRoot(name)
    ensures ShortLabels(LabelsOf(name)) && buf == before + EncodedLabels(LabelsOf(name))
  {
    assert done + [] == done;
  }

  /** Behind the 255-octet check the cast to one octet loses nothing. */
  lemma CastKeepsLength(length: nat)
    requires length < NAME_MAX_BYTES
    ensures length % 0x100 == length
  {
  }

  lemma LongPiece(name: Octets, pos: nat, dot: nat, done: seq<Octets>, before: Octets, buf: Octets)
    requires LabelsWritten(name, pos, done, before, buf) && pos < |name| && dot == DotIndex(name, pos)
    requires !IsRoot(name) && dot - pos > MAX_LABEL_LENGTH
    ensures !ShortLabels(LabelsOf(name))
  {
    PieceAt(name, pos, dot, done);
    assert LabelsOf(name)[|done|] == name[pos..dot];
  }

  lemma FirstDot(name: Octets, from: nat, d: nat)
    requires from <= d <= |name| && (d < |name| ==> name[d] == DOT)
    requires forall k :: from <= k < d ==> name[k] != DOT
    ensures DotIndex(name, from) == d
  {
  }

  /** Cutting the next piece off the rest of a name. */
  lemma PieceAt(name: Octets, pos: nat, dot: nat, done: seq<Octets>)
    requires pos < |name| && dot == DotIndex(name, pos)
    ensures done + Pieces(Rest(name, pos)) == done + [name[pos..dot]] + Pieces(Rest(name, dot + 1))
  {
    hide Pieces;
    var rest, piece, after := name[pos..], name[pos..dot], Rest(name, dot + 1);
    FirstDot(rest, 0, dot - pos);
    FirstPiece(rest, dot - pos);
    assert rest[..dot - pos] == piece && Rest(rest, dot - pos + 1) == after;
    assert done + ([piece] + Pieces(after)) == done + [piece] + Pieces(after);
  }

  lemma FirstPiece(name: Octets, d: nat)
    requires name != [] && d == DotIndex(name, 0)
    ensures Pieces(name) == [name[..d]] + Pieces(Rest(name, d + 1))
  {
  }

  // ------------------------------------------------------------------ the builder

  lemma OptionsUpTo(options: seq<EdnsOption>, i: nat)
    requires i < |options|
    ensures OptionsBytes(options[..i + 1]) == OptionsBytes(options[..i]) + OptionBytes(options[i])
  {
    assert options[..i + 1] == options[..i] + [options[i]];
    OptionsBytesSnoc(options[..i], options[i]);
  }

  lemma SumIn16Bits(a: nat, b: nat)
    ensures (a % 0x1_0000 + b % 0x1_0000) % 0x1_0000 == (a + b) % 0x1_0000
  {
  }

  ghost predicate QuestionsWritten(questions: seq<PendingQuestion>, i: nat, before: Octets, buf: Octets) {
    && i <= |questions|
    && AllEncodable(questions[..i])
    && buf == before + QuestionsBytes(questions[..i])
  }

  lemma QuestionsUpTo(questions: seq<PendingQuestion>, i: nat)
    requires i < |questions|
    ensures QuestionsBytes(questions[..i + 1]) == QuestionsBytes(questions[..i]) + QuestionBytes(questions[i])
  {
    assert questions[..i + 1] == questions[..i] + [questions[i]];
    QuestionsBytesSnoc(questions[..i], questions[i]);
  }

  lemma EncodableUpTo(questions: seq<PendingQuestion>, i: nat)
    requires i < |questions| && AllEncodable(questions[..i]) && Encodable(questions[i].qname)
    ensures AllEncodable(questions[..i + 1])
  {
    var front, upTo := questions[..i], questions[..i + 1];
    forall k | 0 <= k < |upTo| ensures Encodable(upTo[k].qname) {
      if k < i { assert upTo[k] == front[k]; }
    }
  }

  lemma QuestionWritten(questions: seq<PendingQuestion>, i: nat, before: Octets, buf: Octets, buf': Octets)
    requires QuestionsWritten(questions, i, before, buf) && i < |questions|
    requires Encodable(questions[i].qname) && buf' == buf + QuestionBytes(questions[i])
    ensures QuestionsWritten(questions, i + 1, before, buf')
  {
    EncodableUpTo(questions, i);
    QuestionsUpTo(questions, i);
    Regroup(before, QuestionsBytes(questions[..i]), QuestionBytes(questions[i]));
  }

  class QueryBuilder {
    var id: U16
    var qr: bool
    var opcode: Byte
    var aa: bool
    var tc: bool
    var rd: bool
    var ra: bool
    var rcode: Byte
    var questions: seq<PendingQuestion>
    var edns: Option<EdnsConfig>

    function State(): Query
      reads this
    {
      Query(id, qr, opcode, aa, tc, rd, ra, rcode, questions, edns)
    }

    /** A recursive query with the identifier drawn from the random engine. */
    constructor (randomId: U16)
      ensures State() == Query(randomId, false, 0, false, false, true, false, 0, [], None)
    {
      id, qr, opcode, aa, tc, rd, ra := randomId, false, 0, false, false, true, false;
      rcode, questions, edns := 0, [], None;
    }

    method SetId(v: U16)
      modifies this
      ensures State() == old(State()).(id := v)
    {
      id := v;
    }

    method SetQr(v: bool)
      modifies this
      ensures State() == old(State()).(qr := v)
    {
      qr := v;
    }

    method SetOpcode(v: Byte)
      modifies this
      ensures State() == old(State()).(opcode := v)
    {
      opcode := v;
    }

    method SetAa(v: bool)
      modifies this
      ensures State() == old(State()).(aa := v)
    {
      aa := v;
    }

    method SetTc(v: bool)
      modifies this
      ensures State() == old(State()).(tc := v)
    {
      tc := v;
    }

    method SetRd(v: bool)
      modifies this
      ensures State() == old(State()).(rd := v)
    {
      rd := v;
    }

    method SetRa(v: bool)
      modifies this
      ensures State() == old(State()).(ra := v)
    {
      ra := v;
    }

    method SetRcode(v: Byte)
      modifies this
      ensures State() == old(State()).(rcode := v)
    {
      rcode := v;
    }

    /** `add_question` and `add_question_raw_qclass`, which differ in the type of the class only. */
    method AddQuestion(qname: Octets, qtype: U16, qclass: U16)
      modifies this
      ensures State() == old(State()).(questions := old(questions) + [PendingQuestion(qname, qtype, qclass)])
    {
      questions := questions + [PendingQuestion(qname, qtype, qclass)];
    }

    method AddEdns(udpPayloadSize: U16, version: Byte, dnssecOk: bool, options: seq<EdnsOption>)
      modifies this
      ensures State() == old(State()).(edns := Some(EdnsConfig(udpPayloadSize, version, dnssecOk, options)))
    {
      edns := Some(EdnsConfig(udpPayloadSize, version, dnssecOk, options));
    }

    method WriteHeaderStart(w: WireWriter)
      modifies w
      ensures w.buf == old(w.buf) + HeaderStart(State())
    {
      w.WriteU16(id);
      w.WriteU16(FlagsWord(qr, opcode, aa, tc, rd, ra, rcode));
      w.WriteU16(|questions| % 0x1_0000);
    }

    method WriteHeader(w: WireWriter)
      modifies w
      ensures w.buf == old(w.buf) + HeaderBytes(State())
    {
      WriteHeaderStart(w);
      w.WriteU16(0);
      w.WriteU16(0);
      w.WriteU16(if edns.Some? then 1 else 0);
    }

    method WriteQuestion(w: WireWriter, q: PendingQuestion) returns (ok: bool)
      modifies w
      ensures ok <==> Encodable(q.qname)
      ensures ok ==> w.buf == old(w.buf) + QuestionBytes(q)
    {
      ok := w.EncodeName(q.qname);
      if ok {
        w.WriteU16(q.qtype);
        w.WriteU16(q.qclass);
      }
    }

    /** The question loop of `build`. */
    method WriteQuestions(w: WireWriter) returns (ok: bool)
      modifies w
      ensures ok <==> AllEncodable(questions)
      ensures ok ==> w.buf == old(w.buf) + QuestionsBytes(questions)
    {
      var i := 0;
      ghost var before := w.buf;
      assert before + [] == before;
      while i < |questions|
        invariant QuestionsWritten(questions, i, before, w.buf)
      {
        ghost var buf := w.buf;
        var written := WriteQuestion(w, questions[i]);
        if !written { return false; }
        QuestionWritten(questions, i, before, buf, w.buf);
        i := i + 1;
      }
      assert questions[..i] == questions;
      return true;
    }

    method WriteOption(w: WireWriter, option: EdnsOption)
      modifies w
      ensures w.buf == old(w.buf) + OptionBytes(option)
    {
      w.WriteU16(option.code);
      w.WriteU16(|option.data| % 0x1_0000);
      w.WriteBytes(option.data);
    }

    /** RDLENGTH, summed in 16 bits. */
    method SumOptions(options: seq<EdnsOption>) returns (rdlength: U16)
      ensures rdlength == |OptionsBytes(options)| % 0x1_0000
    {
      rdlength := 0;
      var i := 0;
      while i < |options|
        invariant i <= |options| && rdlength == |OptionsBytes(options[..i])| % 0x1_0000
      {
        OptionsUpTo(options, i);
        SumIn16Bits(|OptionsBytes(options[..i])|, 4 + |options[i].data|);
        rdlength := (rdlength as int + (4 + |options[i].data|) % 0x1_0000) % 0x1_0000;
        i := i + 1;
      }
      assert options[..i] == options;
    }

    /** RDLENGTH and the options. */
    method WriteOptions(w: WireWriter, options: seq<EdnsOption>)
      modifies w
      ensures w.buf == old(w.buf) + U16Bytes(|OptionsBytes(options)| % 0x1_0000) + OptionsBytes(options)
    {
      var rdlength := SumOptions(options);
      w.WriteU16(rdlength);
      ghost var before := w.buf;
      assert before + [] == before;
      var i := 0;
      while i < |options|
        invariant i <= |options| && w.buf == before + OptionsBytes(options[..i])
      {
        OptionsUpTo(options, i);
        Regroup(before, OptionsBytes(options[..i]), OptionBytes(options[i]));
        WriteOption(w, options[i]);
        i := i + 1;
      }
      assert options[..i] == options;
    }

    /** The OPT record of `build`. */
    method WriteOpt(w: WireWriter, config: EdnsConfig)
      modifies w
      ensures w.buf == old(w.buf) + OptBytes(config)
    {
      var root := w.EncodeName([]);
      assert EncodedName([]) == [0];
      w.WriteU16(TYPE_OPT);
      w.WriteU16(config.udpPayloadSize);
      w.WriteU32(EdnsTtl(config));
      WriteOptions(w, config.options);
    }

    /** `build`: the packet of the state, or the exception. */
    method Build() returns (r: Result<Octets, PacketError>)
      ensures r == if Buildable(State()) then Ok(Packet(State())) else Err(PacketError)
      ensures r.Err? <==>
        || questions == [] || (exists i :: 0 <= i < |questions| && !Encodable(questions[i].qname))
        || (edns.Some? && (edns.value.version != 0 || edns.value.udpPayloadSize < 512))
    {
      if questions == [] { return Err(PacketError); }
      var w := new WireWriter();
      WriteHeader(w);
      var encoded := WriteQuestions(w);
      if !encoded { return Err(PacketError); }
      if edns.Some? {
        if edns.value.version != 0 { return Err(PacketError); }
        if edns.value.udpPayloadSize < MIN_UDP_PAYLOAD { return Err(PacketError); }
        WriteOpt(w, edns.value);
      }
      assert [] + HeaderBytes(State()) == HeaderBytes(State());
      assert edns.None? ==> Packet(State()) == HeaderBytes(State()) + QuestionsBytes(questions);
      return Ok(w.buf);
    }
  }
}
