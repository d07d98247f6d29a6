/**
 The response check: a response is matched to its request by identifier, flags and the octets of
 the question, found with a name walker of its own.
 */
module Validator {
  import opened Results
  import opened Bytes
  import opened Names
  import opened NameEncoding
  import opened Message
  import opened Builder
  import opened RoundTrip

  datatype Verdict =
    | Accepted | TooShort | NotAResponse | IdMismatch | WrongQuestionCount | MalformedQuestion | QuestionMismatch

  /** The offset past the first question, or 0. */
  function QuestionEnd(msg: Octets): nat {
    if |msg| < HEADER_SIZE || ReadU16(msg, 4) == 0 then 0
    else
      var end := SkippedName(msg, HEADER_SIZE);
      if end == 0 || end + 4 > |msg| then 0 else end + 4
  }

  /** `question_section_end`. */
  method FindQuestionEnd(msg: Octets) returns (end: nat)
    ensures end == QuestionEnd(msg)
  {
    if |msg| < HEADER_SIZE { return 0; }
    if ReadU16(msg, 4) == 0 { return 0; }
    var nameEnd := SkipName(msg, HEADER_SIZE);
    if nameEnd == 0 || nameEnd + 4 > |msg| { return 0; }
    return nameEnd + 4;
  }

  lemma {:induction false} SkippedPastStart(msg: Octets, offset: nat)
    ensures SkippedName(msg, offset) == 0 || SkippedName(msg, offset) > offset
    decreases |msg| - offset
  {
    if offset < |msg| && msg[offset] != 0 && !IsPointer(msg[offset]) {
      SkippedPastStart(msg, offset + 1 + msg[offset]);
    }
  }

  /** Both question sections end at the same place, with the same octets before it. */
  predicate SameQuestion(request: Octets, response: Octets) {
    var end := QuestionEnd(request);
    && HEADER_SIZE <= end == QuestionEnd(response) <= |request| && end <= |response|
    && request[HEADER_SIZE..end] == response[HEADER_SIZE..end]
  }

  /** `check_question_echo`. */
  method CheckQuestionEcho(request: Octets, response: Octets) returns (v: Verdict)
    ensures v == Accepted <==> SameQuestion(request, response)
    ensures v == MalformedQuestion <==> QuestionEnd(request) == 0 || QuestionEnd(response) == 0
    ensures v in {Accepted, MalformedQuestion, QuestionMismatch}
  {
    SkippedPastStart(request, HEADER_SIZE);
    SkippedPastStart(response, HEADER_SIZE);
    var requestEnd := FindQuestionEnd(request);
    var responseEnd := FindQuestionEnd(response);
    if requestEnd == 0 || responseEnd == 0 { return MalformedQuestion; }
    var requestLength := requestEnd - HEADER_SIZE;
    var responseLength := responseEnd - HEADER_SIZE;
    if requestLength == responseLength
      && request[HEADER_SIZE..HEADER_SIZE + requestLength] == response[HEADER_SIZE..HEADER_SIZE + responseLength] {
      return Accepted;
    }
    return QuestionMismatch;
  }

  /** The response is one, and carries the request's identifier. */
  predicate HeaderEchoes(request: Octets, response: Octets)
    requires |request| >= 2
  {
    |response| >= HEADER_SIZE && Bit(response[2], 0x80) && response[..2] == request[..2]
  }

  /** What an accepted response has in common with its request. */
  predicate Echoes(request: Octets, response: Octets)
    requires |request| >= 2
  {
    && |response| >= HEADER_SIZE
    && Bit(response[2], 0x80)
    && response[..2] == request[..2]
    && ReadU16(response, 4) == 1
    && SameQuestion(request, response)
  }

  /** `validate_response`; the request must hold an identifier, as every built packet does. */
  method ValidateResponse(request: Octets, response: Octets) returns (v: Verdict)
    requires |request| >= 2
    ensures v == Accepted <==> Echoes(request, response)
    ensures v == TooShort <==> |response| < HEADER_SIZE
    ensures v == NotAResponse <==> |response| >= HEADER_SIZE && !Bit(response[2], 0x80)
    ensures v == IdMismatch <==>
      |response| >= HEADER_SIZE && Bit(response[2], 0x80) && response[..2] != request[..2]
    ensures v == WrongQuestionCount <==> HeaderEchoes(request, response) && ReadU16(response, 4) != 1
    ensures v == MalformedQuestion <==>
      && HeaderEchoes(request, response) && ReadU16(response, 4) == 1
      && (QuestionEnd(request) == 0 || QuestionEnd(response) == 0)
    ensures v == QuestionMismatch <==>
      && HeaderEchoes(request, response) && ReadU16(response, 4) == 1
      && QuestionEnd(request) != 0 && QuestionEnd(response) != 0 && !SameQuestion(request, response)
  {
    SkippedPastStart(request, HEADER_SIZE);
    if |response| < HEADER_SIZE { return TooShort; }
    if response[2] / 0x80 % 2 != 1 { return NotAResponse; }
    assert response[..2] == [response[0], response[1]] && request[..2] == [request[0], request[1]];
    if response[0] != request[0] || response[1] != request[1] { return IdMismatch; }
    if ReadU16(response, 4) != 1 { return WrongQuestionCount; }
    v := CheckQuestionEcho(request, response);
  }

  // ------------------------------------------------------------------ what acceptance means

  /** The octets of a name that a reader sees: up to the first empty label. */
  function SeenName(name: Octets): Octets {
    EncodedLabels(LabelsOf(name)[..FirstEmpty(LabelsOf(name))]) + [0]
  }

  function SeenText(name: Octets): Octets {
    Dotted(LabelsOf(name)[..FirstEmpty(LabelsOf(name))])
  }

  lemma SeenIsPrefix(name: Octets) returns (tail: Octets)
    ensures EncodedName(name) == SeenName(name) + tail
  {
    var labels := LabelsOf(name);
    var e := FirstEmpty(labels);
    if e < |labels| {
      tail := EncodedUpToEmpty(labels, e);
    } else {
      assert labels[..e] == labels;
      tail := [];
    }
  }

  lemma SeenAnywhere(wire: Octets, at: nat, name: Octets)
    requires At(wire, at, SeenName(name)) && Encodable(name)
    ensures NameAt(wire, at) == Ok((SeenText(name), at + |SeenName(name)|))
    ensures SkippedName(wire, at) == at + |SeenName(name)|
  {
    var labels := LabelsOf(name);
    var taken := labels[..FirstEmpty(labels)];
    DecodeGoodLabels(wire, at, taken, MAX_POINTER_DEPTH);
    SkipAgreesWithDecode(wire, at, MAX_POINTER_DEPTH);
  }

  /** What is seen is the whole name exactly when it has no empty label. */
  lemma SeenWhole(name: Octets)
    requires Encodable(name)
    ensures SeenText(name) == Undotted(name) <==> NoEmptyLabel(name)
    ensures NoEmptyLabel(name) ==> SeenName(name) == EncodedName(name)
  {
    hide NameAt, SkippedName, EncodedLabels;
    var labels := LabelsOf(name);
    var wire := EncodedName(name);
    assert wire[0..|wire|] == wire;
    var tail := SeenIsPrefix(name);
    AtSplit(wire, 0, SeenName(name), tail);
    SeenAnywhere(wire, 0, name);
    NameRoundTrip(wire, 0, name);
    if NoEmptyLabel(name) { assert labels[..FirstEmpty(labels)] == labels; }
  }

  lemma RequestName(q: Query)
    requires Buildable(q)
    ensures At(Packet(q), HEADER_SIZE, SeenName(q.questions[0].qname))
    ensures ReadHeader(Packet(q)) == ExpectedHeader(q)
    ensures Packet(q)[..2] == U16Bytes(q.id)
  {
    hide QuestionsBytes, EncodedName, SeenName;
    var whole, q0 := Packet(q), q.questions[0];
    PacketParts(q);
    HeaderRoundTrip(whole, q);
    QuestionsSplit(whole, HEADER_SIZE, q.questions);
    QuestionPieces(whole, HEADER_SIZE, q0);
    var tail := SeenIsPrefix(q0.qname);
    AtSplit(whole, HEADER_SIZE, SeenName(q0.qname), tail);
    assert whole[..2] == whole[0..HEADER_SIZE][..2] == HeaderBytes(q)[..2];
  }

  /** An accepted response repeats, octet by octet, a question its request really asked. */
  lemma AcceptedRequestsAsk(request: Octets, response: Octets)
    requires |request| >= 2 && Echoes(request, response)
    ensures |request| >= 12 && ReadU16(request, 4) > 0
    ensures var end := SkippedName(request, 12);
            && 12 < end && end + 4 <= |request| && end + 4 <= |response|
            && SkippedName(response, 12) == end && request[12..end + 4] == response[12..end + 4]
  {
    SkippedPastStart(request, HEADER_SIZE);
    SkippedPastStart(response, HEADER_SIZE);
  }

  lemma SameRange(a: Octets, b: Octets, from: nat, to: nat, s: Octets)
    requires from + |s| <= to <= |a| && to <= |b| && a[from..to] == b[from..to] && At(a, from, s)
    ensures At(b, from, s)
  {
    assert a[from..to][..|s|] == a[from..from + |s|];
    assert b[from..to][..|s|] == b[from..from + |s|];
  }

  /** The part of the response that the check compared holds the name of the request, and what follows it. */
  lemma EchoedName(q: Query, response: Octets)
    requires Buildable(q) && Echoes(Packet(q), response)
    ensures var name := q.questions[0].qname;
            && At(response, HEADER_SIZE, SeenName(name))
            && NameAt(response, HEADER_SIZE) == Ok((SeenText(name), HEADER_SIZE + |SeenName(name)|))
            && QuestionEnd(Packet(q)) == HEADER_SIZE + |SeenName(name)| + 4
  {
    hide SeenText, SeenName, NameAt, ReadHeader, Packet, At, SkippedName, Buildable, Encodable;
    FirstIsEncodable(q);
    var request, name := Packet(q), q.questions[0].qname;
    RequestName(q);
    AcceptedRequestsAsk(request, response);
    SeenAnywhere(request, HEADER_SIZE, name);
    var end := QuestionEnd(request);
    SameRange(request, response, HEADER_SIZE, end, SeenName(name));
    SeenAnywhere(response, HEADER_SIZE, name);
  }

  lemma FirstIsEncodable(q: Query)
    requires Buildable(q)
    ensures q.questions != [] && Encodable(q.questions[0].qname)
  {
  }

  lemma EchoedTypeAndClass(q: Query, response: Octets)
    requires Buildable(q) && Echoes(Packet(q), response) && NoEmptyLabel(q.questions[0].qname)
    ensures ReadQuestion(response, HEADER_SIZE).Ok?
    ensures ReadQuestion(response, HEADER_SIZE).value.0 == ExpectedQuestion(q.questions[0])
  {
    hide NameAt, Packet, QuestionsBytes, SeenName, SeenText, EncodedName, NoEmptyLabel, Encodable;
    var request, q0 := Packet(q), q.questions[0];
    EchoedName(q, response);
    SeenWhole(q0.qname);
    PacketParts(q);
    QuestionsSplit(request, HEADER_SIZE, q.questions);
    QuestionPieces(request, HEADER_SIZE, q0);
    var end, at := QuestionEnd(request), HEADER_SIZE + |SeenName(q0.qname)|;
    forall i | at <= i < end ensures request[i] == response[i] {
      assert request[i] == request[HEADER_SIZE..end][i - HEADER_SIZE];
      assert response[i] == response[HEADER_SIZE..end][i - HEADER_SIZE];
    }
  }

  /**
   An accepted response answers the question asked. The request is a built packet with one question;
   its response is accepted and parses. Then the message carries the request's identifier and the
   response flag, and its one question is the one asked, exactly when the asked name has no empty
   label.
   */
  lemma AcceptedAnswersTheQuestion(q: Query, response: Octets, copied: bool)
    requires Buildable(q) && |q.questions| == 1 && Echoes(Packet(q), response)
    requires ReadMessage(response, copied).Ok?
    ensures var m := ReadMessage(response, copied).value;
            && m.header.id == q.id && m.header.qr && |m.sections.questions| == 1
            && (m.sections.questions == [ExpectedQuestion(q.questions[0])] <==> NoEmptyLabel(q.questions[0].qname))
  {
    hide NameAt, Packet, SeenName, SeenText, NoEmptyLabel, ReadRecords, EdnsOf;
    var q0 := q.questions[0];
    RequestName(q);
    EchoedName(q, response);
    SeenWhole(q0.qname);
    if NoEmptyLabel(q0.qname) { EchoedTypeAndClass(q, response); }
    assert ReadU16(response, 0) == q.id by {
      assert response[..2] == U16Bytes(q.id);
      assert response[0] == response[..2][0] && response[1] == response[..2][1];
    }
    OneQuestion(response, HEADER_SIZE);
  }

  lemma OneQuestion(data: Octets, offset: nat)
    ensures ReadQuestions(data, offset, 1).Ok? <==> ReadQuestion(data, offset).Ok?
    ensures ReadQuestions(data, offset, 1).Ok?
        ==> ReadQuestions(data, offset, 1).value.0 == [ReadQuestion(data, offset).value.0]
  {
    hide NameAt;
    if ReadQuestion(data, offset).Ok? {
      assert ReadQuestions(data, ReadQuestion(data, offset).value.1, 0).Ok?;
    }
  }

  /** The converse: a response with the identifier, the flag, the count and the question's octets is accepted. */
  lemma FaithfulResponsesAreAccepted(q: Query, response: Octets)
    requires Buildable(q) && |q.questions| == 1 && NoEmptyLabel(q.questions[0].qname)
    requires |response| >= HEADER_SIZE && Bit(response[2], 0x80) && response[..2] == U16Bytes(q.id)
    requires ReadU16(response, 4) == 1 && At(response, HEADER_SIZE, QuestionBytes(q.questions[0]))
    ensures Echoes(Packet(q), response)
  {
    hide NameAt, Packet, SeenName, SeenText, NoEmptyLabel, QuestionsBytes, EncodedName;
    var request, q0 := Packet(q), q.questions[0];
    RequestName(q);
    SeenWhole(q0.qname);
    PacketParts(q);
    QuestionsSplit(request, HEADER_SIZE, q.questions);
    QuestionPieces(request, HEADER_SIZE, q0);
    QuestionPieces(response, HEADER_SIZE, q0);
    SeenAnywhere(request, HEADER_SIZE, q0.qname);
    SeenAnywhere(response, HEADER_SIZE, q0.qname);
    assert |QuestionBytes(q0)| == |EncodedName(q0.qname)| + 4;
  }
}
