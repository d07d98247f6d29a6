/** Length-prefixed messages over a byte stream (section 4.2.2 of RFC 1035). */
module Framing {
  import opened Results
  import opened Bytes
  import opened Transport

  const MAX_DNS_PACKET_SIZE: nat := 4096

  /** What the receiver makes of everything the peer sends before the connection's fault. */
  function Framed(content: Octets, fault: DnsError): Result<Octets, DnsError> {
    if |content| < 2 then Err(fault)
    else
      var length := ReadU16(content, 0);
      if length == 0 || length > MAX_DNS_PACKET_SIZE then Err(PARSE)
      else if |content| < 2 + length then Err(fault)
      else Ok(content[2..2 + length])
  }

  /** The receiving half of `query_tcp`: both partial-read loops. */
  method ReceiveTcp(connection: Connection<DnsError>) returns (r: Result<Octets, DnsError>)
    modifies connection
    ensures r == Framed(old(connection.pending), connection.fault)
    ensures r.Ok? ==> connection.pending == old(connection.pending)[2 + |r.value|..]
  {
    var lengthBuffer := new Byte[2];
    var read := connection.ReadExact(lengthBuffer, 0);
    if read.Err? { return Err(read.error); }
    assert lengthBuffer[..] == old(connection.pending)[..2];
    assert lengthBuffer[0] == lengthBuffer[..][0] && lengthBuffer[1] == lengthBuffer[..][1];
    var length: nat := lengthBuffer[0] as int * 0x100 + lengthBuffer[1];
    if length == 0 || length > MAX_DNS_PACKET_SIZE { return Err(PARSE); }
    var response := new Byte[length];
    read := connection.ReadExact(response, 0);
    if read.Err? { return Err(read.error); }
    assert response[..] == old(connection.pending)[2..2 + length];
    return Ok(response[..]);
  }

  lemma FramedMeans(content: Octets, fault: DnsError, message: Octets)
    requires Framed(content, fault) == Ok(message)
    ensures 0 < |message| <= MAX_DNS_PACKET_SIZE && U16Bytes(|message|) + message <= content
  {
    assert content[..2] == U16Bytes(|message|);
    assert content[..2 + |message|] == content[..2] + message;
  }

  lemma FramedArrives(content: Octets, fault: DnsError, message: Octets)
    requires 0 < |message| <= MAX_DNS_PACKET_SIZE && U16Bytes(|message|) + message <= content
    ensures Framed(content, fault) == Ok(message)
  {
    var n := |message|;
    assert At(content, 0, U16Bytes(n) + message) by { assert content[0..2 + n] == U16Bytes(n) + message; }
    AtSplit(content, 0, U16Bytes(n), message);
    ReadWrittenU16(content, 0, n);
    hide U16Bytes, ReadU16;
  }

  /** Exactly which byte streams deliver a message: its length, then the message, then anything. */
  lemma FramedExactly(content: Octets, fault: DnsError, message: Octets)
    ensures Framed(content, fault) == Ok(message)
       <==> 0 < |message| <= MAX_DNS_PACKET_SIZE && U16Bytes(|message| % 0x1_0000) + message <= content
  {
    hide Framed, U16Bytes;
    if Framed(content, fault) == Ok(message) { FramedMeans(content, fault, message); }
    if 0 < |message| <= MAX_DNS_PACKET_SIZE && U16Bytes(|message| % 0x1_0000) + message <= content {
      FramedArrives(content, fault, message);
    }
  }

  /** Every other stream is refused: an impossible length as malformed, and a stream that stops early as its connection does. */
  lemma FramingFailures(content: Octets, length: nat, part: Octets, fault: DnsError)
    requires length < 0x1_0000
    ensures |content| < 2 ==> Framed(content, fault) == Err(fault)
    ensures length == 0 || length > 4096 ==> Framed(U16Bytes(length) + part, fault) == Err(PARSE)
    ensures 0 < length <= 4096 && |part| < length ==> Framed(U16Bytes(length) + part, fault) == Err(fault)
  {
    var stream := U16Bytes(length) + part;
    assert At(stream, 0, U16Bytes(length)) by { assert stream[0..2] == U16Bytes(length); }
    ReadWrittenU16(stream, 0, length);
  }
}
