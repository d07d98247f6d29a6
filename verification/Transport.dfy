/**
 A connection seen from the reading side: octets arrive in reads of any non-zero size, until the
 connection reports its fault. No contract mentions the sizes, so what is proved of a reader holds
 for every way the transport splits the octets.
 */
module Transport {
  import opened Results
  import opened Bytes

  class Connection<E> {
    var pending: Octets
    var splits: seq<nat>
    const fault: E

    constructor (content: Octets, splits: seq<nat>, fault: E)
      ensures pending == content && this.fault == fault
    {
      this.pending, this.splits, this.fault := content, splits, fault;
    }

    /** One read into `buf[from..]`: at least one octet, at most the room there is. */
    method ReadSome(buf: array<Byte>, from: nat) returns (r: Result<nat, E>)
      requires from < buf.Length
      modifies this, buf
      ensures old(pending) == [] ==> r == Err(fault) && pending == [] && buf[..] == old(buf[..])
      ensures old(pending) != [] ==>
        && r.Ok? && 1 <= r.value <= buf.Length - from && r.value <= |old(pending)|
        && buf[..from + r.value] == old(buf[..from]) + old(pending)[..r.value]
        && pending == old(pending)[r.value..]
    {
      if pending == [] { return Err(fault); }
      var n := 1;
      if splits != [] {
        n := if splits[0] == 0 then 1 else splits[0];
        splits := splits[1..];
      }
      if n > |pending| { n := |pending|; }
      if n > buf.Length - from { n := buf.Length - from; }
      var i := 0;
      while i < n
        invariant i <= n && pending == old(pending)
        invariant buf[..from + i] == old(buf[..from]) + pending[..i]
      {
        buf[from + i] := pending[i];
        assert buf[..from + i + 1] == buf[..from + i] + [pending[i]];
        assert pending[..i + 1] == pending[..i] + [pending[i]];
        i := i + 1;
      }
      pending := pending[n..];
      return Ok(n);
    }

    /** Reads until the buffer is full from `from` on: the partial-read loop. */
    method ReadExact(buf: array<Byte>, from: nat) returns (r: Result<(), E>)
      requires from <= buf.Length
      modifies this, buf
      ensures r.Ok? <==> |old(pending)| >= buf.Length - from
      ensures r.Err? ==> r.error == fault
      ensures r.Ok? ==> buf[..] == old(buf[..from]) + old(pending)[..buf.Length - from]
      ensures r.Ok? ==> pending == old(pending)[buf.Length - from..]
    {
      var total := from;
      while total < buf.Length
        invariant from <= total <= buf.Length && total - from <= |old(pending)|
        invariant buf[..total] == old(buf[..from]) + old(pending)[..total - from]
        invariant pending == old(pending)[total - from..]
      {
        var n := ReadSome(buf, total);
        if n.Err? { return Err(n.error); }
        total := total + n.value;
      }
      return Ok(());
    }
  }
}
