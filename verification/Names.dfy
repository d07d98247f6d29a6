/**
 Domain names on the wire: the decoder with compression pointers, the encoder, and the
 second name walker that the response check uses.

 A name on the wire is a list of labels. `DecodeName` is the simple recursive reading of
 section 4.1.4 of RFC 1035, with a budget of pointer jumps and nothing else; the decoding
 method, which works with a cursor and an array of visited targets, is proved equal to it.
 */
module Names {
  import opened Results
  import opened Bytes

  const MAX_POINTER_DEPTH: nat := 7
  const COMMENTED_POINTER_DEPTH: nat := 16
  const MAX_LABEL_LENGTH: nat := 63
  const NAME_MAX_BYTES: nat := 255
  const DOT: Byte := 46

  datatype Decoded = Decoded(labels: seq<Octets>, end: nat)

  // ------------------------------------------------------------------ labels and dots

  /** The dotted form of a list of labels. */
  function Dotted(labels: seq<Octets>): Octets {
    Joined(labels, DOT)
  }

  predicate NonEmptyLabels(labels: seq<Octets>) {
    forall i :: 0 <= i < |labels| ==> labels[i] != []
  }

  predicate ShortLabels(labels: seq<Octets>) {
    forall i :: 0 <= i < |labels| ==> |labels[i]| <= MAX_LABEL_LENGTH
  }

  // ------------------------------------------------------------------ decoding

  predicate IsPointer(b: Byte) {
    b >= 0xC0
  }

  function PointerTarget(wire: Octets, pos: nat): nat
    requires pos + 2 <= |wire| && IsPointer(wire[pos])
  {
    wire[pos] as int % 0x40 * 0x100 + wire[pos + 1]
  }

  /** An ordinary label lies wholly inside the wire at `pos`. */
  predicate LabelAt(wire: Octets, pos: nat) {
    pos < |wire| && 0 < wire[pos] <= MAX_LABEL_LENGTH && pos + 1 + wire[pos] <= |wire|
  }

  /** The reference decoder: labels, then a root label or a pointer; `jumps` pointers may be followed. */
  function DecodeName(wire: Octets, pos: nat, jumps: nat): Option<Decoded>
    decreases jumps, |wire| - pos
  {
    if pos >= |wire| then None
    else if IsPointer(wire[pos]) then
      if pos + 2 > |wire| || jumps == 0 then None
      else
        match DecodeName(wire, PointerTarget(wire, pos), jumps - 1)
        case None => None
        case Some(d) => Some(Decoded(d.labels, pos + 2))
    else if wire[pos] == 0 then Some(Decoded([], pos + 1))
    else if !LabelAt(wire, pos) then None
    else
      match DecodeName(wire, pos + 1 + wire[pos], jumps)
      case None => None
      case Some(d) => Some(Decoded([wire[pos + 1..pos + 1 + wire[pos]]] + d.labels, d.end))
  }

  /** One label of a decoding, with the labels after it. */
  lemma DecodeAtLabel(wire: Octets, pos: nat, jumps: nat, first: Octets, rest: seq<Octets>, end: nat)
    requires LabelAt(wire, pos) && wire[pos + 1..pos + 1 + wire[pos]] == first
    requires DecodeName(wire, pos + 1 + |first|, jumps) == Some(Decoded(rest, end))
    ensures DecodeName(wire, pos, jumps) == Some(Decoded([first] + rest, end))
  {
  }

  /** How many pointers a name follows. */
  function PointersFollowed(wire: Octets, pos: nat, jumps: nat): (n: nat)
    requires DecodeName(wire, pos, jumps).Some?
    ensures n <= jumps
    decreases jumps, |wire| - pos
  {
    if IsPointer(wire[pos]) then 1 + PointersFollowed(wire, PointerTarget(wire, pos), jumps - 1)
    else if wire[pos] == 0 then 0
    else PointersFollowed(wire, pos + 1 + wire[pos], jumps)
  }

  /** A larger budget accepts the same names and more: a name decodes within a budget iff it follows no more pointers. */
  lemma {:induction false} DecodesWithin(wire: Octets, pos: nat, few: nat, many: nat)
    requires few <= many
    ensures DecodeName(wire, pos, few).Some? ==> DecodeName(wire, pos, many) == DecodeName(wire, pos, few)
    ensures DecodeName(wire, pos, many).Some? ==>
      (DecodeName(wire, pos, few).Some? <==> PointersFollowed(wire, pos, many) <= few)
    decreases many, |wire| - pos
  {
    if pos < |wire| {
      if IsPointer(wire[pos]) {
        if pos + 2 <= |wire| && few > 0 { DecodesWithin(wire, PointerTarget(wire, pos), few - 1, many - 1); }
      } else if LabelAt(wire, pos) {
        DecodesWithin(wire, pos + 1 + wire[pos], few, many);
      }
    }
  }

  /**
   The limit of the code and the limit of its comment: they decode a name alike unless it follows more
   than seven and at most sixteen pointers.
   */
  lemma PointerLimitsDifferExactly(wire: Octets, pos: nat)
    ensures DecodeName(wire, pos, MAX_POINTER_DEPTH) == DecodeName(wire, pos, COMMENTED_POINTER_DEPTH) <==>
      || DecodeName(wire, pos, COMMENTED_POINTER_DEPTH).None?
      || PointersFollowed(wire, pos, COMMENTED_POINTER_DEPTH) <= MAX_POINTER_DEPTH
  {
    DecodesWithin(wire, pos, MAX_POINTER_DEPTH, COMMENTED_POINTER_DEPTH);
  }

  /** Decoded labels are never empty and at most 63 octets, and the end is inside the wire. */
  lemma {:induction false} DecodedLabels(wire: Octets, pos: nat, jumps: nat)
    requires DecodeName(wire, pos, jumps).Some?
    ensures NonEmptyLabels(DecodeName(wire, pos, jumps).value.labels)
    ensures ShortLabels(DecodeName(wire, pos, jumps).value.labels)
    ensures pos < DecodeName(wire, pos, jumps).value.end <= |wire|
    decreases jumps, |wire| - pos
  {
    if IsPointer(wire[pos]) {
      DecodedLabels(wire, PointerTarget(wire, pos), jumps - 1);
    } else if wire[pos] != 0 {
      DecodedLabels(wire, pos + 1 + wire[pos], jumps);
    }
  }

  /** Where the first pointer at or after `pos` leads, walking over ordinary labels. */
  function NextTarget(wire: Octets, pos: nat): Option<nat>
    decreases |wire| - pos
  {
    if pos >= |wire| then None
    else if IsPointer(wire[pos]) then
      if pos + 2 > |wire| then None else Some(PointerTarget(wire, pos))
    else if LabelAt(wire, pos) then NextTarget(wire, pos + 1 + wire[pos])
    else None
  }

  /** Each target of the list is the one reached from its predecessor. */
  predicate TargetChain(wire: Octets, targets: seq<nat>) {
    forall i :: 0 <= i < |targets| - 1 ==> NextTarget(wire, targets[i]) == Some(targets[i + 1])
  }

  /** A decoding that meets a pointer spends one jump and goes on from its target. */
  lemma {:induction false} DecodeThroughPointer(wire: Octets, pos: nat, jumps: nat)
    requires NextTarget(wire, pos).Some? && DecodeName(wire, pos, jumps).Some?
    ensures jumps > 0 && DecodeName(wire, NextTarget(wire, pos).value, jumps - 1).Some?
    decreases |wire| - pos
  {
    if !IsPointer(wire[pos]) {
      DecodeThroughPointer(wire, pos + 1 + wire[pos], jumps);
    }
  }

  lemma {:induction false} DecodeAlongChain(wire: Octets, targets: seq<nat>, jumps: nat)
    requires |targets| > 0 && TargetChain(wire, targets) && DecodeName(wire, targets[0], jumps).Some?
    ensures jumps >= |targets| - 1
    ensures DecodeName(wire, targets[|targets| - 1], jumps - (|targets| - 1)).Some?
    decreases |targets|
  {
    if |targets| > 1 {
      assert NextTarget(wire, targets[0]) == Some(targets[0 + 1]);
      DecodeThroughPointer(wire, targets[0], jumps);
      DecodeAlongChain(wire, targets[1..], jumps - 1);
    }
  }

  /** A repeated pointer target exhausts every budget of jumps: rejecting it changes no accepted input. */
  lemma {:induction false} CycleExhaustsJumps(wire: Octets, targets: seq<nat>, jumps: nat)
    requires |targets| >= 2 && TargetChain(wire, targets) && targets[|targets| - 1] == targets[0]
    ensures DecodeName(wire, targets[0], jumps).None?
  {
    if DecodeName(wire, targets[0], jumps).Some? {
      DecodeAlongChain(wire, targets, jumps);
      CycleExhaustsJumps(wire, targets, jumps - (|targets| - 1));
    }
  }

  /** The whole decoding, given the labels read so far, the rest, and where the first pointer ended. */
  ghost function Resumed(labels: seq<Octets>, rest: Option<Decoded>, jumped: bool, jumpEnd: nat): Option<Decoded> {
    match rest
    case None => None
    case Some(d) => Some(Decoded(labels + d.labels, if jumped then jumpEnd else d.end))
  }

  /** What `decompress_name` returns to its caller: the dotted name and the offset past it. */
  function NameAt(wire: Octets, offset: nat): Result<(Octets, nat), DnsError> {
    match DecodeName(wire, offset, MAX_POINTER_DEPTH)
    case None => Err(PARSE)
    case Some(d) => Ok((Dotted(d.labels), d.end))
  }

  lemma ResumedAtRoot(wire: Octets, current: nat, jumps: nat, labels: seq<Octets>, jumped: bool, end: nat)
    requires current < |wire| && wire[current] == 0
    ensures Resumed(labels, DecodeName(wire, current, jumps), jumped, end)
         == Some(Decoded(labels, if jumped then end else current + 1))
  {
    assert labels + [] == labels;
  }

  lemma ResumedAtLabel(wire: Octets, current: nat, jumps: nat, labels: seq<Octets>, jumped: bool, end: nat)
    requires LabelAt(wire, current)
    ensures Resumed(labels, DecodeName(wire, current, jumps), jumped, end)
         == Resumed(labels + [wire[current + 1..current + 1 + wire[current]]],
                    DecodeName(wire, current + 1 + wire[current], jumps), jumped, end)
  {
    var last := wire[current + 1..current + 1 + wire[current]];
    match DecodeName(wire, current + 1 + wire[current], jumps) {
      case None =>
      case Some(d) => assert labels + ([last] + d.labels) == labels + [last] + d.labels;
    }
  }

  /** Appending a label to the dotted form, as the loop does it. */
  lemma DottedGrows(labels: seq<Octets>, last: Octets)
    requires NonEmptyLabels(labels) && last != []
    ensures Dotted(labels) == [] <==> labels == []
    ensures Dotted(labels + [last]) == (if labels == [] then [] else Dotted(labels) + [DOT]) + last
    ensures NonEmptyLabels(labels + [last])
  {
    if labels != [] {
      JoinedSnoc(labels, DOT, last);
    }
  }

  lemma ResumedAtPointer(wire: Octets, current: nat, jumps: nat, labels: seq<Octets>, jumped: bool, end: nat)
    requires current + 2 <= |wire| && IsPointer(wire[current]) && jumps > 0
    ensures Resumed(labels, DecodeName(wire, current, jumps), jumped, end)
         == Resumed(labels, DecodeName(wire, PointerTarget(wire, current), jumps - 1), true,
                    if jumped then end else current + 2)
  {
  }

  /** The targets seen so far lead, label by label, to the cursor. */
  ghost predicate LeadsTo(wire: Octets, targets: seq<nat>, current: nat) {
    && TargetChain(wire, targets)
    && (targets != [] ==> NextTarget(wire, targets[|targets| - 1]) == NextTarget(wire, current))
  }

  lemma LeadsOn(wire: Octets, targets: seq<nat>, current: nat)
    requires LeadsTo(wire, targets, current) && current + 2 <= |wire| && IsPointer(wire[current])
    ensures LeadsTo(wire, targets + [PointerTarget(wire, current)], PointerTarget(wire, current))
  {
  }

  lemma LeadsFromNothing(wire: Octets, current: nat)
    ensures LeadsTo(wire, [], current)
  {
  }

  lemma LeadsPastLabel(wire: Octets, targets: seq<nat>, current: nat)
    requires LeadsTo(wire, targets, current) && LabelAt(wire, current)
    ensures LeadsTo(wire, targets, current + 1 + wire[current])
  {
  }

  /** Jumping to a target seen before leads nowhere, whatever the budget. */
  lemma RepeatedTarget(wire: Octets, targets: seq<nat>, current: nat, i: nat, jumps: nat,
                       labels: seq<Octets>, jumped: bool, end: nat)
    requires LeadsTo(wire, targets, current) && current + 2 <= |wire| && IsPointer(wire[current])
    requires i < |targets| && targets[i] == PointerTarget(wire, current)
    ensures Resumed(labels, DecodeName(wire, current, jumps), jumped, end).None?
  {
    LeadsOn(wire, targets, current);
    var target := PointerTarget(wire, current);
    var cycle := targets[i..] + [target];
    assert cycle == (targets + [target])[i..];
    if jumps > 0 { CycleExhaustsJumps(wire, cycle, jumps - 1); }
  }

  /** The linear scan of the visited slots. */
  method FindVisited(visited: array<nat>, count: nat, target: nat) returns (found: bool, i: nat)
    requires count <= visited.Length
    ensures found <==> target in visited[..count]
    ensures found ==> i < count && visited[i] == target
  {
    i := 0;
    while i < count
      invariant i <= count && target !in visited[..i]
    {
      if visited[i] == target { return true, i; }
      i := i + 1;
    }
    return false, i;
  }

  /** Off the wire, in a truncated or one too many pointer, or at a bad label, nothing decodes. */
  lemma NothingDecodes(wire: Octets, current: nat, jumps: nat, labels: seq<Octets>, jumped: bool, end: nat)
    requires current < |wire| && IsPointer(wire[current]) ==> current + 2 > |wire| || jumps == 0
    requires current < |wire| && !IsPointer(wire[current]) ==> wire[current] != 0 && !LabelAt(wire, current)
    ensures Resumed(labels, DecodeName(wire, current, jumps), jumped, end).None?
  {
  }

  lemma ResumedFromStart(whole: Option<Decoded>, end: nat)
    ensures Resumed([], whole, false, end) == whole
  {
    if whole.Some? { assert [] + whole.value.labels == whole.value.labels; }
  }

  /** A name that decodes ends past its start, inside the wire. */
  lemma NameEnds(wire: Octets, offset: nat)
    requires NameAt(wire, offset).Ok?
    ensures offset < NameAt(wire, offset).value.1 <= |wire|
  {
    DecodedLabels(wire, offset, MAX_POINTER_DEPTH);
  }

  /** `decompress_name`: cursor, seven slots of visited targets, and the dotted result grown in place. */
  method DecompressName(wire: Octets, offset: nat) returns (r: Result<(Octets, nat), DnsError>)
    ensures r == NameAt(wire, offset)
  {
    hide DecodeName, Resumed, LeadsTo;
    var visited := new nat[MAX_POINTER_DEPTH];
    var visitedCount: nat := 0;
    var result: Octets := [];
    var current: nat := offset;
    var end: nat := offset;
    var indirections: nat := 0;
    var jumped := false;
    ghost var labels: seq<Octets> := [];
    ghost var whole := DecodeName(wire, offset, MAX_POINTER_DEPTH);
    ResumedFromStart(whole, end);
    LeadsFromNothing(wire, offset);
    assert visited[..0] == [];

    while true
      invariant visitedCount == indirections <= MAX_POINTER_DEPTH
      invariant whole == Resumed(labels, DecodeName(wire, current, MAX_POINTER_DEPTH - indirections), jumped, end)
      invariant result == Dotted(labels) && NonEmptyLabels(labels)
      invariant LeadsTo(wire, visited[..visitedCount], current)
      decreases MAX_POINTER_DEPTH - indirections, |wire| - current
    {
      ghost var jumps := MAX_POINTER_DEPTH - indirections;
      if current >= |wire| {
        NothingDecodes(wire, current, jumps, labels, jumped, end);
        return Err(PARSE);
      }
      var length := wire[current];

      if IsPointer(length) {
        if current + 2 > |wire| || indirections >= MAX_POINTER_DEPTH {
          NothingDecodes(wire, current, jumps, labels, jumped, end);
          return Err(PARSE);
        }
        var target := PointerTarget(wire, current);
        var repeated, i := FindVisited(visited, visitedCount, target);
        if repeated {
          RepeatedTarget(wire, visited[..visitedCount], current, i, jumps, labels, jumped, end);
          return Err(PARSE);
        }
        ResumedAtPointer(wire, current, jumps, labels, jumped, end);
        LeadsOn(wire, visited[..visitedCount], current);
        indirections := indirections + 1;
        visited[visitedCount] := target;
        visitedCount := visitedCount + 1;
        assert visited[..visitedCount] == visited[..visitedCount - 1] + [target];
        if !jumped {
          end := current + 2;
          jumped := true;
        }
        current := target;
      } else if length == 0 {
        ResumedAtRoot(wire, current, jumps, labels, jumped, end);
        if !jumped { end := current + 1; }
        return Ok((result, end));
      } else {
        if length > MAX_LABEL_LENGTH || current + 1 + length > |wire| {
          NothingDecodes(wire, current, jumps, labels, jumped, end);
          return Err(PARSE);
        }
        ghost var last := wire[current + 1..current + 1 + length];
        ResumedAtLabel(wire, current, jumps, labels, jumped, end);
        LeadsPastLabel(wire, visited[..visitedCount], current);
        DottedGrows(labels, last);
        if result != [] { result := result + [DOT]; }
        result := result + wire[current + 1..current + 1 + length];
        labels := labels + [last];
        current := current + 1 + length;
      }
    }
  }

  // ------------------------------------------------------------------ skipping

  /** The response check's own walker: the offset past the name, or 0 when it runs off the end. */
  function SkippedName(msg: Octets, offset: nat): nat
    decreases |msg| - offset
  {
    if offset >= |msg| then 0
    else if msg[offset] == 0 then offset + 1
    else if IsPointer(msg[offset]) then offset + 2
    else SkippedName(msg, offset + 1 + msg[offset])
  }

  /** `skip_name`. */
  method SkipName(msg: Octets, start: nat) returns (end: nat)
    ensures end == SkippedName(msg, start)
  {
    var offset := start;
    while offset < |msg|
      invariant SkippedName(msg, offset) == SkippedName(msg, start)
      decreases |msg| - offset
    {
      var length := msg[offset];
      if length == 0 { return offset + 1; }
      if IsPointer(length) { return offset + 2; }
      offset := offset + 1 + length;
    }
    return 0;
  }

  /** Whenever a name decodes, the walker finds the same end, names ending in a pointer included. */
  lemma {:induction false} SkipAgreesWithDecode(msg: Octets, offset: nat, jumps: nat)
    requires DecodeName(msg, offset, jumps).Some?
    ensures SkippedName(msg, offset) == DecodeName(msg, offset, jumps).value.end
    decreases |msg| - offset
  {
    if !IsPointer(msg[offset]) && msg[offset] != 0 {
      SkipAgreesWithDecode(msg, offset + 1 + msg[offset], jumps);
    }
  }

  /** A name that decodes at all is read by the parser iff it follows at most seven pointers. */
  lemma ReadsUpToSevenPointers(wire: Octets, pos: nat, jumps: nat)
    requires DecodeName(wire, pos, jumps).Some?
    ensures NameAt(wire, pos).Ok? <==> PointersFollowed(wire, pos, jumps) <= 7
  {
    hide DecodeName, PointersFollowed;
    if jumps <= 7 { DecodesWithin(wire, pos, jumps, 7); } else { DecodesWithin(wire, pos, 7, jumps); }
  }
}
