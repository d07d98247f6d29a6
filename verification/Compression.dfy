/**
 Names as they stand on the wire, octet by octet: labels followed by a compression pointer (section
 4.1.4 of RFC 1035), and what the skipping walker makes of any blocks of octets.
 */
module Compression {
  import opened Results
  import opened Bytes
  import opened Names
  import opened NameEncoding

  // ------------------------------------------------------------------ compressed names

  /** The octets of a pointer: two bits set, then the offset in fourteen. */
  function PointerBytes(target: nat): Octets
    requires target < 0x4000
  {
    U16Bytes(0xC000 + target)
  }

  lemma PointerReads(wire: Octets, at: nat, target: nat, jumps: nat)
    requires target < 0x4000 && At(wire, at, PointerBytes(target))
    ensures DecodeName(wire, at, 0).None?
    ensures DecodeName(wire, at, jumps + 1)
         == match DecodeName(wire, target, jumps)
            case None => None
            case Some(d) => Some(Decoded(d.labels, at + 2))
  {
    var w := wire[at..at + 2];
    assert w[0] == wire[at] && w[1] == wire[at + 1];
    assert wire[at] == 0xC0 + target / 0x100 && wire[at + 1] == target % 0x100;
  }

  lemma LabelThen(wire: Octets, at: nat, part: Octets, jumps: nat)
    requires 0 < |part| <= MAX_LABEL_LENGTH && At(wire, at, LabelBytes(part))
    ensures DecodeName(wire, at, jumps)
         == match DecodeName(wire, at + 1 + |part|, jumps)
            case None => None
            case Some(d) => Some(Decoded([part] + d.labels, d.end))
  {
    var bytes := wire[at..at + 1 + |part|];
    assert bytes[0] == wire[at] && bytes[1..] == part;
    assert bytes[1..] == wire[at + 1..at + 1 + |part|];
  }

  /**
   Labels followed by a pointer decode as the labels followed by what stands at the pointer's target, for
   one jump of the budget, and end after the two octets of the pointer; they fail exactly when the target
   does, or when no jump is left.
   */
  lemma {:induction false} CompressedNameReads(wire: Octets, at: nat, labels: seq<Octets>, target: nat, jumps: nat)
    requires target < 0x4000 && ShortLabels(labels) && NonEmptyLabels(labels)
    requires At(wire, at, EncodedLabels(labels) + PointerBytes(target))
    ensures DecodeName(wire, at, 0).None?
    ensures DecodeName(wire, at, jumps + 1)
         == match DecodeName(wire, target, jumps)
            case None => None
            case Some(d) => Some(Decoded(labels + d.labels, at + |EncodedLabels(labels)| + 2))
    decreases |labels|
  {
    hide At, DecodeName, PointerBytes, LabelBytes;
    var found := DecodeName(wire, target, jumps);
    if labels == [] {
      assert EncodedLabels(labels) + PointerBytes(target) == PointerBytes(target);
      PointerReads(wire, at, target, jumps);
      if found.Some? { assert labels + found.value.labels == found.value.labels; }
    } else {
      var first, rest := labels[0], labels[1..];
      Regroup(LabelBytes(first), EncodedLabels(rest), PointerBytes(target));
      AtSplit(wire, at, LabelBytes(first), EncodedLabels(rest) + PointerBytes(target));
      LabelSize(first);
      CompressedNameReads(wire, at + 1 + |first|, rest, target, jumps);
      LabelThen(wire, at, first, jumps + 1);
      LabelThen(wire, at, first, 0);
      if found.Some? { assert labels + found.value.labels == [first] + (rest + found.value.labels); }
    }
  }

  lemma LabelSize(l: Octets)
    ensures |LabelBytes(l)| == 1 + |l|
  {
  }

  /** A pointer to an encoded name reads as that name iff it has no empty label, and ends after the pointer. */
  lemma PointerToName(wire: Octets, at: nat, target: nat, name: Octets)
    requires target < 0x4000 && At(wire, at, PointerBytes(target))
    requires Encodable(name) && At(wire, target, EncodedName(name))
    ensures NameAt(wire, at).Ok? && NameAt(wire, at).value.1 == at + 2
    ensures NameAt(wire, at).value.0 == Undotted(name) <==> NoEmptyLabel(name)
  {
    hide Encodable, PointerBytes, At, EncodedName, DecodeName, NoEmptyLabel;
    NameRoundTrip(wire, target, name);
    EncodedNameNeedsNoJump(wire, target, name);
    PointerReads(wire, at, target, MAX_POINTER_DEPTH - 1);
  }

  lemma EncodedNameNeedsNoJump(wire: Octets, at: nat, name: Octets)
    requires Encodable(name) && At(wire, at, EncodedName(name))
    ensures DecodeName(wire, at, MAX_POINTER_DEPTH - 1) == DecodeName(wire, at, MAX_POINTER_DEPTH)
  {
    hide At;
    DecodeEncodedLabels(wire, at, LabelsOf(name), MAX_POINTER_DEPTH - 1);
    DecodeEncodedLabels(wire, at, LabelsOf(name), MAX_POINTER_DEPTH);
  }

  /** Labels in front of a pointer to an encoded name: the labels and the name, joined by dots. */
  lemma SuffixedName(wire: Octets, at: nat, labels: seq<Octets>, target: nat, name: Octets)
    requires target < 0x4000 && ShortLabels(labels) && NonEmptyLabels(labels) && labels != []
    requires At(wire, at, EncodedLabels(labels) + PointerBytes(target))
    requires Encodable(name) && NoEmptyLabel(name) && !IsRoot(name) && At(wire, target, EncodedName(name))
    ensures NameAt(wire, at) == Ok((Dotted(labels) + [DOT] + Undotted(name), at + |EncodedLabels(labels)| + 2))
  {
    hide At, PointerBytes, EncodedLabels;
    GoodName(wire, target, name);
    CompressedNameReads(wire, at, labels, target, MAX_POINTER_DEPTH - 1);
    LabelsDotted(name);
    NotRoot(name);
    DottedTogether(labels, LabelsOf(name));
  }

  lemma GoodName(wire: Octets, at: nat, name: Octets)
    requires Encodable(name) && NoEmptyLabel(name) && At(wire, at, EncodedName(name))
    ensures DecodeName(wire, at, MAX_POINTER_DEPTH - 1).Some?
    ensures DecodeName(wire, at, MAX_POINTER_DEPTH - 1).value.labels == LabelsOf(name)
  {
    hide At;
    DecodeEncodedLabels(wire, at, LabelsOf(name), MAX_POINTER_DEPTH - 1);
    NoneEmpty(LabelsOf(name));
    assert LabelsOf(name)[..|LabelsOf(name)|] == LabelsOf(name);
  }

  lemma {:induction false} NoneEmpty(labels: seq<Octets>)
    requires NonEmptyLabels(labels)
    ensures FirstEmpty(labels) == |labels|
  {
    if labels != [] { NoneEmpty(labels[1..]); }
  }

  lemma NotRoot(name: Octets)
    requires !IsRoot(name)
    ensures LabelsOf(name) != []
  {
  }

  lemma {:induction false} DottedTogether(a: seq<Octets>, b: seq<Octets>)
    requires a != [] && b != []
    ensures Dotted(a + b) == Dotted(a) + [DOT] + Dotted(b)
  {
    if |a| == 1 {
      assert (a + b)[1..] == b;
    } else {
      assert (a + b)[1..] == a[1..] + b;
      DottedTogether(a[1..], b);
      Regroup(a[0] + [DOT], Dotted(a[1..]), [DOT]);
      Regroup(a[0] + [DOT], Dotted(a[1..]) + [DOT], Dotted(b));
    }
  }

  // ------------------------------------------------------------------ the skipping walker

  /** Blocks the walker steps over, each behind its length; it does not know the limit of 63. */
  predicate Blocks(blocks: seq<Octets>) {
    forall i :: 0 <= i < |blocks| ==> 0 < |blocks[i]| < 0xC0
  }

  lemma SkipsOne(msg: Octets, at: nat, block: Octets)
    requires 0 < |block| < 0xC0 && At(msg, at, LabelBytes(block))
    ensures SkippedName(msg, at) == SkippedName(msg, at + 1 + |block|)
  {
    var bytes := msg[at..at + 1 + |block|];
    assert bytes[0] == msg[at];
  }

  /**
   Over blocks of 1 to 191 octets the walker goes on to a zero and ends behind it, or to an octet with the
   two top bits set and ends two further, complete or not; at the end of the message it fails.
   */
  lemma {:induction false} SkipsBlocks(msg: Octets, at: nat, blocks: seq<Octets>)
    requires Blocks(blocks) && At(msg, at, EncodedLabels(blocks))
    ensures var end := at + |EncodedLabels(blocks)|;
            SkippedName(msg, at) ==
              if end >= |msg| then 0
              else if msg[end] == 0 then end + 1
              else if msg[end] >= 0xC0 then end + 2
              else SkippedName(msg, end + 1 + msg[end])
    decreases |blocks|
  {
    hide At, LabelBytes;
    if blocks != [] {
      hide SkippedName;
      var first, rest := blocks[0], blocks[1..];
      AtSplit(msg, at, LabelBytes(first), EncodedLabels(rest));
      LabelSize(first);
      SkipsOne(msg, at, first);
      SkipsBlocks(msg, at + 1 + |first|, rest);
    }
  }

  /** A block that reaches the end of the message, or past it, makes the walker fail. */
  lemma SkipRunsOff(msg: Octets, at: nat)
    requires at < |msg| && 0 < msg[at] < 0xC0 && at + 1 + msg[at] >= |msg|
    ensures SkippedName(msg, at) == 0
  {
  }
}
