/**
 The encoded form of a dotted name, and exactly when decoding gives the name back.

 `EncodedName` is what `WireWriter::encode_name` appends (section 3.1 of RFC 1035); the method
 itself is in module Builder.
 */
module NameEncoding {
  import opened Results
  import opened Bytes
  import opened Names

  /** The first dot at or after `from`, or the length of the name: `std::string_view::find`. */
  function DotIndex(name: Octets, from: nat): (d: nat)
    requires from <= |name|
    ensures from <= d <= |name| && (d < |name| ==> name[d] == DOT)
    ensures forall k :: from <= k < d ==> name[k] != DOT
    decreases |name| - from
  {
    if from == |name| || name[from] == DOT then from else DotIndex(name, from + 1)
  }

  /** The part of a name from `pos`, nothing past its end. */
  function Rest(name: Octets, pos: nat): Octets {
    if pos < |name| then name[pos..] else []
  }

  /** The pieces between dots; a trailing dot opens no further piece. */
  function Pieces(name: Octets): seq<Octets>
    decreases |name|
  {
    if name == [] then []
    else
      var d := DotIndex(name, 0);
      [name[..d]] + Pieces(Rest(name, d + 1))
  }

  predicate IsRoot(name: Octets) {
    name == [] || name == [DOT]
  }

  /** The labels the encoder writes: none for the root. */
  function LabelsOf(name: Octets): seq<Octets> {
    if IsRoot(name) then [] else Pieces(name)
  }

  /** The name without one trailing dot. */
  function Undotted(name: Octets): Octets {
    if name != [] && name[|name| - 1] == DOT then name[..|name| - 1] else name
  }

  function EncodedSize(name: Octets): nat {
    if IsRoot(name) then 1
    else |name| + (if name[|name| - 1] == DOT then 1 else 2)
  }

  /** The encoder accepts the name: the two limits of section 2.3.4 of RFC 1035. */
  predicate Encodable(name: Octets) {
    EncodedSize(name) <= NAME_MAX_BYTES && ShortLabels(LabelsOf(name))
  }

  /** Length octet, then the label; the cast to one octet is written out. */
  function LabelBytes(l: Octets): Octets {
    [|l| % 0x100] + l
  }

  function EncodedLabels(labels: seq<Octets>): Octets {
    if labels == [] then [] else LabelBytes(labels[0]) + EncodedLabels(labels[1..])
  }

  function EncodedName(name: Octets): Octets {
    EncodedLabels(LabelsOf(name)) + [0]
  }

  predicate NoEmptyLabel(name: Octets) {
    NonEmptyLabels(LabelsOf(name))
  }

  lemma {:induction false} EncodedLabelsConcat(a: seq<Octets>, b: seq<Octets>)
    ensures EncodedLabels(a + b) == EncodedLabels(a) + EncodedLabels(b)
  {
    if a == [] {
      assert a + b == b;
    } else {
      assert (a + b)[1..] == a[1..] + b;
      EncodedLabelsConcat(a[1..], b);
    }
  }

  lemma {:induction false} PiecesLength(name: Octets)
    requires name != []
    ensures |EncodedLabels(Pieces(name))| + 1 == |name| + (if name[|name| - 1] == DOT then 1 else 2)
    decreases |name|
  {
    var d := DotIndex(name, 0);
    var rest := Rest(name, d + 1);
    assert ([name[..d]] + Pieces(rest))[1..] == Pieces(rest);
    if rest != [] { PiecesLength(rest); }
  }

  /** The size computed up front for the 255-octet check is the number of octets written. */
  lemma EncodedSizeIsExact(name: Octets)
    ensures |EncodedName(name)| == EncodedSize(name)
  {
    if !IsRoot(name) { PiecesLength(name); }
  }

  lemma UndottedTail(front: Octets, rest: Octets)
    requires rest != []
    ensures Undotted(front + [DOT] + rest) == front + [DOT] + Undotted(rest)
  {
  }

  lemma {:induction false} PiecesDotted(name: Octets)
    ensures Dotted(Pieces(name)) == Undotted(name)
    decreases |name|
  {
    if name != [] {
      var d := DotIndex(name, 0);
      var front, rest := name[..d], Rest(name, d + 1);
      PiecesDotted(rest);
      assert ([front] + Pieces(rest))[1..] == Pieces(rest);
      if rest != [] {
        assert name == front + [DOT] + rest;
        UndottedTail(front, rest);
      }
    }
  }

  /** The labels of a name, joined by dots, are the name without its trailing dot. */
  lemma LabelsDotted(name: Octets)
    ensures Dotted(LabelsOf(name)) == Undotted(name)
  {
    PiecesDotted(name);
  }

  /** The position of the first empty label, or the number of labels. */
  function FirstEmpty(labels: seq<Octets>): (e: nat)
    ensures e <= |labels| && (e < |labels| ==> labels[e] == [])
    ensures forall i :: 0 <= i < e ==> labels[i] != []
  {
    if labels == [] || labels[0] == [] then 0 else FirstEmpty(labels[1..]) + 1
  }

  lemma WrittenLabel(wire: Octets, at: nat, first: Octets)
    requires |first| <= MAX_LABEL_LENGTH && At(wire, at, LabelBytes(first))
    ensures wire[at] == |first| && at + 1 + |first| <= |wire| && wire[at + 1..at + 1 + |first|] == first
  {
    AtSplit(wire, at, [|first|], first);
    assert wire[at] == wire[at..at + 1][0];
  }

  lemma FirstWrittenLabel(wire: Octets, at: nat, labels: seq<Octets>)
    requires labels != [] && ShortLabels(labels) && NonEmptyLabels(labels)
    requires At(wire, at, EncodedLabels(labels) + [0])
    ensures LabelAt(wire, at) && wire[at + 1..at + 1 + wire[at]] == labels[0] && wire[at] == |labels[0]|
    ensures At(wire, at + 1 + |labels[0]|, EncodedLabels(labels[1..]) + [0])
  {
    var head, rest := LabelBytes(labels[0]), EncodedLabels(labels[1..]) + [0];
    assert EncodedLabels(labels) + [0] == head + rest;
    AtSplit(wire, at, head, rest);
    WrittenLabel(wire, at, labels[0]);
  }

  lemma WrittenRoot(wire: Octets, at: nat)
    requires At(wire, at, EncodedLabels([]) + [0])
    ensures at < |wire| && wire[at] == 0
  {
    assert wire[at] == wire[at..at + 1][0];
  }

  lemma {:induction false} DecodeGoodLabels(wire: Octets, at: nat, labels: seq<Octets>, jumps: nat)
    requires ShortLabels(labels) && NonEmptyLabels(labels) && At(wire, at, EncodedLabels(labels) + [0])
    ensures DecodeName(wire, at, jumps) == Some(Decoded(labels, at + |EncodedLabels(labels)| + 1))
    decreases |labels|
  {
    hide At;
    if labels == [] {
      WrittenRoot(wire, at);
    } else {
      var first, rest := labels[0], labels[1..];
      FirstWrittenLabel(wire, at, labels);
      DecodeGoodLabels(wire, at + 1 + |first|, rest, jumps);
      DecodeAtLabel(wire, at, jumps, first, rest, at + 1 + |first| + |EncodedLabels(rest)| + 1);
      assert labels == [first] + rest;
    }
  }

  lemma EncodedUpToEmpty(labels: seq<Octets>, e: nat) returns (tail: Octets)
    requires e < |labels| && labels[e] == []
    ensures EncodedLabels(labels) + [0] == EncodedLabels(labels[..e]) + [0] + tail
  {
    tail := EncodedLabels(labels[e + 1..]) + [0];
    assert labels == labels[..e] + labels[e..];
    EncodedLabelsConcat(labels[..e], labels[e..]);
    assert labels[e..][1..] == labels[e + 1..];
    assert EncodedLabels(labels[e..]) == [0] + EncodedLabels(labels[e + 1..]);
  }

  /** Decoding encoded labels stops at the first empty one, whose length octet reads as the root. */
  lemma DecodeEncodedLabels(wire: Octets, at: nat, labels: seq<Octets>, jumps: nat)
    requires ShortLabels(labels) && At(wire, at, EncodedLabels(labels) + [0])
    ensures var taken := labels[..FirstEmpty(labels)];
            DecodeName(wire, at, jumps) == Some(Decoded(taken, at + |EncodedLabels(taken)| + 1))
  {
    hide At, EncodedLabels, DecodeName;
    var e := FirstEmpty(labels);
    var taken := labels[..e];
    if e < |labels| {
      var tail := EncodedUpToEmpty(labels, e);
      AtSplit(wire, at, EncodedLabels(taken) + [0], tail);
    } else {
      assert taken == labels;
    }
    DecodeGoodLabels(wire, at, taken, jumps);
  }

  lemma {:induction false} DottedPrefixShorter(labels: seq<Octets>, e: nat)
    requires e < |labels| && (labels[0] != [] || |labels| > 1)
    ensures |Dotted(labels[..e])| < |Dotted(labels)|
  {
    if e > 1 {
      assert labels[..e][1..] == labels[1..][..e - 1];
      assert labels[..e][0] == labels[0];
      DottedPrefixShorter(labels[1..], e - 1);
    }
  }

  lemma OnlyRootHasLoneEmptyPiece(name: Octets)
    requires Pieces(name) == [[]]
    ensures name == [DOT]
  {
    var d := DotIndex(name, 0);
    var rest := Rest(name, d + 1);
    assert Pieces(name)[0] == name[..d] == [];
    assert |[name[..d]] + Pieces(rest)| == 1;
    assert Pieces(rest) == [] && rest == [];
  }

  /** An encoded name always decodes; to the name itself exactly when it has no empty label. */
  lemma NameRoundTrip(wire: Octets, at: nat, name: Octets)
    requires Encodable(name) && At(wire, at, EncodedName(name))
    ensures NameAt(wire, at).Ok?
    ensures NameAt(wire, at).value.0 == Undotted(name) <==> NoEmptyLabel(name)
    ensures NoEmptyLabel(name) ==> NameAt(wire, at).value.1 == at + |EncodedName(name)|
  {
    var labels := LabelsOf(name);
    var e := FirstEmpty(labels);
    DecodeEncodedLabels(wire, at, labels, MAX_POINTER_DEPTH);
    LabelsDotted(name);
    if e == |labels| {
      assert labels[..e] == labels;
    } else {
      if labels == [[]] { OnlyRootHasLoneEmptyPiece(name); }
      DottedPrefixShorter(labels, e);
    }
  }

  /** The encoder accepts exactly the names whose written form has at most 255 octets, and each label at most 63. */
  lemma EncodableExactly(name: Octets)
    ensures Encodable(name) <==>
      |EncodedName(name)| <= 255 && forall i :: 0 <= i < |LabelsOf(name)| ==> |LabelsOf(name)[i]| <= 63
  {
    hide EncodedName, LabelsOf, EncodedSize;
    EncodedSizeIsExact(name);
  }
}
