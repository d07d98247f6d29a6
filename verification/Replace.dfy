/**
 Substitution in a string: the in-place branch, the rebuilding branch and the pair list all compute
 leftmost non-overlapping replacement of every match.
 */
module Replace {
  import opened Results
  import opened Bytes
  import opened Text

  // ------------------------------------------------------------------ reference definition

  /** Replace from the left, never looking again at what has been replaced. */
  function Replaced(s: Octets, target: Octets, replacement: Octets): Octets
    requires target != []
  {
    if s == [] then []
    else if MatchesAt(s, target, 0) then replacement + Replaced(s[|target|..], target, replacement)
    else [s[0]] + Replaced(s[1..], target, replacement)
  }

  /** An empty target leaves the string alone. */
  function AllReplaced(s: Octets, target: Octets, replacement: Octets): Octets {
    if target == [] then s else Replaced(s, target, replacement)
  }

  datatype Pair = Pair(target: Octets, replacement: Octets)

  /** One target after the other, each on the result of the one before. */
  function ReplacedInTurn(s: Octets, pairs: seq<Pair>): Octets
    decreases |pairs|
  {
    if pairs == [] then s
    else ReplacedInTurn(AllReplaced(s, pairs[0].target, pairs[0].replacement), pairs[1..])
  }

  /** Skipping to the next match. */
  lemma {:induction false} ReplacedFrom(s: Octets, target: Octets, replacement: Octets, from: nat)
    requires target != [] && from <= |s|
    ensures match Find(s, target, from)
            case None => Replaced(s[from..], target, replacement) == s[from..]
            case Some(p) => (
              Replaced(s[from..], target, replacement)
                == s[from..p] + replacement + Replaced(s[p + |target|..], target, replacement))
    decreases |s| - from
  {
    hide Replaced;
    if from == |s| {
      assert s[from..] == [];
      ReplacedEmpty(target, replacement);
    } else if MatchesAt(s, target, from) {
      ReplacedMatch(s, target, replacement, from);
      assert s[from..from] == [];
    } else {
      ReplacedNoMatch(s, target, replacement, from);
      ReplacedFrom(s, target, replacement, from + 1);
      var next := Find(s, target, from + 1);
      if next.Some? {
        SliceHead(s, from, next.value);
        var tail := s[from + 1..next.value];
        Regroup([s[from]], tail, replacement);
        Regroup([s[from]], tail + replacement, Replaced(s[next.value + |target|..], target, replacement));
      } else {
        SliceHead(s, from, |s|);
        assert s[from..|s|] == s[from..] && s[from + 1..|s|] == s[from + 1..];
      }
    }
  }

  lemma SliceHead(s: Octets, from: nat, to: nat)
    requires from < to <= |s|
    ensures s[from..to] == [s[from]] + s[from + 1..to]
  {
  }

  lemma ReplacedEmpty(target: Octets, replacement: Octets)
    requires target != []
    ensures Replaced([], target, replacement) == []
  {
  }

  lemma ReplacedMatch(s: Octets, target: Octets, replacement: Octets, from: nat)
    requires target != [] && from < |s| && MatchesAt(s, target, from)
    ensures Replaced(s[from..], target, replacement) == replacement + Replaced(s[from + |target|..], target, replacement)
  {
    SameMatch(s, target, from);
    assert s[from..][|target|..] == s[from + |target|..];
  }

  lemma ReplacedNoMatch(s: Octets, target: Octets, replacement: Octets, from: nat)
    requires target != [] && from < |s| && !MatchesAt(s, target, from)
    ensures Replaced(s[from..], target, replacement) == [s[from]] + Replaced(s[from + 1..], target, replacement)
  {
    SameMatch(s, target, from);
    assert s[from..][1..] == s[from + 1..];
  }

  lemma SameMatch(s: Octets, target: Octets, from: nat)
    requires from <= |s|
    ensures MatchesAt(s[from..], target, 0) <==> MatchesAt(s, target, from)
  {
    if |target| <= |s| - from { assert s[from..][0..|target|] == s[from..from + |target|]; }
  }

  // ------------------------------------------------------------------ the operations

  lemma FoundInside(s: Octets, target: Octets, from: nat)
    requires Find(s, target, from).Some?
    ensures from <= Find(s, target, from).value && Find(s, target, from).value + |target| <= |s|
  {
  }

  lemma OverwriteOne(s: Octets, target: Octets, replacement: Octets, last: nat, p: nat)
    requires target != [] && last <= p && p + |target| <= |s| && Find(s, target, last) == Some(p)
    ensures var next, last' := s[..p] + replacement + s[p + |target|..], p + |replacement|;
            && |next| - last' < |s| - last
            && s[..last] + Replaced(s[last..], target, replacement)
                 == next[..last'] + Replaced(next[last'..], target, replacement)
  {
    hide Replaced, Find, MatchesAt;
    ReplacedFrom(s, target, replacement, last);
    var head, tail := s[..p] + replacement, s[p + |target|..];
    var next := head + tail;
    assert next[|head|..] == tail && next[..|head|] == head;
    assert s[..p] == s[..last] + s[last..p];
    Regroup(s[..last], s[last..p], replacement);
    Regroup(s[..last], s[last..p] + replacement, Replaced(tail, target, replacement));
  }

  class Buffer {
    var chars: Octets

    constructor (chars: Octets)
      ensures this.chars == chars
    {
      this.chars := chars;
    }

    /** Overwrites matches from the left; the string may change its length. Both branches of the pair list run this loop. */
    method Substitute(target: Octets, replacement: Octets)
      requires target != []
      modifies this
      ensures chars == Replaced(old(chars), target, replacement)
    {
      hide Replaced, Find, MatchesAt;
      var last: nat := 0;
      var p := Find(chars, target, 0);
      assert chars[0..] == chars;
      while p.Some?
        invariant last <= |chars| && p == Find(chars, target, last)
        invariant Replaced(old(chars), target, replacement) == chars[..last] + Replaced(chars[last..], target, replacement)
        decreases |chars| - last, p
      {
        FoundInside(chars, target, last);
        OverwriteOne(chars, target, replacement, last, p.value);
        chars := chars[..p.value] + replacement + chars[p.value + |target|..];
        last := p.value + |replacement|;
        p := Find(chars, target, last);
      }
      ReplacedFrom(chars, target, replacement, last);
      assert chars == chars[..last] + chars[last..];
    }

    /** `replace_all`: overwrites in place when the lengths agree, and builds a new string otherwise. */
    method ReplaceAll(target: Octets, replacement: Octets)
      modifies this
      ensures chars == AllReplaced(old(chars), target, replacement)
    {
      hide Replaced, Find, MatchesAt;
      if target == [] { return; }
      if |target| == |replacement| {
        Substitute(target, replacement);
        return;
      }
      var result: Octets := [];
      var last: nat := 0;
      var p := Find(chars, target, 0);
      assert chars[0..] == chars;
      while p.Some?
        invariant last <= |chars| && chars == old(chars) && p == Find(chars, target, last)
        invariant Replaced(chars, target, replacement) == result + Replaced(chars[last..], target, replacement)
        decreases |chars| - last
      {
        FoundInside(chars, target, last);
        ReplacedFrom(chars, target, replacement, last);
        var kept := chars[last..p.value];
        Regroup(result, kept + replacement, Replaced(chars[p.value + |target|..], target, replacement));
        Regroup(result, kept, replacement);
        result := result + kept;
        result := result + replacement;
        last := p.value + |target|;
        p := Find(chars, target, last);
      }
      ReplacedFrom(chars, target, replacement, last);
      chars := result + chars[last..];
    }

    /** `replace` with a list of pairs. */
    method ReplacePairs(pairs: seq<Pair>)
      modifies this
      ensures chars == ReplacedInTurn(old(chars), pairs)
    {
      var i := 0;
      while i < |pairs|
        invariant i <= |pairs| && ReplacedInTurn(old(chars), pairs) == ReplacedInTurn(chars, pairs[i..])
      {
        assert pairs[i..][0] == pairs[i] && pairs[i..][1..] == pairs[i + 1..];
        var target, replacement := pairs[i].target, pairs[i].replacement;
        if target != [] {
          if Find(chars, target, 0).Some? {
            Substitute(target, replacement);
          } else {
            ReplacedFrom(chars, target, replacement, 0);
            assert chars[0..] == chars;
          }
        }
        i := i + 1;
      }
    }
  }

  // ------------------------------------------------------------------ what replacement means

  /** What stands between the matches. */
  function Parts(s: Octets, target: Octets): (parts: seq<Octets>)
    requires target != []
    ensures parts != []
  {
    if s == [] then [[]]
    else if MatchesAt(s, target, 0) then [[]] + Parts(s[|target|..], target)
    else
      var rest := Parts(s[1..], target);
      [[s[0]] + rest[0]] + rest[1..]
  }

  function Glued(parts: seq<Octets>, glue: Octets): Octets
    requires parts != []
  {
    if |parts| == 1 then parts[0] else parts[0] + glue + Glued(parts[1..], glue)
  }

  lemma GluedHead(b: Byte, parts: seq<Octets>, glue: Octets)
    requires parts != []
    ensures Glued([[b] + parts[0]] + parts[1..], glue) == [b] + Glued(parts, glue)
  {
    var longer := [[b] + parts[0]] + parts[1..];
    assert longer[1..] == parts[1..];
    if |parts| > 1 { assert [b] + parts[0] + glue + Glued(parts[1..], glue) == [b] + (parts[0] + glue + Glued(parts[1..], glue)); }
  }

  lemma GluedEmptyHead(parts: seq<Octets>, glue: Octets)
    requires parts != []
    ensures Glued([[]] + parts, glue) == glue + Glued(parts, glue)
  {
    assert ([[]] + parts)[1..] == parts;
    assert [] + glue + Glued(parts, glue) == glue + Glued(parts, glue);
  }

  lemma {:induction false} GluedIsReplaced(s: Octets, target: Octets, replacement: Octets)
    requires target != []
    ensures Glued(Parts(s, target), replacement) == Replaced(s, target, replacement)
    decreases |s|
  {
    hide Glued, MatchesAt;
    if s == [] {
      GluedOne([], replacement);
    } else if MatchesAt(s, target, 0) {
      MatchFits(s, target);
      GluedIsReplaced(s[|target|..], target, replacement);
      GluedEmptyHead(Parts(s[|target|..], target), replacement);
    } else {
      GluedIsReplaced(s[1..], target, replacement);
      GluedHead(s[0], Parts(s[1..], target), replacement);
    }
  }

  lemma MatchFits(s: Octets, target: Octets)
    requires MatchesAt(s, target, 0)
    ensures |target| <= |s| && s == target + s[|target|..]
  {
  }

  lemma GluedOne(part: Octets, glue: Octets)
    ensures Glued([part], glue) == part
  {
  }

  lemma {:induction false} ReplacedBySame(s: Octets, target: Octets)
    requires target != []
    ensures Replaced(s, target, target) == s
    decreases |s|
  {
    hide MatchesAt;
    if s != [] {
      if MatchesAt(s, target, 0) {
        MatchFits(s, target);
        ReplacedBySame(s[|target|..], target);
      } else {
        ReplacedBySame(s[1..], target);
      }
    }
  }

  function Times(n: int, d: int): int {
    n * d
  }

  lemma OneMore(n: int, d: int)
    ensures Times(n + 1, d) == Times(n, d) + d
    ensures Times(0, d) == 0
  {
  }

  lemma SizesAtMatch(s: Octets, target: Octets, replacement: Octets)
    requires target != [] && s != [] && MatchesAt(s, target, 0)
    ensures |target| <= |s|
    ensures |Replaced(s, target, replacement)| == |replacement| + |Replaced(s[|target|..], target, replacement)|
    ensures |Parts(s, target)| == 1 + |Parts(s[|target|..], target)|
  {
  }

  lemma SizesPastOctet(s: Octets, target: Octets, replacement: Octets)
    requires target != [] && s != [] && !MatchesAt(s, target, 0)
    ensures |Replaced(s, target, replacement)| == 1 + |Replaced(s[1..], target, replacement)|
    ensures |Parts(s, target)| == |Parts(s[1..], target)|
  {
  }

  lemma SizesOfNothing(target: Octets, replacement: Octets)
    requires target != []
    ensures Replaced([], target, replacement) == [] && |Parts([], target)| == 1
  {
  }

  lemma {:induction false} ReplacedLength(s: Octets, target: Octets, replacement: Octets)
    requires target != []
    ensures |Replaced(s, target, replacement)| == |s| + Times(|Parts(s, target)| - 1, |replacement| - |target|)
    decreases |s|
  {
    hide MatchesAt, Times, Replaced, Parts;
    if s == [] {
      SizesOfNothing(target, replacement);
      OneMore(0, |replacement| - |target|);
    } else if MatchesAt(s, target, 0) {
      SizesAtMatch(s, target, replacement);
      ReplacedLength(s[|target|..], target, replacement);
      OneMore(|Parts(s[|target|..], target)| - 1, |replacement| - |target|);
    } else {
      SizesPastOctet(s, target, replacement);
      ReplacedLength(s[1..], target, replacement);
    }
  }

  /**
   Replacement changes the matches and nothing else: the string is its parts glued with the target, and
   the result is the same parts glued with the replacement.
   */
  lemma ReplacementKeepsTheParts(s: Octets, target: Octets, replacement: Octets)
    requires target != []
    ensures Glued(Parts(s, target), target) == s
    ensures Glued(Parts(s, target), replacement) == Replaced(s, target, replacement)
    ensures |Replaced(s, target, replacement)| == |s| + (|Parts(s, target)| - 1) * (|replacement| - |target|)
  {
    hide Glued, Parts, Replaced;
    GluedIsReplaced(s, target, target);
    ReplacedBySame(s, target);
    GluedIsReplaced(s, target, replacement);
    ReplacedLength(s, target, replacement);
  }

  /** What the comment on the pair list promises: only the first match is replaced. */
  function FirstReplaced(s: Octets, target: Octets, replacement: Octets): Octets {
    match Find(s, target, 0)
    case None => s
    case Some(p) => s[..p] + replacement + s[p + |target|..]
  }

  lemma SomethingChanges(s: Octets, target: Octets, replacement: Octets, from: nat)
    requires target != [] && from <= |s| && target != replacement && Find(s, target, from).Some?
    ensures Replaced(s[from..], target, replacement) != s[from..]
  {
    hide Replaced, Parts, Find;
    ReplacedLength(s[from..], target, replacement);
    ReplacedFrom(s, target, replacement, from);
    FoundInside(s, target, from);
    if |target| == |replacement| {
      var p := Find(s, target, from).value;
      MatchIsSlice(s, target, p, from);
      SliceDiffers(s[from..p], replacement, Replaced(s[p + |target|..], target, replacement), s[from..], target);
    } else {
      PartsOfMatch(s, target, from);
      NotZero(|Parts(s[from..], target)| - 1, |replacement| - |target|);
    }
  }

  lemma MatchIsSlice(s: Octets, target: Octets, p: nat, from: nat)
    requires from <= p && Find(s, target, from) == Some(p)
    ensures p - from + |target| <= |s[from..]| && s[from..][p - from..p - from + |target|] == target
  {
    assert s[p..p + |target|] == s[from..][p - from..p - from + |target|];
  }

  lemma SliceDiffers(a: Octets, b: Octets, c: Octets, whole: Octets, slice: Octets)
    requires |a| + |b| <= |whole| && whole[|a|..|a| + |b|] == slice && b != slice
    ensures a + b + c != whole
  {
    assert (a + b + c)[|a|..|a| + |b|] == b;
  }

  lemma NotZero(a: int, b: int)
    requires a > 0 && b != 0
    ensures Times(a, b) != 0
  {
  }

  lemma {:induction false} PartsOfMatch(s: Octets, target: Octets, from: nat)
    requires target != [] && from <= |s| && Find(s, target, from).Some?
    ensures |Parts(s[from..], target)| > 1
    decreases |s| - from
  {
    SameMatch(s, target, from);
    if !MatchesAt(s, target, from) {
      assert s[from..][1..] == s[from + 1..];
      PartsOfMatch(s, target, from + 1);
    }
  }

  lemma SameHead(head: Octets, a: Octets, b: Octets)
    ensures head + a == head + b <==> a == b
  {
    assert (head + a)[|head|..] == a && (head + b)[|head|..] == b;
  }

  lemma RestUnchangedExactly(s: Octets, target: Octets, replacement: Octets, rest: nat)
    requires target != [] && rest <= |s|
    ensures Replaced(s[rest..], target, replacement) == s[rest..] <==>
      target == replacement || Find(s, target, rest).None?
  {
    hide Replaced, Find;
    ReplacedFrom(s, target, replacement, rest);
    if Find(s, target, rest).Some? {
      if target == replacement { ReplacedBySame(s[rest..], target); } else { SomethingChanges(s, target, replacement, rest); }
    }
  }

  /** Replacing all and replacing the first match differ by what happens after that match. */
  lemma AfterFirstMatch(s: Octets, target: Octets, replacement: Octets, p: nat)
    requires target != [] && Find(s, target, 0) == Some(p)
    ensures p + |target| <= |s|
    ensures FirstReplaced(s, target, replacement) == s[..p] + replacement + s[p + |target|..]
    ensures Replaced(s, target, replacement) == s[..p] + replacement + Replaced(s[p + |target|..], target, replacement)
  {
    hide Replaced, Find;
    FoundInside(s, target, 0);
    ReplacedFrom(s, target, replacement, 0);
    assert s[0..] == s && s[0..p] == s[..p];
  }

  lemma FirstMatchAgrees(s: Octets, target: Octets, replacement: Octets, p: nat, first: Octets, all: Octets)
    requires target != [] && Find(s, target, 0) == Some(p)
    requires first == FirstReplaced(s, target, replacement) && all == Replaced(s, target, replacement)
    ensures first == all <==> target == replacement || Find(s, target, p + |target|).None?
  {
    hide *;
    AfterFirstMatch(s, target, replacement, p);
    var head, rest := s[..p] + replacement, s[p + |target|..];
    var done := Replaced(rest, target, replacement);
    assert first == head + rest && all == head + done;
    SameHead(head, rest, done);
    RestUnchangedExactly(s, target, replacement, p + |target|);
  }

  /** The comment and the code agree exactly when there is at most one match to replace, or nothing changes anyway. */
  lemma FirstMatchOnlyExactly(s: Octets, target: Octets, replacement: Octets)
    requires target != []
    ensures FirstReplaced(s, target, replacement) == Replaced(s, target, replacement) <==>
      || target == replacement || Find(s, target, 0).None?
      || Find(s, target, Find(s, target, 0).value + |target|).None?
  {
    hide Replaced, MatchesAt;
    var first, all := FirstReplaced(s, target, replacement), Replaced(s, target, replacement);
    if Find(s, target, 0).None? {
      ReplacedFrom(s, target, replacement, 0);
      assert s[0..] == s;
    } else {
      FirstMatchAgrees(s, target, replacement, Find(s, target, 0).value, first, all);
    }
  }

  /** The smallest case in which the comment fails: replacing `a` by `b` in `aa`. */
  lemma BothMatchesAreReplaced(aa: Octets, a: Octets, b: Octets)
    requires aa == [97, 97] && a == [97] && b == [98]
    ensures Replaced(aa, a, b) == [98, 98] && FirstReplaced(aa, a, b) == [98, 97]
  {
    assert MatchesAt(aa, a, 0) && aa[1..] == a && MatchesAt(a, a, 0) && a[1..] == [];
    assert Replaced(a, a, b) == b + Replaced([], a, b) == b;
    assert Find(aa, a, 0) == Some(0);
  }

  // ------------------------------------------------------------------ the pair list and its comment

  function FirstReplacedOrSame(s: Octets, target: Octets, replacement: Octets): Octets {
    if target == [] then s else FirstReplaced(s, target, replacement)
  }

  /** The list as its comment has it: each target replaced once, on the result of the entries before it. */
  function FirstReplacedInTurn(s: Octets, pairs: seq<Pair>): Octets
    decreases |pairs|
  {
    if pairs == [] then s
    else FirstReplacedInTurn(FirstReplacedOrSame(s, pairs[0].target, pairs[0].replacement), pairs[1..])
  }

  /** At most one match is left to replace, or there is nothing to change. */
  predicate AtMostOneMatch(s: Octets, p: Pair) {
    || p.target == [] || p.target == p.replacement || Find(s, p.target, 0).None?
    || Find(s, p.target, Find(s, p.target, 0).value + |p.target|).None?
  }

  /** Every entry, on the string the comment's reading hands to it, replaces all it can by replacing once. */
  predicate EachOnce(s: Octets, pairs: seq<Pair>)
    decreases |pairs|
  {
    pairs != [] ==>
      && AtMostOneMatch(s, pairs[0])
      && EachOnce(FirstReplacedOrSame(s, pairs[0].target, pairs[0].replacement), pairs[1..])
  }

  /** The strings the entries of the list leave behind, by the comment's reading or by the code's. */
  function Trace(s: Octets, pairs: seq<Pair>, all: bool): seq<Octets>
    decreases |pairs|
  {
    if pairs == [] then [s]
    else
      var p := pairs[0];
      var next := if all then AllReplaced(s, p.target, p.replacement) else FirstReplacedOrSame(s, p.target, p.replacement);
      [s] + Trace(next, pairs[1..], all)
  }

  lemma TraceStarts(s: Octets, pairs: seq<Pair>, all: bool)
    ensures Trace(s, pairs, all) != [] && Trace(s, pairs, all)[0] == s
  {
  }

  lemma OneEntryExactly(s: Octets, p: Pair)
    ensures FirstReplacedOrSame(s, p.target, p.replacement) == AllReplaced(s, p.target, p.replacement) <==> AtMostOneMatch(s, p)
  {
    hide Replaced, FirstReplaced, Find;
    if p.target != [] { FirstMatchOnlyExactly(s, p.target, p.replacement); }
  }

  /**
   The pair list keeps its comment, entry by entry, exactly when every entry meets at most one match of its
   target, or has nothing to change.
   */
  lemma {:induction false} PairListExactly(s: Octets, pairs: seq<Pair>)
    ensures Trace(s, pairs, true) == Trace(s, pairs, false) <==> EachOnce(s, pairs)
    ensures EachOnce(s, pairs) ==> ReplacedInTurn(s, pairs) == FirstReplacedInTurn(s, pairs)
    decreases |pairs|
  {
    hide AllReplaced, FirstReplacedOrSame, AtMostOneMatch;
    if pairs != [] {
      var p := pairs[0];
      var first := FirstReplacedOrSame(s, p.target, p.replacement);
      var all := AllReplaced(s, p.target, p.replacement);
      OneEntryExactly(s, p);
      PairListExactly(first, pairs[1..]);
      TraceStarts(first, pairs[1..], false);
      TraceStarts(all, pairs[1..], true);
      assert Trace(s, pairs, false)[1..] == Trace(first, pairs[1..], false);
      assert Trace(s, pairs, true)[1..] == Trace(all, pairs[1..], true);
    }
  }
}
