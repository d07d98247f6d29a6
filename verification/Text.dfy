/** Searching in octet strings, as `std::string_view::find` does. */
module Text {
  import opened Results
  import opened Bytes

  predicate MatchesAt(s: Octets, target: Octets, p: nat) {
    p + |target| <= |s| && s[p..p + |target|] == target
  }

  /** The first match at or after `from`. */
  function Find(s: Octets, target: Octets, from: nat): (r: Option<nat>)
    ensures r.Some? ==> from <= r.value && MatchesAt(s, target, r.value)
    ensures r.Some? ==> forall q :: from <= q < r.value ==> !MatchesAt(s, target, q)
    ensures r.None? ==> forall q :: from <= q ==> !MatchesAt(s, target, q)
    decreases |s| - from
  {
    if from > |s| then None
    else if MatchesAt(s, target, from) then Some(from)
    else Find(s, target, from + 1)
  }
}
