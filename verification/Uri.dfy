/**
 URIs: percent-encoding (section 2.1 of RFC 3986), the query string, and the parser that slices it out.
 Strings are octets; `isInet6` stands for the test whether a string is an IPv6 address.
 */
module Uri {
  import opened Results
  import opened Bytes
  import opened Text

  const HASH: Byte := 35
  const PERCENT: Byte := 37
  const AMPERSAND: Byte := 38
  const PLUS: Byte := 43
  const DASH: Byte := 45
  const DOT: Byte := 46
  const SLASH: Byte := 47
  const COLON: Byte := 58
  const EQUALS: Byte := 61
  const QUESTION: Byte := 63
  const BRACKET: Byte := 91
  const BRACKET_END: Byte := 93
  const UNDERSCORE: Byte := 95
  const TILDE: Byte := 126
  const SPACE: Byte := 32
  const SCHEME_END: Octets := [COLON, SLASH, SLASH]

  predicate IsAlnum(b: Byte) {
    48 <= b <= 57 || 65 <= b <= 90 || 97 <= b <= 122
  }

  predicate IsUnreserved(b: Byte) {
    IsAlnum(b) || b == DASH || b == DOT || b == UNDERSCORE || b == TILDE
  }

  function HexDigit(n: nat): Byte
    requires n < 16
  {
    if n < 10 then 48 + n else 55 + n
  }

  /** Digits of either case. */
  function HexValue(b: Byte): (v: Option<nat>)
    ensures v.Some? ==> v.value < 16
  {
    if 48 <= b <= 57 then Some(b - 48)
    else if 65 <= b <= 70 then Some(b - 55)
    else if 97 <= b <= 102 then Some(b - 87)
    else None
  }

  // ------------------------------------------------------------------ percent-encoding

  function EncodedByte(b: Byte, encodeSlash: bool): Octets {
    if IsUnreserved(b) || (b == SLASH && !encodeSlash) then [b]
    else [PERCENT, HexDigit(b / 16), HexDigit(b % 16)]
  }

  function Encoded(s: Octets, encodeSlash: bool): Octets {
    if s == [] then [] else EncodedByte(s[0], encodeSlash) + Encoded(s[1..], encodeSlash)
  }

  /**
   `from_chars` in base 16 on two characters: it fails only if the first is no digit, and it takes a
   single digit if the second is none; the decoder skips both all the same.
   */
  function PairValue(a: Byte, b: Byte): Byte
    requires HexValue(a).Some?
  {
    if HexValue(b).Some? then HexValue(a).value * 16 + HexValue(b).value else HexValue(a).value
  }

  predicate StartsTriplet(s: Octets) {
    |s| > 2 && s[0] == PERCENT && HexValue(s[1]).Some?
  }

  function Decoded(s: Octets): Octets {
    if s == [] then []
    else if StartsTriplet(s) then [PairValue(s[1], s[2])] + Decoded(s[3..])
    else [s[0]] + Decoded(s[1..])
  }

  lemma EncodeStep(input: Octets, i: nat, encodeSlash: bool, result: Octets)
    requires i < |input|
    ensures result + Encoded(input[i..], encodeSlash)
         == result + EncodedByte(input[i], encodeSlash) + Encoded(input[i + 1..], encodeSlash)
  {
    assert input[i..][1..] == input[i + 1..];
  }

  lemma EncodeEmpty(encodeSlash: bool)
    ensures Encoded([], encodeSlash) == []
  {
  }

  lemma ThreeAppends(s: Octets, a: Byte, b: Byte, c: Byte)
    ensures s + [a] + [b] + [c] == s + [a, b, c]
  {
  }

  method UrlEncode(input: Octets, encodeSlash: bool) returns (result: Octets)
    ensures result == Encoded(input, encodeSlash)
  {
    hide Encoded;
    result := [];
    assert input[0..] == input;
    for i := 0 to |input|
      invariant Encoded(input, encodeSlash) == result + Encoded(input[i..], encodeSlash)
    {
      var c := input[i];
      EncodeStep(input, i, encodeSlash, result);
      if IsAlnum(c) || c == DASH || c == DOT || c == UNDERSCORE || c == TILDE {
        result := result + [c];
      } else if c == SLASH && !encodeSlash {
        result := result + [c];
      } else {
        ThreeAppends(result, PERCENT, HexDigit(c / 16), HexDigit(c % 16));
        result := result + [PERCENT];
        result := result + [HexDigit(c / 16)];
        result := result + [HexDigit(c % 16)];
      }
    }
    EncodeEmpty(encodeSlash);
    assert input[|input|..] == [] && result + [] == result;
  }

  lemma DecodeTriplet(input: Octets, i: nat, result: Octets)
    requires i + 2 < |input| && input[i] == PERCENT && HexValue(input[i + 1]).Some?
    ensures result + Decoded(input[i..]) == result + [PairValue(input[i + 1], input[i + 2])] + Decoded(input[i + 3..])
  {
    assert input[i..][1] == input[i + 1] && input[i..][2] == input[i + 2] && input[i..][3..] == input[i + 3..];
  }

  lemma DecodeVerbatim(input: Octets, i: nat, result: Octets)
    requires i < |input| && (i + 2 < |input| && input[i] == PERCENT ==> HexValue(input[i + 1]).None?)
    ensures result + Decoded(input[i..]) == result + [input[i]] + Decoded(input[i + 1..])
  {
    assert input[i..][1..] == input[i + 1..];
    if i + 1 < |input| { assert input[i..][1] == input[i + 1]; }
  }

  method UrlDecode(input: Octets) returns (result: Octets)
    ensures result == Decoded(input)
  {
    hide Decoded, HexValue, PairValue;
    result := [];
    var i := 0;
    assert input[0..] == input;
    while i < |input|
      invariant i <= |input| && Decoded(input) == result + Decoded(input[i..])
    {
      var c := input[i];
      if c == PERCENT && i + 2 < |input| {
        if HexValue(input[i + 1]).Some? {
          DecodeTriplet(input, i, result);
          result := result + [PairValue(input[i + 1], input[i + 2])];
          i := i + 2;
        } else {
          DecodeVerbatim(input, i, result);
          result := result + [c];
        }
      } else {
        DecodeVerbatim(input, i, result);
        result := result + [c];
      }
      i := i + 1;
    }
    DecodeEmpty();
    assert input[|input|..] == [] && result + [] == result;
  }

  lemma DecodeOne(b: Byte, encodeSlash: bool, rest: Octets)
    ensures Decoded(EncodedByte(b, encodeSlash) + rest) == [b] + Decoded(rest)
  {
    var s := EncodedByte(b, encodeSlash) + rest;
    if |EncodedByte(b, encodeSlash)| == 1 {
      assert s[1..] == rest && !StartsTriplet(s);
    } else {
      assert s[3..] == rest && StartsTriplet(s) && PairValue(s[1], s[2]) == b;
    }
  }

  /** Decoding undoes encoding, with either slash mode and for every octet string. */
  lemma {:induction false} DecodeEncoded(s: Octets, encodeSlash: bool)
    ensures Decoded(Encoded(s, encodeSlash)) == s
  {
    hide EncodedByte, Decoded;
    if s == [] {
      DecodeEmpty();
    } else {
      DecodeOne(s[0], encodeSlash, Encoded(s[1..], encodeSlash));
      DecodeEncoded(s[1..], encodeSlash);
      assert s == [s[0]] + s[1..];
    }
  }

  lemma DecodeEmpty()
    ensures Decoded([]) == []
  {
  }

  const HEX_CHARS: Octets := [48, 49, 50, 51, 52, 53, 54, 55, 56, 57, 65, 66, 67, 68, 69, 70]

  /** The unreserved characters of section 2.3 of RFC 3986, by number. */
  predicate PassesThrough(b: Byte) {
    48 <= b <= 57 || 65 <= b <= 90 || 97 <= b <= 122 || b in [45, 46, 95, 126]
  }

  /** An unreserved octet passes through, a slash does if asked, and any other becomes a triplet with upper-case digits. */
  lemma OctetsEncodeAs(b: Byte, encodeSlash: bool)
    ensures PassesThrough(b) || (b == 47 && !encodeSlash) ==> Encoded([b], encodeSlash) == [b]
    ensures !PassesThrough(b) && (b == 47 ==> encodeSlash) ==>
      Encoded([b], encodeSlash) == [37, HEX_CHARS[b / 16], HEX_CHARS[b % 16]]
  {
    assert Encoded([b], encodeSlash) == EncodedByte(b, encodeSlash) + [];
  }

  /** Encoding goes octet by octet. */
  lemma {:induction false} EncodedTogether(a: Octets, b: Octets, encodeSlash: bool)
    ensures Encoded(a + b, encodeSlash) == Encoded(a, encodeSlash) + Encoded(b, encodeSlash)
  {
    hide EncodedByte;
    if a == [] {
      assert a + b == b;
    } else {
      assert (a + b)[0] == a[0] && (a + b)[1..] == a[1..] + b;
      EncodedTogether(a[1..], b, encodeSlash);
    }
  }

  // ------------------------------------------------------------------ the decoder as documented

  /** A percent sign and two hex digits. */
  predicate StartsFullTriplet(s: Octets) {
    StartsTriplet(s) && HexValue(s[2]).Some?
  }

  /** What the documentation promises: full triplets are decoded, and malformed ones are kept as they are. */
  function Documented(s: Octets): Octets {
    if s == [] then []
    else if StartsFullTriplet(s) then [HexValue(s[1]).value * 16 + HexValue(s[2]).value] + Documented(s[3..])
    else [s[0]] + Documented(s[1..])
  }

  /** A percent sign, a hex digit, and an octet that is none. */
  predicate HalfTripletAt(s: Octets, i: nat) {
    i + 2 < |s| && s[i] == PERCENT && HexValue(s[i + 1]).Some? && HexValue(s[i + 2]).None?
  }

  lemma HalfTripletInTail(s: Octets, k: nat)
    requires k <= |s| && forall i: nat :: i < k ==> !HalfTripletAt(s, i)
    ensures (exists i :: HalfTripletAt(s, i)) <==> exists i :: HalfTripletAt(s[k..], i)
  {
    if i: nat :| HalfTripletAt(s, i) { assert HalfTripletAt(s[k..], i - k); }
    if i: nat :| HalfTripletAt(s[k..], i) { assert HalfTripletAt(s, k + i); }
  }

  /**
   The decoder keeps its documented behaviour exactly on the strings in which no percent sign is followed
   by a single hex digit: there it decodes the one digit and drops the octet after it.
   */
  lemma {:induction false} KeptExactly(s: Octets)
    ensures Decoded(s) == Documented(s) <==> !exists i :: HalfTripletAt(s, i)
    decreases |s|
  {
    if s == [] {
    } else if StartsFullTriplet(s) {
      HalfTripletInTail(s, 3);
      KeptExactly(s[3..]);
      assert Decoded(s)[1..] == Decoded(s[3..]) && Documented(s)[1..] == Documented(s[3..]);
    } else if StartsTriplet(s) {
      assert HalfTripletAt(s, 0);
      assert Decoded(s)[0] == HexValue(s[1]).value && Documented(s)[0] == PERCENT;
    } else {
      HalfTripletInTail(s, 1);
      KeptExactly(s[1..]);
      assert Decoded(s)[1..] == Decoded(s[1..]) && Documented(s)[1..] == Documented(s[1..]);
    }
  }

  /** For example `%4G` becomes the single octet 4. */
  lemma HalfTripletIsDecoded()
    ensures var s: Octets := [PERCENT, 52, 71]; Decoded(s) == [4] && Documented(s) == s
  {
    var s: Octets := [PERCENT, 52, 71];
    assert s[3..] == [] && s[1..] == [52, 71] && [52, 71][1..] == [71] && [71][1..] == [];
    assert Documented([71]) == [71] && Documented([52, 71]) == [52, 71];
  }

  /** The octets of encoder output: none of them separates anything. */
  predicate Plain(s: Octets) {
    forall i :: 0 <= i < |s| ==> IsUnreserved(s[i]) || s[i] == PERCENT
  }

  lemma {:induction false} EncodedIsPlain(s: Octets)
    ensures Plain(Encoded(s, true))
  {
    if s != [] { EncodedIsPlain(s[1..]); }
  }

  // ------------------------------------------------------------------ query strings

  datatype Param = Param(key: Octets, value: Octets)

  function Entry(p: Param): Octets {
    Encoded(p.key, true) + [EQUALS] + Encoded(p.value, true)
  }

  function Canonical(params: seq<Param>): Octets {
    if params == [] then []
    else Entry(params[0]) + AfterEntry(params[1..])
  }

  function AfterEntry(rest: seq<Param>): Octets {
    if rest == [] then [] else [AMPERSAND] + Entry(rest[0]) + AfterEntry(rest[1..])
  }

  lemma EntryAppended(result: Octets, p: Param)
    ensures result + Encoded(p.key, true) + [EQUALS] + Encoded(p.value, true) == result + Entry(p)
  {
  }

  lemma CanonicalStep(params: seq<Param>, i: nat, result: Octets)
    requires i < |params|
    ensures result + AfterEntry(params[i..]) == result + [AMPERSAND] + Entry(params[i]) + AfterEntry(params[i + 1..])
  {
    hide Entry;
    assert params[i..][1..] == params[i + 1..];
  }

  /** `build_canonical_query`. */
  method BuildCanonicalQuery(params: seq<Param>) returns (result: Octets)
    ensures result == Canonical(params)
  {
    hide Encoded, Entry, AfterEntry;
    result := [];
    var first := true;
    for i := 0 to |params|
      invariant first <==> i == 0
      invariant i == 0 ==> result == []
      invariant i > 0 ==> Canonical(params) == result + AfterEntry(params[i..])
    {
      if first {
        assert [] + Entry(params[0]) == Entry(params[0]);
      } else {
        CanonicalStep(params, i, result);
        result := result + [AMPERSAND];
      }
      EntryAppended(result, params[i]);
      var key := UrlEncode(params[i].key, true);
      result := result + key;
      result := result + [EQUALS];
      var value := UrlEncode(params[i].value, true);
      result := result + value;
      first := false;
    }
    AfterLast();
    if params != [] { assert params[|params|..] == [] && result + [] == result; }
  }

  lemma AfterLast()
    ensures AfterEntry([]) == []
  {
  }

  function PlusToSpace(s: Octets): (r: Octets)
    ensures |r| == |s|
  {
    seq(|s|, i requires 0 <= i < |s| => if s[i] == PLUS then SPACE else s[i])
  }

  function DecodedPart(s: Octets, plusToSpace: bool): Octets {
    if plusToSpace then PlusToSpace(Decoded(s)) else Decoded(s)
  }

  function ParamOf(segment: Octets, plusToSpace: bool): Param {
    match Find(segment, [EQUALS], 0)
    case None => Param(DecodedPart(segment, plusToSpace), DecodedPart([], plusToSpace))
    case Some(p) => Param(DecodedPart(segment[..p], plusToSpace), DecodedPart(segment[p + 1..], plusToSpace))
  }

  /** Empty segments are skipped. */
  function Segment(segment: Octets, plusToSpace: bool): seq<Param> {
    if segment == [] then [] else [ParamOf(segment, plusToSpace)]
  }

  function QueryParams(qs: Octets, plusToSpace: bool): seq<Param> {
    match Find(qs, [AMPERSAND], 0)
    case None => Segment(qs, plusToSpace)
    case Some(end) => Segment(qs[..end], plusToSpace) + QueryParams(qs[end + 1..], plusToSpace)
  }

  /** The lambda `decode_query`. */
  method DecodeQuery(s: Octets, plusToSpace: bool) returns (decoded: Octets)
    ensures decoded == DecodedPart(s, plusToSpace)
  {
    decoded := UrlDecode(s);
    if plusToSpace {
      for i := 0 to |decoded|
        invariant |decoded| == |Decoded(s)|
        invariant forall j :: 0 <= j < i ==> decoded[j] == PlusToSpace(Decoded(s))[j]
        invariant forall j :: i <= j < |decoded| ==> decoded[j] == Decoded(s)[j]
      {
        if decoded[i] == PLUS { decoded := decoded[i := SPACE]; }
      }
    }
  }

  lemma FindInTail(s: Octets, target: Octets, from: nat)
    requires from <= |s|
    ensures Find(s[from..], target, 0)
         == match Find(s, target, from) case None => None case Some(p) => Some(p - from)
  {
    forall q: nat ensures MatchesAt(s[from..], target, q) <==> MatchesAt(s, target, from + q) {
      if from + q + |target| <= |s| { assert s[from..][q..q + |target|] == s[from + q..from + q + |target|]; }
    }
    var tail := Find(s[from..], target, 0);
    if tail.Some? { assert MatchesAt(s, target, from + tail.value); }
    if Find(s, target, from).Some? {
      var p := Find(s, target, from).value;
      assert MatchesAt(s[from..], target, p - from);
    }
  }

  lemma QuerySplit(qs: Octets, start: nat, end: nat, plusToSpace: bool)
    requires start <= |qs| && Find(qs, [AMPERSAND], start) == Some(end)
    ensures start <= end < |qs|
    ensures QueryParams(qs[start..], plusToSpace) == Segment(qs[start..end], plusToSpace) + QueryParams(qs[end + 1..], plusToSpace)
  {
    hide Segment, MatchesAt;
    FindInTail(qs, [AMPERSAND], start);
    FoundAt(qs, [AMPERSAND], start);
    assert qs[start..][..end - start] == qs[start..end];
    assert qs[start..][end - start + 1..] == qs[end + 1..];
  }

  lemma QueryStep(qs: Octets, start: nat, plusToSpace: bool, params: seq<Param>)
    requires start <= |qs|
    ensures match Find(qs, [AMPERSAND], start)
            case None => QueryParams(qs[start..], plusToSpace) == Segment(qs[start..], plusToSpace)
            case Some(end) => (
              && start <= end < |qs|
              && params + QueryParams(qs[start..], plusToSpace)
                   == params + Segment(qs[start..end], plusToSpace) + QueryParams(qs[end + 1..], plusToSpace))
  {
    hide Segment, MatchesAt;
    FindInTail(qs, [AMPERSAND], start);
    var end := Find(qs, [AMPERSAND], start);
    if end.Some? {
      hide QueryParams, Find;
      QuerySplit(qs, start, end.value, plusToSpace);
      RegroupParams(params, Segment(qs[start..end.value], plusToSpace), QueryParams(qs[end.value + 1..], plusToSpace));
    }
  }

  lemma RegroupParams(a: seq<Param>, b: seq<Param>, c: seq<Param>)
    ensures a + b + c == a + (b + c)
  {
  }

  /** `get_query_params`, on the view of the query slice. */
  method GetQueryParams(qs: Octets, plusToSpace: bool) returns (params: seq<Param>)
    ensures params == QueryParams(qs, plusToSpace)
  {
    hide DecodedPart, QueryParams, Find, MatchesAt;
    params := [];
    NoParams(plusToSpace);
    if qs == [] { return; }
    var start := 0;
    assert qs[0..] == qs;
    while start < |qs|
      invariant start <= |qs|
      invariant QueryParams(qs, plusToSpace) == params + QueryParams(qs[start..], plusToSpace)
      decreases |qs| - start
    {
      QueryStep(qs, start, plusToSpace, params);
      var end := Find(qs, [AMPERSAND], start);
      var segment := if end.None? then qs[start..] else qs[start..end.value];
      if segment != [] {
        FoundAt(segment, [EQUALS], 0);
        var eq := Find(segment, [EQUALS], 0);
        var keyView, valueView: Octets := segment, [];
        if eq.Some? { keyView, valueView := segment[..eq.value], segment[eq.value + 1..]; }
        var key := DecodeQuery(keyView, plusToSpace);
        var value := DecodeQuery(valueView, plusToSpace);
        params := params + [Param(key, value)];
      } else {
        assert params + [] == params;
      }
      if end.None? { return; }
      start := end.value + 1;
    }
    assert qs[|qs|..] == [] && params + [] == params;
  }

  lemma NoParams(plusToSpace: bool)
    ensures QueryParams([], plusToSpace) == []
  {
  }

  lemma FoundAt(s: Octets, target: Octets, from: nat)
    ensures Find(s, target, from).Some? ==> from <= Find(s, target, from).value && Find(s, target, from).value + |target| <= |s|
  {
  }

  // ------------------------------------------------------------------ the parser

  /** A range of the raw string. */
  datatype Slice = Slice(pos: nat, len: nat)

  const NOTHING: Slice := Slice(0, 0)

  datatype Uri = Uri(raw: Octets, schema: Slice, body: Slice, host: Slice, isIpv6: bool, path: Slice, query: Slice)

  datatype UriError = UnclosedBracket

  function View(raw: Octets, slice: Slice): Octets
    requires slice.pos + slice.len <= |raw|
  {
    raw[slice.pos..slice.pos + slice.len]
  }

  function LowerCase(b: Byte): Byte {
    if 65 <= b <= 90 then b + 32 else b
  }

  function Lowered(s: Octets, range: Slice): (r: Octets)
    ensures |r| == |s|
    ensures forall i :: 0 <= i < |s| && !(range.pos <= i < range.pos + range.len) ==> r[i] == s[i]
  {
    seq(|s|, i requires 0 <= i < |s| => if range.pos <= i < range.pos + range.len then LowerCase(s[i]) else s[i])
  }

  /** The host in the authority, which starts at `offset`; what follows it (a port) is not kept here. */
  function ParseAuthority(authority: Octets, offset: nat, isInet6: Octets -> bool): (r: Result<(Slice, bool), UriError>)
    ensures r.Ok? && authority != [] ==> offset <= r.value.0.pos && r.value.0.pos + r.value.0.len <= offset + |authority|
  {
    if authority == [] then Ok((NOTHING, false))
    else if authority[0] == BRACKET then
      match Find(authority, [BRACKET_END], 0)
      case None => Err(UnclosedBracket)
      case Some(closing) => Ok((Slice(offset + 1, closing - 1), true))
    else if Find(authority, [COLON], 0).Some? && isInet6(authority) then Ok((Slice(offset, |authority|), true))
    else
      match RightmostColon(authority, |authority|)
      case Some(colon) => Ok((Slice(offset, colon), false))
      case None => Ok((Slice(offset, |authority|), false))
  }

  function RightmostColon(s: Octets, end: nat): (r: Option<nat>)
    requires end <= |s|
    ensures r.Some? ==> r.value < end
  {
    if end == 0 then None else if s[end - 1] == COLON then Some(end - 1) else RightmostColon(s, end - 1)
  }

  function OrEnd(p: Option<nat>, end: nat): nat {
    if p.Some? && p.value < end then p.value else end
  }

  /** What stands before the fragment. */
  function WithoutFragment(uri: Octets): Octets {
    match Find(uri, [HASH], 0) case None => uri case Some(p) => uri[..p]
  }

  /** Where the authority starts, if there is a scheme. */
  function SchemeEnd(u: Octets): Option<nat> {
    match Find(u, SCHEME_END, 0)
    case Some(p) => if p > 0 then Some(p) else None
    case None => None
  }

  function AuthorityStart(u: Octets): nat {
    if SchemeEnd(u).Some? then SchemeEnd(u).value + 3 else 0
  }

  /** `Uri::parse`; throws on an unclosed bracket. */
  function Parse(uri: Octets, isInet6: Octets -> bool): Result<Uri, UriError> {
    if uri == [] then Ok(Uri([], NOTHING, NOTHING, NOTHING, false, NOTHING, NOTHING))
    else
      var u := WithoutFragment(uri);
      var scheme := SchemeEnd(u);
      var start := AuthorityStart(u);
      var schema := if scheme.Some? then Slice(0, scheme.value) else NOTHING;
      var body := Slice(start, |u| - start);
      if scheme.None? && u != [] && (u[0] == SLASH || u[0] == DOT) then
        Ok(Uri(uri, schema, body, NOTHING, false, Slice(0, |u|), NOTHING))
      else
        var query := Find(u, [QUESTION], start);
        var path := Find(u, [SLASH], start);
        var end := OrEnd(query, OrEnd(path, |u|));
        var (host, isIpv6) :- ParseAuthority(u[start..end], start, isInet6);
        Ok(Uri(Lowered(Lowered(uri, schema), host), schema, body, host, isIpv6,
               if path.Some? && path.value == end then Slice(path.value, OrEnd(query, |u|) - path.value) else NOTHING,
               if query.Some? then Slice(query.value + 1, |u| - query.value - 1) else NOTHING))
  }
}
