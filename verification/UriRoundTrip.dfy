/**
 The query-string round trip: what `build_canonical_query` prints after a `?`, the parser slices out and
 `get_query_params` reads back.
 */
module UriRoundTrip {
  import opened Results
  import opened Bytes
  import opened Text
  import opened Uri

  // ------------------------------------------------------------------ finding one octet

  lemma MatchesByte(s: Octets, b: Byte, p: nat)
    ensures MatchesAt(s, [b], p) <==> p < |s| && s[p] == b
  {
  }

  lemma FindByteIs(s: Octets, b: Byte, from: nat, p: nat)
    requires from <= p < |s| && s[p] == b && forall q :: from <= q < p ==> s[q] != b
    ensures Find(s, [b], from) == Some(p)
  {
    MatchesByte(s, b, p);
    var found := Find(s, [b], from);
    if found.Some? { MatchesByte(s, b, found.value); }
  }

  lemma FindByteNone(s: Octets, b: Byte, from: nat)
    requires forall q :: from <= q < |s| ==> s[q] != b
    ensures Find(s, [b], from) == None
  {
    var found := Find(s, [b], from);
    if found.Some? { MatchesByte(s, b, found.value); }
  }

  lemma FindByteMeans(s: Octets, b: Byte, from: nat)
    ensures Find(s, [b], from).None? ==> forall q :: from <= q < |s| ==> s[q] != b
    ensures Find(s, [b], from).Some? ==>
      var p := Find(s, [b], from).value;
      from <= p < |s| && s[p] == b && forall q :: from <= q < p ==> s[q] != b
  {
    forall q: nat ensures MatchesAt(s, [b], q) <==> q < |s| && s[q] == b { MatchesByte(s, b, q); }
  }

  // ------------------------------------------------------------------ printing and reading back

  predicate Avoids(s: Octets, b: Byte) {
    forall i :: 0 <= i < |s| ==> s[i] != b
  }

  lemma EncodedAvoids(s: Octets, b: Byte)
    requires !IsUnreserved(b) && b != PERCENT
    ensures Avoids(Encoded(s, true), b)
  {
    hide Encoded;
    EncodedIsPlain(s);
  }

  lemma EntryAvoids(p: Param, b: Byte)
    requires !IsUnreserved(b) && b != PERCENT && b != EQUALS
    ensures Avoids(Entry(p), b)
  {
    hide Encoded;
    EncodedAvoids(p.key, b);
    EncodedAvoids(p.value, b);
  }

  lemma {:induction false} AfterEntryAvoids(params: seq<Param>, b: Byte)
    requires !IsUnreserved(b) && b != PERCENT && b != EQUALS && b != AMPERSAND
    ensures Avoids(AfterEntry(params), b)
  {
    hide Entry;
    if params != [] {
      EntryAvoids(params[0], b);
      AfterEntryAvoids(params[1..], b);
    }
  }

  lemma CanonicalAvoids(params: seq<Param>, b: Byte)
    requires !IsUnreserved(b) && b != PERCENT && b != EQUALS && b != AMPERSAND
    ensures Avoids(Canonical(params), b)
  {
    hide Entry, AfterEntry;
    if params != [] {
      EntryAvoids(params[0], b);
      AfterEntryAvoids(params[1..], b);
    }
  }

  /** Every plus sign read as a space. */
  function WithSpaces(s: Octets): (r: Octets)
    ensures |r| == |s|
  {
    seq(|s|, i requires 0 <= i < |s| => if s[i] == 43 then 32 else s[i])
  }

  lemma SpacesForPlus(s: Octets)
    ensures PlusToSpace(s) == WithSpaces(s)
  {
  }

  /** A parameter as it comes back. */
  function Returned(p: Param, plusToSpace: bool): Param {
    if plusToSpace then Param(WithSpaces(p.key), WithSpaces(p.value)) else p
  }

  function AllReturned(params: seq<Param>, plusToSpace: bool): seq<Param> {
    if params == [] then [] else [Returned(params[0], plusToSpace)] + AllReturned(params[1..], plusToSpace)
  }

  lemma EntryReadsBack(p: Param, plusToSpace: bool)
    ensures Entry(p) != [] && ParamOf(Entry(p), plusToSpace) == Returned(p, plusToSpace)
  {
    hide Encoded, Decoded, Find, PlusToSpace, WithSpaces;
    SpacesForPlus(p.key);
    SpacesForPlus(p.value);
    var key, value := Encoded(p.key, true), Encoded(p.value, true);
    var s := Entry(p);
    EncodedAvoids(p.key, EQUALS);
    FindByteIs(s, EQUALS, 0, |key|);
    assert s[..|key|] == key && s[|key| + 1..] == value;
    DecodeEncoded(p.key, true);
    DecodeEncoded(p.value, true);
  }

  lemma {:induction false} CanonicalReadsBack(params: seq<Param>, plusToSpace: bool)
    ensures QueryParams(Canonical(params), plusToSpace) == AllReturned(params, plusToSpace)
    decreases |params|
  {
    hide Entry, ParamOf, Returned, Find;
    if params == [] {
      NoParams(plusToSpace);
    } else {
      var entry, rest := Entry(params[0]), params[1..];
      var qs := entry + AfterEntry(rest);
      EntryReadsBack(params[0], plusToSpace);
      EntryAvoids(params[0], AMPERSAND);
      if rest == [] {
        assert qs == entry;
        FindByteNone(qs, AMPERSAND, 0);
      } else {
        CanonicalReadsBack(rest, plusToSpace);
        Regroup([AMPERSAND], Entry(rest[0]), AfterEntry(rest[1..]));
        assert AfterEntry(rest) == [AMPERSAND] + Canonical(rest);
        FindByteIs(qs, AMPERSAND, 0, |entry|);
        assert qs[..|entry|] == entry && qs[|entry| + 1..] == Canonical(rest);
      }
    }
  }

  predicate NoPlus(params: seq<Param>) {
    forall i :: 0 <= i < |params| ==> Avoids(params[i].key, PLUS) && Avoids(params[i].value, PLUS)
  }

  lemma PlusKept(s: Octets)
    ensures WithSpaces(s) == s <==> Avoids(s, PLUS)
  {
    if WithSpaces(s) == s {
      forall i | 0 <= i < |s| ensures s[i] != PLUS { assert WithSpaces(s)[i] == s[i]; }
    }
  }

  lemma {:induction false} AllReturnedSame(params: seq<Param>, plusToSpace: bool)
    ensures AllReturned(params, plusToSpace) == params <==> !plusToSpace || NoPlus(params)
    decreases |params|
  {
    hide WithSpaces, Avoids;
    if params != [] {
      var rest := params[1..];
      AllReturnedSame(rest, plusToSpace);
      PlusKept(params[0].key);
      PlusKept(params[0].value);
      assert params == [params[0]] + rest;
      assert forall i :: 0 <= i < |rest| ==> rest[i] == params[i + 1];
      var back := AllReturned(params, plusToSpace);
      assert back[0] == Returned(params[0], plusToSpace) && back[1..] == AllReturned(rest, plusToSpace);
      if NoPlus(rest) && Avoids(params[0].key, PLUS) && Avoids(params[0].value, PLUS) {
        forall i | 0 <= i < |params| ensures Avoids(params[i].key, PLUS) && Avoids(params[i].value, PLUS) {
          if i > 0 { assert params[i] == rest[i - 1]; }
        }
      }
    }
  }

  /**
   Reading back what was printed: always exact without the mapping of `+`, and with it exact just if no
   `+` occurs, since it is mapped after decoding.
   */
  lemma QueryRoundTrip(params: seq<Param>, plusToSpace: bool)
    ensures QueryParams(Canonical(params), plusToSpace) == params <==> !plusToSpace || NoPlus(params)
  {
    hide Canonical, QueryParams, AllReturned, NoPlus;
    CanonicalReadsBack(params, plusToSpace);
    AllReturnedSame(params, plusToSpace);
  }

  // ------------------------------------------------------------------ through the parser

  /** A URI with a scheme, and without a query or a fragment. */
  predicate Base(base: Octets) {
    SchemeEnd(base).Some? && Avoids(base, QUESTION) && Avoids(base, HASH)
  }

  function WithQuery(base: Octets, query: Octets): Octets {
    base + [QUESTION] + query
  }

  lemma SchemeStays(base: Octets, query: Octets)
    requires SchemeEnd(base).Some?
    ensures SchemeEnd(WithQuery(base, query)) == SchemeEnd(base) && AuthorityStart(base) <= |base|
  {
    var u, p := WithQuery(base, query), Find(base, SCHEME_END, 0).value;
    forall q: nat | q <= p ensures MatchesAt(u, SCHEME_END, q) <==> MatchesAt(base, SCHEME_END, q) {
      assert u[q..q + 3] == base[q..q + 3];
    }
  }

  lemma PrefixStays(base: Octets, query: Octets, b: Byte, from: nat)
    requires from <= |base| && b != QUESTION
    ensures OrEnd(Find(WithQuery(base, query), [b], from), |base|) == OrEnd(Find(base, [b], from), |base|)
  {
    hide Find, MatchesAt;
    var u := WithQuery(base, query);
    FindByteMeans(base, b, from);
    FindByteMeans(u, b, from);
    assert forall i :: 0 <= i < |base| ==> u[i] == base[i];
    var p := Find(base, [b], from);
    if p.Some? { FindByteIs(u, b, from, p.value); }
  }

  lemma QueryMark(base: Octets, query: Octets, from: nat)
    requires from <= |base| && Avoids(base, QUESTION)
    ensures Find(WithQuery(base, query), [QUESTION], from) == Some(|base|)
  {
    FindByteIs(WithQuery(base, query), QUESTION, from, |base|);
  }

  lemma NoFragment(s: Octets)
    requires Avoids(s, HASH)
    ensures WithoutFragment(s) == s
  {
    FindByteNone(s, HASH, 0);
  }

  /** Where the authority of a base ends. */
  function AuthorityEnd(base: Octets): nat {
    OrEnd(Find(base, [SLASH], AuthorityStart(base)), |base|)
  }

  lemma AuthorityInside(base: Octets)
    requires SchemeEnd(base).Some?
    ensures AuthorityStart(base) <= AuthorityEnd(base) <= |base|
  {
    SchemeStays(base, []);
    FoundAt(base, [SLASH], AuthorityStart(base));
  }

  /** What the parts of a base and of the base with a query have in common. */
  ghost predicate ParsedLike(base: Octets, r: Result<Uri, UriError>, authority: Result<(Slice, bool), UriError>) {
    SchemeEnd(base).Some? && r.Ok? == authority.Ok? &&
    (r.Ok? ==>
      && r.value.schema == Slice(0, SchemeEnd(base).value)
      && (r.value.host, r.value.isIpv6) == authority.value
      && r.value.path == (if AuthorityEnd(base) < |base| then Slice(AuthorityEnd(base), |base| - AuthorityEnd(base)) else NOTHING))
  }

  function BaseAuthority(base: Octets, isInet6: Octets -> bool): Result<(Slice, bool), UriError>
    requires AuthorityStart(base) <= AuthorityEnd(base) <= |base|
  {
    ParseAuthority(base[AuthorityStart(base)..AuthorityEnd(base)], AuthorityStart(base), isInet6)
  }

  lemma BaseParses(base: Octets, isInet6: Octets -> bool)
    requires Base(base) && AuthorityStart(base) <= AuthorityEnd(base) <= |base|
    ensures ParsedLike(base, Parse(base, isInet6), BaseAuthority(base, isInet6))
  {
    NoFragment(base);
    SchemeStays(base, []);
    FindByteNone(base, QUESTION, AuthorityStart(base));
    FindByteMeans(base, SLASH, AuthorityStart(base));
    hide Find, MatchesAt, ParseAuthority, WithoutFragment;
  }

  lemma AuthorityEndsAlike(base: Octets, query: Octets)
    requires Base(base)
    ensures AuthorityStart(base) <= |base|
    ensures var u, start := WithQuery(base, query), AuthorityStart(base);
            var path := Find(u, [SLASH], start);
            && Find(u, [QUESTION], start) == Some(|base|)
            && OrEnd(Some(|base|), OrEnd(path, |u|)) == AuthorityEnd(base)
            && (path.Some? && path.value == AuthorityEnd(base) <==> AuthorityEnd(base) < |base|)
  {
    SchemeStays(base, query);
    QueryMark(base, query, AuthorityStart(base));
    PrefixStays(base, query, SLASH, AuthorityStart(base));
    FindByteMeans(base, SLASH, AuthorityStart(base));
    FindByteMeans(WithQuery(base, query), SLASH, AuthorityStart(base));
    hide Find, MatchesAt;
  }

  /** A fragment is absent, or starts with a hash sign. */
  predicate Fragment(fragment: Octets) {
    fragment == [] || fragment[0] == HASH
  }

  lemma FragmentCut(u: Octets, fragment: Octets)
    requires Avoids(u, HASH) && Fragment(fragment)
    ensures WithoutFragment(u + fragment) == u
  {
    if fragment == [] {
      assert u + fragment == u;
      FindByteNone(u, HASH, 0);
    } else {
      FindByteIs(u + fragment, HASH, 0, |u|);
      assert (u + fragment)[..|u|] == u;
    }
  }

  lemma ParsesLikeBase(base: Octets, query: Octets, fragment: Octets, isInet6: Octets -> bool)
    requires Base(base) && Avoids(query, HASH) && Fragment(fragment)
    requires AuthorityStart(base) <= AuthorityEnd(base) <= |base|
    ensures var uri := WithQuery(base, query) + fragment;
            var r := Parse(uri, isInet6);
            && ParsedLike(base, r, BaseAuthority(base, isInet6))
            && (r.Ok? ==> r.value.query == Slice(|base| + 1, |query|)
                          && r.value.body == Slice(AuthorityStart(base), |base| + 1 + |query| - AuthorityStart(base))
                          && r.value.raw == Lowered(Lowered(uri, r.value.schema), r.value.host))
  {
    hide Find, MatchesAt, ParseAuthority, WithoutFragment, SchemeEnd, AuthorityEnd, Lowered, OrEnd, Fragment;
    var u := WithQuery(base, query);
    FragmentCut(u, fragment);
    SchemeStays(base, query);
    AuthorityEndsAlike(base, query);
    assert u[AuthorityStart(base)..AuthorityEnd(base)] == base[AuthorityStart(base)..AuthorityEnd(base)];
    EndsInside(base, query);
  }

  lemma EndsInside(base: Octets, query: Octets)
    ensures OrEnd(Some(|base|), |WithQuery(base, query)|) == |base|
  {
  }

  /** Lower-casing the scheme and the host leaves the query alone. */
  lemma QueryViewKept(base: Octets, query: Octets, fragment: Octets, schema: Slice, host: Slice)
    requires schema.pos + schema.len <= |base| && host.pos + host.len <= |base|
    ensures View(Lowered(Lowered(WithQuery(base, query) + fragment, schema), host), Slice(|base| + 1, |query|)) == query
  {
    var u := WithQuery(base, query) + fragment;
    var raw := Lowered(Lowered(u, schema), host);
    forall i | 0 <= i < |query| ensures raw[|base| + 1 + i] == query[i] {
      assert u[|base| + 1 + i] == query[i];
    }
  }

  lemma HostInside(base: Octets, isInet6: Octets -> bool)
    requires AuthorityStart(base) <= AuthorityEnd(base) <= |base| && BaseAuthority(base, isInet6).Ok?
    ensures var host := BaseAuthority(base, isInet6).value.0; host.pos + host.len <= |base|
  {
    hide Find;
  }

  /** A parsed URI keeps the parts of its base. */
  predicate SameParts(r: Uri, b: Uri) {
    r.schema == b.schema && r.host == b.host && r.isIpv6 == b.isIpv6 && r.path == b.path
  }

  /** The URI's query slice is inside the raw string and shows the given octets. */
  predicate ShowsQuery(r: Uri, query: Octets) {
    r.query.pos + r.query.len <= |r.raw| && View(r.raw, r.query) == query
  }

  /**
   A base with a query, and possibly a fragment, parses iff the base does, into the same scheme, host and
   path, and its query slice shows the query.
   */
  lemma WithQueryParses(base: Octets, query: Octets, fragment: Octets, isInet6: Octets -> bool)
    requires Base(base) && Avoids(query, HASH) && Fragment(fragment)
    ensures var r, b := Parse(WithQuery(base, query) + fragment, isInet6), Parse(base, isInet6);
            && (r.Ok? <==> b.Ok?)
            && (r.Ok? ==> SameParts(r.value, b.value) && ShowsQuery(r.value, query))
  {
    hide Parse, Lowered, BaseAuthority, AuthorityEnd, AuthorityStart, SchemeEnd, View, Fragment;
    AuthorityInside(base);
    BaseParses(base, isInet6);
    ParsesLikeBase(base, query, fragment, isInet6);
    var r := Parse(WithQuery(base, query) + fragment, isInet6);
    if r.Ok? {
      HostInside(base, isInet6);
      SchemeInside(base);
      QueryViewKept(base, query, fragment, r.value.schema, r.value.host);
      LoweredKeepsSize(WithQuery(base, query) + fragment, r.value.schema, r.value.host);
    }
  }

  /**
   For every list of parameters, every base with a scheme and no query or fragment, and any fragment:
   with the printed query the URI parses iff the base does, into the same scheme, host and path, and its
   query reads back as the list, exactly when no `+` is mapped.
   */
  lemma UriRoundTrip(base: Octets, params: seq<Param>, fragment: Octets, isInet6: Octets -> bool, plusToSpace: bool)
    requires Base(base) && Fragment(fragment)
    ensures var r, b := Parse(WithQuery(base, Canonical(params)) + fragment, isInet6), Parse(base, isInet6);
            && (r.Ok? <==> b.Ok?)
            && (r.Ok? ==> SameParts(r.value, b.value) && ShowsQuery(r.value, Canonical(params)))
    ensures QueryParams(Canonical(params), plusToSpace) == params <==> !plusToSpace || NoPlus(params)
  {
    hide Parse, Canonical, QueryParams, NoPlus, Base, Fragment, SameParts, ShowsQuery;
    CanonicalAvoids(params, HASH);
    WithQueryParses(base, Canonical(params), fragment, isInet6);
    QueryRoundTrip(params, plusToSpace);
  }

  lemma LoweredKeepsSize(s: Octets, a: Slice, b: Slice)
    ensures |Lowered(Lowered(s, a), b)| == |s|
  {
  }

  lemma SchemeInside(base: Octets)
    requires SchemeEnd(base).Some?
    ensures SchemeEnd(base).value <= |base|
  {
  }

  // ------------------------------------------------------------------ a URI from its parts

  /** The letters A to Z become a to z. */
  function AllLower(s: Octets): Octets {
    seq(|s|, i requires 0 <= i < |s| => if 65 <= s[i] <= 90 then s[i] + 32 else s[i])
  }

  /** The forms of an authority: a name, a name and a port, an address in brackets and what follows, a bare IPv6 address. */
  datatype Authority =
    | Named(host: Octets)
    | WithPort(host: Octets, port: Octets)
    | Bracketed(host: Octets, rest: Octets)
    | BareInet6(host: Octets)

  function AuthorityText(a: Authority): Octets {
    match a
    case Named(host) => host
    case WithPort(host, port) => host + [COLON] + port
    case Bracketed(host, rest) => [BRACKET] + host + [BRACKET_END] + rest
    case BareInet6(host) => host
  }

  /** Where the host stands in the authority. */
  function HostOffset(a: Authority): nat {
    if a.Bracketed? then 1 else 0
  }

  predicate IsInet6(a: Authority) {
    a.Bracketed? || a.BareInet6?
  }

  /** An authority in one of the forms reads as that form. */
  predicate WellFormed(a: Authority, isInet6: Octets -> bool) {
    match a
    case Named(host) => host != [] && host[0] != BRACKET && Avoids(host, COLON)
    case WithPort(host, port) =>
      (host != [] ==> host[0] != BRACKET) && Avoids(port, COLON) && !isInet6(AuthorityText(a))
    case Bracketed(host, rest) => Avoids(host, BRACKET_END)
    case BareInet6(host) => host != [] && host[0] != BRACKET && !Avoids(host, COLON) && isInet6(host)
  }

  /** The parts of a URI, none holding a separator that would end it early. */
  predicate Parts(scheme: Octets, authority: Octets, path: Octets) {
    && scheme != [] && Avoids(scheme, COLON) && Avoids(scheme, QUESTION) && Avoids(scheme, HASH)
    && Avoids(authority, SLASH) && Avoids(authority, QUESTION) && Avoids(authority, HASH)
    && (path != [] ==> path[0] == SLASH) && Avoids(path, QUESTION) && Avoids(path, HASH)
  }

  function Composed(scheme: Octets, authority: Octets, path: Octets): Octets {
    scheme + SCHEME_END + authority + path
  }

  lemma ComposedAt(scheme: Octets, authority: Octets, path: Octets)
    ensures var base, start := Composed(scheme, authority, path), |scheme| + 3;
            && |base| == start + |authority| + |path|
            && base[..|scheme|] == scheme && base[|scheme|..start] == SCHEME_END
            && base[start..start + |authority|] == authority && base[start + |authority|..] == path
  {
  }

  lemma ComposedScheme(scheme: Octets, authority: Octets, path: Octets)
    requires Parts(scheme, authority, path)
    ensures SchemeEnd(Composed(scheme, authority, path)) == Some(|scheme|)
  {
    var base := Composed(scheme, authority, path);
    ComposedAt(scheme, authority, path);
    assert MatchesAt(base, SCHEME_END, |scheme|);
    forall q: nat | q < |scheme| ensures !MatchesAt(base, SCHEME_END, q) {
      assert base[q] == base[..|scheme|][q] == scheme[q];
      if q + 3 <= |base| { assert base[q..q + 3][0] == base[q]; }
    }
  }

  lemma ComposedAuthority(scheme: Octets, authority: Octets, path: Octets)
    requires Parts(scheme, authority, path)
    ensures var base, start := Composed(scheme, authority, path), |scheme| + 3;
            AuthorityStart(base) == start && AuthorityEnd(base) == start + |authority|
  {
    hide Find, MatchesAt;
    var base, start := Composed(scheme, authority, path), |scheme| + 3;
    ComposedScheme(scheme, authority, path);
    ComposedAt(scheme, authority, path);
    forall q | start <= q < start + |authority| ensures base[q] != SLASH {
      assert base[q] == base[start..start + |authority|][q - start] == authority[q - start];
    }
    if path == [] {
      FindByteNone(base, SLASH, start);
    } else {
      assert base[start + |authority|] == base[start + |authority|..][0] == path[0];
      FindByteIs(base, SLASH, start, start + |authority|);
    }
  }

  lemma {:induction false} NoColon(s: Octets, end: nat)
    requires Avoids(s, COLON) && end <= |s|
    ensures RightmostColon(s, end) == None
  {
    if end > 0 { NoColon(s, end - 1); }
  }

  lemma {:induction false} LastColon(s: Octets, colon: nat, end: nat)
    requires colon < end <= |s| && s[colon] == COLON && forall i :: colon < i < end ==> s[i] != COLON
    ensures RightmostColon(s, end) == Some(colon)
    decreases end
  {
    if end - 1 != colon { LastColon(s, colon, end - 1); }
  }

  lemma AuthorityReads(a: Authority, offset: nat, isInet6: Octets -> bool)
    requires WellFormed(a, isInet6)
    ensures AuthorityText(a) != []
    ensures ParseAuthority(AuthorityText(a), offset, isInet6) == Ok((Slice(offset + HostOffset(a), |a.host|), IsInet6(a)))
    ensures AuthorityText(a)[HostOffset(a)..HostOffset(a) + |a.host|] == a.host
  {
    var text := AuthorityText(a);
    match a
    case Named(host) =>
      FindByteNone(host, COLON, 0);
      NoColon(host, |host|);
    case WithPort(host, port) =>
      assert text[|host|] == COLON && forall i :: |host| < i < |text| ==> text[i] == port[i - |host| - 1];
      LastColon(text, |host|, |text|);
    case Bracketed(host, rest) =>
      assert text[|host| + 1] == BRACKET_END && forall i :: 0 < i <= |host| ==> text[i] == host[i - 1];
      FindByteIs(text, BRACKET_END, 0, |host| + 1);
    case BareInet6(host) =>
      FindByteMeans(host, COLON, 0);
  }

  lemma ComposedBase(scheme: Octets, authority: Octets, path: Octets)
    requires Parts(scheme, authority, path)
    ensures Base(Composed(scheme, authority, path))
  {
    hide Find, SchemeEnd;
    ComposedScheme(scheme, authority, path);
    AppendAvoids(scheme, SCHEME_END, QUESTION);
    AppendAvoids(scheme + SCHEME_END, authority, QUESTION);
    AppendAvoids(scheme + SCHEME_END + authority, path, QUESTION);
    AppendAvoids(scheme, SCHEME_END, HASH);
    AppendAvoids(scheme + SCHEME_END, authority, HASH);
    AppendAvoids(scheme + SCHEME_END + authority, path, HASH);
  }

  lemma AppendAvoids(a: Octets, b: Octets, x: Byte)
    requires Avoids(a, x) && Avoids(b, x)
    ensures Avoids(a + b, x)
  {
  }

  predicate Apart(a: Slice, b: Slice) {
    a.pos + a.len <= b.pos || b.pos + b.len <= a.pos
  }

  lemma LoweredOnce(s: Octets, range: Slice, i: nat)
    requires i < |s|
    ensures Lowered(s, range)[i]
         == if range.pos <= i < range.pos + range.len && 65 <= s[i] <= 90 then s[i] + 32 else s[i]
  {
  }

  lemma LoweredTwice(uri: Octets, a: Slice, b: Slice, i: nat)
    requires i < |uri|
    ensures var inside := a.pos <= i < a.pos + a.len || b.pos <= i < b.pos + b.len;
            Lowered(Lowered(uri, a), b)[i] == if inside && 65 <= uri[i] <= 90 then uri[i] + 32 else uri[i]
  {
    hide Lowered;
    LoweredOnce(uri, a, i);
    LoweredOnce(Lowered(uri, a), b, i);
  }

  /** A range that is lower-cased shows its letters lowered. */
  lemma LoweredInside(uri: Octets, a: Slice, b: Slice, slice: Slice)
    requires slice.pos + slice.len <= |uri| && (slice == a || slice == b)
    ensures View(Lowered(Lowered(uri, a), b), slice) == AllLower(View(uri, slice))
  {
    hide Lowered;
    var raw := Lowered(Lowered(uri, a), b);
    var seen, before := View(raw, slice), View(uri, slice);
    forall i | 0 <= i < slice.len ensures seen[i] == AllLower(before)[i] {
      LoweredTwice(uri, a, b, slice.pos + i);
      assert seen[i] == raw[slice.pos + i] && before[i] == uri[slice.pos + i];
    }
  }

  /** What is apart from both ranges shows as it was. */
  lemma LoweredOutside(uri: Octets, a: Slice, b: Slice, slice: Slice)
    requires slice.pos + slice.len <= |uri| && Apart(slice, a) && Apart(slice, b)
    ensures View(Lowered(Lowered(uri, a), b), slice) == View(uri, slice)
  {
    hide Lowered;
    var raw := Lowered(Lowered(uri, a), b);
    var seen, before := View(raw, slice), View(uri, slice);
    forall i | 0 <= i < slice.len ensures seen[i] == before[i] {
      LoweredTwice(uri, a, b, slice.pos + i);
      assert seen[i] == raw[slice.pos + i] && before[i] == uri[slice.pos + i];
    }
  }

  lemma LoweredViews(scheme: Octets, authority: Octets, path: Octets, uri: Octets, at: nat, host: Octets)
    requires Composed(scheme, authority, path) <= uri
    requires at + |host| <= |authority| && authority[at..at + |host|] == host
    ensures var schema, place := Slice(0, |scheme|), Slice(|scheme| + 3 + at, |host|);
            var raw := Lowered(Lowered(uri, schema), place);
            && View(raw, schema) == AllLower(scheme) && View(raw, place) == AllLower(host)
            && View(raw, Slice(|scheme| + 3 + |authority|, |path|)) == path
  {
    hide Lowered, Composed;
    var base, start := Composed(scheme, authority, path), |scheme| + 3;
    var schema, place, rest := Slice(0, |scheme|), Slice(start + at, |host|), Slice(start + |authority|, |path|);
    ComposedAt(scheme, authority, path);
    SliceOfSlice(base, start, start + |authority|, at, |host|);
    hide View;
    ViewsOfBase(base, schema, place, rest);
    LoweredInside(uri, schema, place, schema);
    LoweredInside(uri, schema, place, place);
    LoweredOutside(uri, schema, place, rest);
    PrefixView(base, uri, schema);
    PrefixView(base, uri, place);
    PrefixView(base, uri, rest);
  }

  lemma SliceOfSlice(s: Octets, from: nat, to: nat, at: nat, length: nat)
    requires from <= to <= |s| && at + length <= to - from
    ensures s[from + at..from + at + length] == s[from..to][at..at + length]
  {
    var one, two := s[from + at..from + at + length], s[from..to][at..at + length];
    forall i | 0 <= i < length ensures one[i] == two[i] {
      assert s[from..to][at + i] == s[from + at + i];
    }
  }

  lemma ViewsOfBase(base: Octets, a: Slice, b: Slice, c: Slice)
    requires a.pos + a.len <= |base| && b.pos + b.len <= |base| && c.pos + c.len <= |base|
    ensures View(base, a) == base[a.pos..a.pos + a.len]
    ensures View(base, b) == base[b.pos..b.pos + b.len]
    ensures View(base, c) == base[c.pos..c.pos + c.len]
  {
  }

  lemma PrefixView(base: Octets, uri: Octets, slice: Slice)
    requires base <= uri && slice.pos + slice.len <= |base|
    ensures View(uri, slice) == View(base, slice)
  {
  }

  /**
   A URI put together from a scheme, an authority of any form, a path, a query and a fragment parses back
   into them; scheme and host in lower case, everything else untouched.
   */
  lemma PartsParseBack(
      scheme: Octets, a: Authority, path: Octets, query: Octets, fragment: Octets, isInet6: Octets -> bool)
    requires WellFormed(a, isInet6) && Parts(scheme, AuthorityText(a), path)
    requires Avoids(query, HASH) && Fragment(fragment)
    ensures var text := AuthorityText(a);
            var uri := WithQuery(Composed(scheme, text, path), query) + fragment;
            var r := Parse(uri, isInet6);
            && r.Ok? && r.value.isIpv6 == IsInet6(a) && |r.value.raw| == |uri|
            && r.value.schema == Slice(0, |scheme|)
            && r.value.body == Slice(|scheme| + 3, |text| + |path| + 1 + |query|)
            && r.value.host == Slice(|scheme| + 3 + HostOffset(a), |a.host|)
            && r.value.path == (if path == [] then NOTHING else Slice(|scheme| + 3 + |text|, |path|))
            && HostOffset(a) + |a.host| <= |text|
            && View(r.value.raw, r.value.schema) == AllLower(scheme)
            && View(r.value.raw, r.value.host) == AllLower(a.host)
            && View(r.value.raw, r.value.path) == path && ShowsQuery(r.value, query)
  {
    hide Parse, ParseAuthority, Lowered, View, SchemeEnd, AuthorityStart, AuthorityEnd, Composed, Avoids, Fragment, AuthorityText;
    var text := AuthorityText(a);
    var base := Composed(scheme, text, path);
    ComposedBase(scheme, text, path);
    ComposedScheme(scheme, text, path);
    ComposedAuthority(scheme, text, path);
    ComposedAt(scheme, text, path);
    AuthorityReads(a, |scheme| + 3, isInet6);
    HostFits(a);
    ParsesLikeBase(base, query, fragment, isInet6);
    var uri := WithQuery(base, query) + fragment;
    assert base <= uri;
    var schema, place := Slice(0, |scheme|), Slice(|scheme| + 3 + HostOffset(a), |a.host|);
    LoweredViews(scheme, text, path, uri, HostOffset(a), a.host);
    QueryViewKept(base, query, fragment, schema, place);
    LoweredKeepsSize(uri, schema, place);
    if path == [] { NothingToView(Parse(uri, isInet6).value.raw); }
  }

  lemma HostFits(a: Authority)
    ensures HostOffset(a) + |a.host| <= |AuthorityText(a)|
  {
  }

  lemma NothingToView(raw: Octets)
    ensures View(raw, NOTHING) == []
  {
  }

  // ------------------------------------------------------------------ queries not printed by the builder

  /** A segment without an equals sign is a key with an empty value. */
  lemma BareKeyReads(key: Octets)
    requires key != []
    ensures QueryParams(Encoded(key, true), false) == [Param(key, [])]
  {
    hide Encoded, Decoded;
    var text := Encoded(key, true);
    EncodedAvoids(key, AMPERSAND);
    EncodedAvoids(key, EQUALS);
    FindByteNone(text, AMPERSAND, 0);
    FindByteNone(text, EQUALS, 0);
    DecodeEncoded(key, true);
    DecodeEmpty();
    EncodedNotEmpty(key);
  }

  lemma EncodedNotEmpty(key: Octets)
    requires key != []
    ensures Encoded(key, true) != []
  {
  }

  lemma {:induction false} DecodeThen(s: Octets, rest: Octets)
    ensures Decoded(Encoded(s, true) + rest) == s + Decoded(rest)
    decreases |s|
  {
    hide EncodedByte, Decoded;
    if s == [] {
      assert Encoded(s, true) + rest == rest;
    } else {
      var tail := Encoded(s[1..], true);
      Regroup(EncodedByte(s[0], true), tail, rest);
      DecodeOne(s[0], true, tail + rest);
      DecodeThen(s[1..], rest);
      assert s + Decoded(rest) == [s[0]] + (s[1..] + Decoded(rest));
    }
  }

  lemma KeyAndValue(key: Octets, value: Octets)
    requires Avoids(key, 38) && Avoids(key, 61) && Avoids(value, 38)
    ensures QueryParams(key + [61] + value, false) == [Param(Decoded(key), Decoded(value))]
  {
    hide Decoded, Find;
    var text := key + [61] + value;
    FindByteNone(text, 38, 0);
    FindByteIs(text, 61, 0, |key|);
    assert text[..|key|] == key && text[|key| + 1..] == value;
  }

  lemma DecodedValue(a: Octets, b: Octets)
    ensures Decoded(Encoded(a, true) + ([61] + Encoded(b, true))) == a + ([61] + b)
  {
    hide Encoded, Decoded;
    DecodeThen(a, [61] + Encoded(b, true));
    EqualsStays(Encoded(b, true));
    DecodeEncoded(b, true);
  }

  lemma ValueAvoids(a: Octets, b: Octets)
    ensures Avoids(Encoded(a, true) + ([61] + Encoded(b, true)), 38)
  {
    hide Encoded;
    EncodedAvoids(a, 38);
    EncodedAvoids(b, 38);
  }

  /** The first equals sign ends the key; the value may hold more of them. */
  lemma FirstEqualsSplits(key: Octets, a: Octets, b: Octets)
    ensures QueryParams(Encoded(key, true) + [61] + (Encoded(a, true) + ([61] + Encoded(b, true))), false)
         == [Param(key, a + ([61] + b))]
  {
    hide Encoded, Decoded, QueryParams, Avoids;
    EncodedAvoids(key, 38);
    EncodedAvoids(key, 61);
    ValueAvoids(a, b);
    KeyAndValue(Encoded(key, true), Encoded(a, true) + ([61] + Encoded(b, true)));
    DecodedValue(a, b);
    DecodeEncoded(key, true);
  }

  lemma EqualsStays(rest: Octets)
    ensures Decoded([61] + rest) == [61] + Decoded(rest)
  {
    assert ([61] + rest)[1..] == rest;
  }

  /** An ampersand in front of a query, or behind one, or doubled, adds nothing. */
  lemma EmptySegmentsAreSkipped(a: Octets, b: Octets, plusToSpace: bool)
    ensures QueryParams([38] + b, plusToSpace) == QueryParams(b, plusToSpace)
    ensures Avoids(a, 38) ==> QueryParams(a + [38] + b, plusToSpace) == QueryParams(a, plusToSpace) + QueryParams(b, plusToSpace)
  {
    hide ParamOf;
    var front := [38] + b;
    FindByteIs(front, 38, 0, 0);
    assert front[..0] == [] && front[1..] == b;
    if Avoids(a, 38) {
      var both := a + [38] + b;
      FindByteIs(both, 38, 0, |a|);
      FindByteNone(a, 38, 0);
      assert both[..|a|] == a && both[|a| + 1..] == b;
    }
  }

  // ------------------------------------------------------------------ paths

  /** A text that starts with a slash or a dot, and names no scheme, is a path as a whole, up to a fragment. */
  lemma PathsParse(path: Octets, fragment: Octets, isInet6: Octets -> bool)
    requires path != [] && (path[0] == 47 || path[0] == 46) && Avoids(path, COLON) && Avoids(path, HASH) && Fragment(fragment)
    ensures var r := Parse(path + fragment, isInet6);
            && r.Ok? && r.value.raw == path + fragment && r.value.path == Slice(0, |path|)
            && r.value.schema == r.value.host == r.value.query == NOTHING && !r.value.isIpv6
  {
    FragmentCut(path, fragment);
    NoSchemeWithoutColon(path);
  }

  lemma NoSchemeWithoutColon(s: Octets)
    requires Avoids(s, COLON)
    ensures SchemeEnd(s) == None
  {
    forall q: nat ensures !MatchesAt(s, SCHEME_END, q) {
      if q + 3 <= |s| { assert s[q..q + 3][0] == s[q]; }
    }
  }
}
