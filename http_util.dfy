/**
 * `utils.HttpUtil`: query-string lookup, append and filter, content-type
 * preference, `Content-Disposition` file names and two header tests.
 *
 * A URL is taken as already parsed into its components (`java.net.URI`);
 * parsing, re-encoding on `toString`, `URLEncoder`/`URLDecoder` and Play's
 * `MediaRange.accepts` are parameters of the operations that use them.
 */
module HttpUtil {
  import opened Common
  import opened Strings

  /** `getFirstValueFromQuery` (lines 41-53): `None` is a null map. */
  function GetFirstValueFromQuery(query: Option<map<string, seq<string>>>, key: string): (r: string)
    ensures query.Some? && key in query.value && |query.value[key]| > 0 ==> r == query.value[key][0]
    ensures query.None? || key !in query.value || query.value[key] == [] ==> r == ""
  {
    if query.None? then ""
    else if key in query.value && |query.value[key]| > 0 then query.value[key][0]
    else ""
  }

  // ---------------------------------------------------------------------------
  // Content-Disposition (section 4 of RFC 2231)

  const DispositionPrefix := "filename*=UTF-8''"

  /** The characters the file name may not carry into the header: `:` `\` `/` `{` `?`. */
  predicate Reserved(c: char) {
    c == ':' || c == '\\' || c == '/' || c == '{' || c == '?'
  }

  /** `replaceAll("[:\\x5c\\/{?]", "_")`: every reserved character becomes `_`. */
  function Sanitize(s: string): (r: string)
    ensures |r| == |s|
    ensures forall i :: 0 <= i < |r| ==> !Reserved(r[i])
    ensures forall i :: 0 <= i < |s| ==> r[i] == (if Reserved(s[i]) then '_' else s[i])
  {
    seq(|s|, i requires 0 <= i < |s| => if Reserved(s[i]) then '_' else s[i])
  }

  /** Two names that differ only in which reserved characters they hold are sanitised alike. */
  lemma SanitizeMergesReserved(a: string, b: string)
    requires |a| == |b|
    requires forall i :: 0 <= i < |a| ==> a[i] == b[i] || (Reserved(a[i]) && Reserved(b[i]))
    ensures Sanitize(a) == Sanitize(b)
  {
    assert forall i :: 0 <= i < |a| ==> Sanitize(a)[i] == Sanitize(b)[i];
  }

  /** Sanitising twice is sanitising once. */
  lemma SanitizeIdempotent(s: string)
    ensures Sanitize(Sanitize(s)) == Sanitize(s)
  {
    assert forall i :: 0 <= i < |s| ==> Sanitize(Sanitize(s))[i] == Sanitize(s)[i];
  }

  /**
   * `encodeContentDisposition` (lines 64-70), with `URLEncoder.encode(_, "UTF-8")`
   * as `urlEncode`: the header value is the RFC 2231 prefix followed by the
   * encoded name with each `+` spelled `%20` (the encoder's spaces), so the
   * encoded part holds no `+`.
   */
  function EncodeContentDisposition(filename: string, urlEncode: string -> string): (r: string)
    ensures StartsWith(r, DispositionPrefix)
    ensures r == DispositionPrefix + PlusAsPercent20(urlEncode(Sanitize(filename)))
    ensures '+' !in r[|DispositionPrefix|..]
    ensures '+' !in urlEncode(Sanitize(filename)) ==> r == DispositionPrefix + urlEncode(Sanitize(filename))
  {
    var encoded := urlEncode(Sanitize(filename));
    PlusReplaced(encoded);
    var r := DispositionPrefix + ReplaceAll(encoded, "+", "%20");
    assert r[|DispositionPrefix|..] == ReplaceAll(encoded, "+", "%20");
    r
  }

  /** Every `+` spelled `%20`, one character at a time. */
  function PlusAsPercent20(s: string): string
    decreases |s|
  {
    if s == [] then [] else (if s[0] == '+' then "%20" else [s[0]]) + PlusAsPercent20(s[1..])
  }

  /** `replaceAll("\\+", "%20")` is that character-by-character expansion. */
  lemma {:induction false} ReplacePlusExpands(s: string)
    ensures ReplaceAll(s, "+", "%20") == PlusAsPercent20(s)
    decreases |s|
  {
    if s != [] {
      assert StartsWith(s, "+") <==> s[0] == '+';
      ReplacePlusExpands(s[1..]);
    }
  }

  /**
   * `replaceAll("\\+", "%20")` turns each `+` into `%20`, so it leaves no
   * `+`, and changes nothing where there was none.
   */
  lemma PlusReplaced(s: string)
    ensures ReplaceAll(s, "+", "%20") == PlusAsPercent20(s)
    ensures '+' !in ReplaceAll(s, "+", "%20")
    ensures '+' !in s ==> ReplaceAll(s, "+", "%20") == s
  {
    ReplacePlusExpands(s);
    ReplaceAllCharGone(s, '+', "%20");
    if '+' !in s {
      CharAbsentNotContained(s, '+');
      ReplaceAllWithoutMatch(s, "+", "%20");
    }
  }

  // ---------------------------------------------------------------------------
  // Content-type preference

  /** The first of `types` that `range` accepts. */
  function AcceptedType<R>(range: R, types: seq<string>, accepts: (R, string) -> bool): Option<string>
    decreases |types|
  {
    if types == [] then None
    else if accepts(range, types[0]) then Some(types[0])
    else AcceptedType(range, types[1..], accepts)
  }

  /** Ranges in preference order; the first range that accepts any type decides, and its first accepted type wins. */
  function PreferType<R>(ranges: seq<R>, types: seq<string>, accepts: (R, string) -> bool): (r: Option<string>)
    ensures r.Some? ==> r.value in types
    decreases |ranges|
  {
    if ranges == [] then None
    else
      var t := AcceptedType(ranges[0], types, accepts);
      if t.Some? then (AcceptedTypeIn(ranges[0], types, accepts); t)
      else PreferType(ranges[1..], types, accepts)
  }

  lemma {:induction false} AcceptedTypeIn<R>(range: R, types: seq<string>, accepts: (R, string) -> bool)
    ensures AcceptedType(range, types, accepts).Some? ==> AcceptedType(range, types, accepts).value in types
    decreases |types|
  {
    if types != [] && !accepts(range, types[0]) {
      AcceptedTypeIn(range, types[1..], accepts);
    }
  }

  /**
   * `types[j]` is what the preference search must return: range `i` accepts
   * it, no earlier range accepts any type, and range `i` accepts no earlier type.
   */
  predicate FirstMatch<R>(ranges: seq<R>, types: seq<string>, accepts: (R, string) -> bool, i: int, j: int) {
    && 0 <= i < |ranges| && 0 <= j < |types| && accepts(ranges[i], types[j])
    && (forall i', j' :: 0 <= i' < i && 0 <= j' < |types| ==> !accepts(ranges[i'], types[j']))
    && (forall j' :: 0 <= j' < j ==> !accepts(ranges[i], types[j']))
  }

  lemma {:induction false} AcceptedTypeFirst<R>(range: R, types: seq<string>, accepts: (R, string) -> bool)
    ensures AcceptedType(range, types, accepts).None? <==> forall j :: 0 <= j < |types| ==> !accepts(range, types[j])
    ensures AcceptedType(range, types, accepts).Some? ==>
      exists j :: && 0 <= j < |types| && accepts(range, types[j]) && types[j] == AcceptedType(range, types, accepts).value
                  && forall j' :: 0 <= j' < j ==> !accepts(range, types[j'])
    decreases |types|
  {
    if types != [] && !accepts(range, types[0]) {
      var rest := types[1..];
      AcceptedTypeFirst(range, rest, accepts);
      assert forall j :: 1 <= j < |types| ==> types[j] == rest[j - 1];
      if AcceptedType(range, rest, accepts).Some? {
        var j :| && 0 <= j < |rest| && accepts(range, rest[j]) && rest[j] == AcceptedType(range, rest, accepts).value
                 && forall j' :: 0 <= j' < j ==> !accepts(range, rest[j']);
        assert forall j' :: 0 <= j' < j + 1 ==> !accepts(range, types[j']) by {
          forall j' | 0 <= j' < j + 1 ensures !accepts(range, types[j']) {
            if j' > 0 { assert types[j'] == rest[j' - 1]; }
          }
        }
        assert types[j + 1] == rest[j];
      }
    }
  }

  /**
   * `getPreferType` returns the type the first match picks, and nothing
   * exactly when no range accepts any of the types.
   */
  lemma {:induction false} PreferTypeIsFirstMatch<R>(ranges: seq<R>, types: seq<string>, accepts: (R, string) -> bool)
    ensures PreferType(ranges, types, accepts).None? <==>
      forall i, j :: 0 <= i < |ranges| && 0 <= j < |types| ==> !accepts(ranges[i], types[j])
    ensures PreferType(ranges, types, accepts).Some? ==>
      exists i, j :: FirstMatch(ranges, types, accepts, i, j) && types[j] == PreferType(ranges, types, accepts).value
    decreases |ranges|
  {
    if ranges != [] {
      AcceptedTypeFirst(ranges[0], types, accepts);
      var rest := ranges[1..];
      assert forall i :: 1 <= i < |ranges| ==> ranges[i] == rest[i - 1];
      if AcceptedType(ranges[0], types, accepts).Some? {
        var j :| && 0 <= j < |types| && accepts(ranges[0], types[j])
                 && types[j] == AcceptedType(ranges[0], types, accepts).value
                 && forall j' :: 0 <= j' < j ==> !accepts(ranges[0], types[j']);
        assert FirstMatch(ranges, types, accepts, 0, j);
      } else {
        PreferTypeIsFirstMatch(rest, types, accepts);
        if PreferType(rest, types, accepts).Some? {
          var i, j :| FirstMatch(rest, types, accepts, i, j) && types[j] == PreferType(rest, types, accepts).value;
          forall i', j' | 0 <= i' < i + 1 && 0 <= j' < |types| ensures !accepts(ranges[i'], types[j']) {
            if i' > 0 { assert ranges[i'] == rest[i' - 1]; }
          }
          assert FirstMatch(ranges, types, accepts, i + 1, j);
        } else {
          forall i, j | 0 <= i < |ranges| && 0 <= j < |types| ensures !accepts(ranges[i], types[j]) {
            if i > 0 { assert ranges[i] == rest[i - 1]; }
          }
        }
      }
    }
  }

  /** The first match is unique, so the preference search has a single right answer. */
  lemma FirstMatchUnique<R>(ranges: seq<R>, types: seq<string>, accepts: (R, string) -> bool, i: int, j: int, i2: int, j2: int)
    requires FirstMatch(ranges, types, accepts, i, j) && FirstMatch(ranges, types, accepts, i2, j2)
    ensures i == i2 && j == j2
  {
  }

  /** `getPreferType` (lines 79-89): nested loops over the accepted ranges and the supported types, returning at the first hit. */
  method GetPreferType<R>(ranges: seq<R>, types: seq<string>, accepts: (R, string) -> bool) returns (r: Option<string>)
    ensures r == PreferType(ranges, types, accepts)
  {
    for i := 0 to |ranges|
      invariant PreferType(ranges, types, accepts) == PreferType(ranges[i..], types, accepts)
    {
      var range := ranges[i];
      assert ranges[i..][0] == range && ranges[i..][1..] == ranges[i + 1..];
      for j := 0 to |types|
        invariant AcceptedType(range, types, accepts) == AcceptedType(range, types[j..], accepts)
      {
        assert types[j..][0] == types[j] && types[j..][1..] == types[j + 1..];
        if accepts(range, types[j]) {
          return Some(types[j]);
        }
      }
    }
    return None;
  }

  const Html := "text/html"
  const Json := "application/json"

  /**
   * `isJSONPreferred` (lines 98-100) as written: it calls `equals` on what
   * `getPreferType` returned, which is null when the client accepts neither
   * type; `None` stands for the resulting `NullPointerException`.
   */
  function IsJSONPreferredAsWritten<R>(ranges: seq<R>, accepts: (R, string) -> bool): (r: Option<bool>)
    ensures r.None? <==> forall i :: 0 <= i < |ranges| ==> !accepts(ranges[i], Html) && !accepts(ranges[i], Json)
  {
    PreferTypeIsFirstMatch(ranges, [Html, Json], accepts);
    var preferred := PreferType(ranges, [Html, Json], accepts);
    assert (forall i :: 0 <= i < |ranges| ==> !accepts(ranges[i], Html) && !accepts(ranges[i], Json))
       <==> (forall i, j :: 0 <= i < |ranges| && 0 <= j < 2 ==> !accepts(ranges[i], [Html, Json][j])) by {
      if forall i :: 0 <= i < |ranges| ==> !accepts(ranges[i], Html) && !accepts(ranges[i], Json) {
        forall i, j | 0 <= i < |ranges| && 0 <= j < 2 ensures !accepts(ranges[i], [Html, Json][j]) {
          assert j == 0 || j == 1;
        }
      }
      if forall i, j :: 0 <= i < |ranges| && 0 <= j < 2 ==> !accepts(ranges[i], [Html, Json][j]) {
        forall i | 0 <= i < |ranges| ensures !accepts(ranges[i], Html) && !accepts(ranges[i], Json) {
          assert [Html, Json][0] == Html && [Html, Json][1] == Json;
        }
      }
    }
    if preferred.None? then None else Some(preferred.value == Json)
  }

  /** A client whose only range is `image/png` makes the as-written test throw instead of answering false. */
  lemma JSONPreferredThrowsForOtherTypes()
    ensures IsJSONPreferredAsWritten(["image/png"], (range: string, t: string) => range == t) == None
  {
  }

  /**
   * `isJSONPreferred` as intended: JSON is preferred when the preference
   * search picks it, and a client that accepts neither type does not prefer JSON.
   */
  function IsJSONPreferred<R>(ranges: seq<R>, accepts: (R, string) -> bool): (r: bool)
    ensures IsJSONPreferredAsWritten(ranges, accepts).Some? ==> r == IsJSONPreferredAsWritten(ranges, accepts).value
    ensures IsJSONPreferredAsWritten(ranges, accepts).None? ==> !r
  {
    PreferType(ranges, [Html, Json], accepts) == Some(Json)
  }

  /**
   * JSON is preferred exactly when some range accepts JSON but not HTML and
   * every earlier range accepts neither.
   */
  lemma JSONPreferredIff<R>(ranges: seq<R>, accepts: (R, string) -> bool)
    ensures IsJSONPreferred(ranges, accepts) <==>
      exists i :: && 0 <= i < |ranges| && accepts(ranges[i], Json) && !accepts(ranges[i], Html)
                  && forall i' :: 0 <= i' < i ==> !accepts(ranges[i'], Html) && !accepts(ranges[i'], Json)
  {
    var types := [Html, Json];
    PreferTypeIsFirstMatch(ranges, types, accepts);
    if IsJSONPreferred(ranges, accepts) {
      var i, j :| FirstMatch(ranges, types, accepts, i, j) && types[j] == Json;
      assert j == 1;
      assert !accepts(ranges[i], types[0]);
      forall i' | 0 <= i' < i ensures !accepts(ranges[i'], Html) && !accepts(ranges[i'], Json) {
        assert !accepts(ranges[i'], types[0]) && !accepts(ranges[i'], types[1]);
      }
    }
    if exists i :: && 0 <= i < |ranges| && accepts(ranges[i], Json) && !accepts(ranges[i], Html)
                   && forall i' :: 0 <= i' < i ==> !accepts(ranges[i'], Html) && !accepts(ranges[i'], Json) {
      var i :| && 0 <= i < |ranges| && accepts(ranges[i], Json) && !accepts(ranges[i], Html)
               && forall i' :: 0 <= i' < i ==> !accepts(ranges[i'], Html) && !accepts(ranges[i'], Json);
      forall i', j' | 0 <= i' < i && 0 <= j' < |types| ensures !accepts(ranges[i'], types[j']) {
        assert j' == 0 || j' == 1;
      }
      assert FirstMatch(ranges, types, accepts, i, 1);
      var i2, j2 :| FirstMatch(ranges, types, accepts, i2, j2) && types[j2] == PreferType(ranges, types, accepts).value;
      FirstMatchUnique(ranges, types, accepts, i, 1, i2, j2);
    }
  }

  // ---------------------------------------------------------------------------
  // Query strings

  /** A parsed `java.net.URI`: what `getScheme`, `getAuthority`, `getPath`, `getQuery` and `getFragment` return. */
  datatype Uri = Uri(scheme: Option<string>, authority: Option<string>, path: string, query: Option<string>, fragment: Option<string>)

  /** The query string or "" when there is none. */
  function QueryOrEmpty(u: Uri): string {
    if u.query.Some? then u.query.value else ""
  }

  /**
   * `addQueryString` (lines 112-120): the old query, `&` when it is not
   * empty, and the encoded pairs joined by `&`; every other component kept.
   */
  function AddQueryString(u: Uri, encodedPairs: seq<string>): (r: Uri)
    ensures r.scheme == u.scheme && r.authority == u.authority && r.path == u.path && r.fragment == u.fragment
    ensures r.query.Some? && StartsWith(r.query.value, QueryOrEmpty(u))
  {
    var query := QueryOrEmpty(u);
    u.(query := Some(query + (if |query| > 0 then "&" else "") + Join(encodedPairs, "&")))
  }

  /**
   * The pairs of the new query, split at `&`, are the old pairs followed by
   * the given ones, as long as the given pairs carry no `&` themselves.
   */
  lemma AddQueryStringAppendsPairs(u: Uri, encodedPairs: seq<string>)
    requires encodedPairs != [] && forall k :: 0 <= k < |encodedPairs| ==> '&' !in encodedPairs[k]
    ensures Fields(AddQueryString(u, encodedPairs).query.value, '&')
         == (if QueryOrEmpty(u) == "" then [] else Fields(QueryOrEmpty(u), '&')) + encodedPairs
  {
    var query := QueryOrEmpty(u);
    var joined := Join(encodedPairs, "&");
    JoinFields(encodedPairs, '&');
    if query == "" {
      assert AddQueryString(u, encodedPairs).query.value == joined;
    } else {
      assert AddQueryString(u, encodedPairs).query.value == query + ['&'] + joined;
      FieldsAppend(query, joined, '&');
    }
  }

  /**
   * With no pairs to add, the new query still gets the `&` separator after a
   * non-empty old query, so it ends in one empty pair.
   */
  lemma AddQueryStringNoPairs(u: Uri)
    ensures Fields(AddQueryString(u, []).query.value, '&')
         == (if QueryOrEmpty(u) == "" then [] else Fields(QueryOrEmpty(u), '&')) + [""]
  {
    var query := QueryOrEmpty(u);
    if query != "" {
      assert AddQueryString(u, []).query.value == query + ['&'] + "";
      FieldsAppend(query, "", '&');
    }
  }

  /** A `key=value` string survives the filter: it splits into at least one part and its decoded key is not removed. */
  predicate KeepPair(pairString: string, keys: set<string>, decode: string -> string) {
    var pair := JavaSplit(pairString, '=');
    |pair| > 0 && decode(pair[0]) !in keys
  }

  /** The pair strings the filter keeps, in their order. */
  function Kept(pairStrings: seq<string>, keys: set<string>, decode: string -> string): seq<string>
    decreases |pairStrings|
  {
    if pairStrings == [] then []
    else
      var last := pairStrings[|pairStrings| - 1];
      Kept(pairStrings[..|pairStrings| - 1], keys, decode) + (if KeepPair(last, keys, decode) then [last] else [])
  }

  lemma KeptStep(parts: seq<string>, k: nat, keys: set<string>, decode: string -> string)
    requires k < |parts|
    ensures Kept(parts[..k + 1], keys, decode)
         == Kept(parts[..k], keys, decode) + (if KeepPair(parts[k], keys, decode) then [parts[k]] else [])
  {
    assert parts[..k + 1][..k] == parts[..k];
  }

  /** A pair string is kept exactly when it was in the query and passes the filter. */
  lemma {:induction false} KeptMember(pairStrings: seq<string>, keys: set<string>, decode: string -> string, p: string)
    ensures p in Kept(pairStrings, keys, decode) <==> p in pairStrings && KeepPair(p, keys, decode)
    decreases |pairStrings|
  {
    if pairStrings != [] {
      var init := pairStrings[..|pairStrings| - 1];
      KeptMember(init, keys, decode, p);
      assert pairStrings == init + [pairStrings[|pairStrings| - 1]];
    }
  }

  /** Filtering keeps the query's order: the kept pairs of two parts are those of the first, then those of the second. */
  lemma {:induction false} KeptAppend(xs: seq<string>, ys: seq<string>, keys: set<string>, decode: string -> string)
    ensures Kept(xs + ys, keys, decode) == Kept(xs, keys, decode) + Kept(ys, keys, decode)
    decreases |ys|
  {
    if ys != [] {
      var init, last := ys[..|ys| - 1], ys[|ys| - 1];
      var tail := if KeepPair(last, keys, decode) then [last] else [];
      assert (xs + ys)[..|xs + ys| - 1] == xs + init;
      assert (xs + ys)[|xs + ys| - 1] == last;
      assert Kept(xs + ys, keys, decode) == Kept(xs + init, keys, decode) + tail;
      assert Kept(ys, keys, decode) == Kept(init, keys, decode) + tail;
      KeptAppend(xs, init, keys, decode);
    } else {
      assert xs + ys == xs;
    }
  }

  /** `split` on a character drops every field exactly when the string is made of that character only. */
  lemma SplitEmptyIff(s: string, d: char)
    ensures JavaSplit(s, d) == [] <==> s != [] && forall i :: 0 <= i < |s| ==> s[i] == d
  {
    FieldsAllEmptyIff(s, d);
    DropTrailingEmptyNone(Fields(s, d));
  }

  lemma {:induction false} DropTrailingEmptyNone(xs: seq<string>)
    ensures DropTrailingEmpty(xs) == [] <==> forall k :: 0 <= k < |xs| ==> xs[k] == ""
    decreases |xs|
  {
    if xs != [] && xs[|xs| - 1] == "" {
      DropTrailingEmptyNone(xs[..|xs| - 1]);
    }
  }

  lemma {:induction false} FieldsAllEmptyIff(s: string, d: char)
    ensures (forall k :: 0 <= k < |Fields(s, d)| ==> Fields(s, d)[k] == "") <==> forall i :: 0 <= i < |s| ==> s[i] == d
    decreases |s|
  {
    if s != [] {
      var rest := Fields(s[1..], d);
      FieldsAllEmptyIff(s[1..], d);
      if s[0] == d {
        var f := Fields(s, d);
        assert f == [""] + rest;
        if forall i :: 0 <= i < |s| ==> s[i] == d {
          forall i | 0 <= i < |s[1..]| ensures s[1..][i] == d {
            assert s[1..][i] == s[i + 1];
          }
          forall k | 0 <= k < |f| ensures f[k] == "" {
            if k > 0 { assert f[k] == rest[k - 1]; }
          }
        }
        if forall k :: 0 <= k < |f| ==> f[k] == "" {
          forall k | 0 <= k < |rest| ensures rest[k] == "" {
            assert rest[k] == f[k + 1];
          }
          forall i | 0 <= i < |s| ensures s[i] == d {
            if i > 0 { assert s[i] == s[1..][i - 1]; }
          }
        }
      } else {
        assert Fields(s, d)[0] == [s[0]] + rest[0];
      }
    }
  }

  /**
   * `removeQueryString` (lines 133-156), with `URLDecoder.decode(_, "UTF-8")`
   * as `decode`: a URL without a query comes back as it is; otherwise the
   * query keeps, in order, the pairs whose decoded key is not removed.
   */
  method RemoveQueryString(u: Uri, keys: set<string>, decode: string -> string) returns (r: Uri)
    ensures u.query.None? ==> r == u
    ensures u.query.Some? ==>
      r == u.(query := Some(Join(Kept(JavaSplit(u.query.value, '&'), keys, decode), "&")))
  {
    if u.query.None? {
      return u;
    }
    var pairStrings: seq<string> := [];
    var parts := JavaSplit(u.query.value, '&');
    for k := 0 to |parts|
      invariant pairStrings == Kept(parts[..k], keys, decode)
    {
      var pairString := parts[k];
      KeptStep(parts, k, keys, decode);
      var pair := JavaSplit(pairString, '=');
      if |pair| == 0 {
        continue;
      }
      if decode(pair[0]) !in keys {
        pairStrings := pairStrings + [pairString];
      }
    }
    assert parts[..|parts|] == parts;
    return u.(query := Some(Join(pairStrings, "&")));
  }

  // ---------------------------------------------------------------------------
  // Header tests

  const XmlHttpRequest := "xmlhttprequest"

  /** `isRequestedWithXHR` (lines 168-171): `None` is an absent `X-Requested-With` header. */
  function IsRequestedWithXHR(requestedWith: Option<string>): (r: bool)
    ensures r ==> requestedWith.Some? && |requestedWith.value| == |XmlHttpRequest|
  {
    requestedWith.Some? && ToLower(requestedWith.value) == XmlHttpRequest
  }

  /** The header test is a case-insensitive comparison with `XMLHttpRequest`. */
  lemma RequestedWithXHRIff(requestedWith: Option<string>)
    ensures IsRequestedWithXHR(requestedWith) <==> requestedWith.Some? && EqualsIgnoreCase(requestedWith.value, "XMLHttpRequest")
  {
    assert ToLower(XmlHttpRequest) == XmlHttpRequest;
    if requestedWith.Some? {
      ToLowerEqualsIff(requestedWith.value, XmlHttpRequest);
      assert EqualsIgnoreCase(requestedWith.value, XmlHttpRequest) <==> EqualsIgnoreCase(requestedWith.value, "XMLHttpRequest");
    }
  }

  /** `Boolean.parseBoolean`: true exactly for a non-null `true` in any case. */
  function ParseBoolean(s: Option<string>): (b: bool)
    ensures b ==> s.Some? && |s.value| == 4
  {
    s.Some? && EqualsIgnoreCase(s.value, "true")
  }

  /** `parseBoolean` accepts exactly the values that lower-case to `true`. */
  lemma ParseBooleanIff(s: Option<string>)
    ensures ParseBoolean(s) <==> s.Some? && ToLower(s.value) == "true"
  {
    assert ToLower("true") == "true";
    if s.Some? {
      ToLowerEqualsIff(s.value, "true");
    }
  }

  /**
   * `isPJAXRequest` (lines 179-181): `None` is an absent `X-PJAX` header,
   * which counts exactly when its value lower-cases to `true`.
   */
  function IsPJAXRequest(pjax: Option<string>): (r: bool)
    ensures r <==> pjax.Some? && ToLower(pjax.value) == "true"
  {
    ParseBooleanIff(pjax);
    ParseBoolean(pjax)
  }
}
