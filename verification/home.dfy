/**
 * The login flow's state changes on the home view: reading the login cookies
 * out of the Set-Cookie headers of a successful QR poll, and the `AppState`
 * updates made for each poll code and on logout. The HTTP requests, JSON
 * decoding, QR rendering and timers around them are not modelled.
 */
module Home {
  import opened Wrappers
  import Text
  import opened State

  /** One response header: its name and its raw value. */
  datatype Header = Header(name: string, value: string)

  const SetCookie: string := "set-cookie"

  /** `HeaderValue::to_str` succeeds: every character is visible ASCII or a tab. */
  predicate VisibleAscii(s: string) {
    forall i :: 0 <= i < |s| ==> (' ' <= s[i] <= '~') || s[i] == '\t'
  }

  /** The headers the parser reads: named "set-cookie" in any ASCII case, with a value `to_str` accepts. */
  predicate IsReadableSetCookie(h: Header) {
    Text.EqIgnoreAsciiCase(h.name, SetCookie) && VisibleAscii(h.value)
  }

  predicate IsCookieName(name: string) {
    name == "SESSDATA" || name == "DedeUserID" || name == "DedeUserID__ckMd5" || name == "bili_jct" || name == "sid"
  }

  /** The field a cookie name fills, as an option; SESSDATA always has a value. */
  function Field(c: Cookies, name: string): Option<string> {
    if name == "SESSDATA" then Some(c.sessdata)
    else if name == "DedeUserID" then c.dedeUserId
    else if name == "DedeUserID__ckMd5" then c.dedeUserIdCkMd5
    else if name == "bili_jct" then c.biliJct
    else if name == "sid" then c.sid
    else None
  }

  /** What a `name=value` piece does to the cookies: the matching field takes the value; other names change nothing. */
  function Assign(c: Cookies, name: string, value: string): (r: Cookies)
    ensures IsCookieName(name) ==> Field(r, name) == Some(value)
    ensures forall other :: other != name ==> Field(r, other) == Field(c, other)
    ensures !IsCookieName(name) ==> r == c
  {
    if name == "SESSDATA" then c.(sessdata := value)
    else if name == "DedeUserID" then c.(dedeUserId := Some(value))
    else if name == "DedeUserID__ckMd5" then c.(dedeUserIdCkMd5 := Some(value))
    else if name == "bili_jct" then c.(biliJct := Some(value))
    else if name == "sid" then c.(sid := Some(value))
    else c
  }

  /** The name a `;`-piece gives, once trimmed: the text before its first '='; none without '='. */
  function PieceName(piece: string): Option<string> {
    match Text.SplitOnce(Text.Trim(piece), '=')
    case None => None
    case Some((k, _)) => Some(k)
  }

  /** The value a `;`-piece gives, once trimmed: the text after its first '='. */
  function PieceValue(piece: string): string
    requires PieceName(piece).Some?
  {
    Text.SplitOnce(Text.Trim(piece), '=').value.1
  }

  /** One piece of a Set-Cookie line: trimmed, split at its first '=', skipped without one. */
  function ApplyPiece(c: Cookies, piece: string): (r: Cookies)
    ensures PieceName(piece).None? ==> r == c
    ensures PieceName(piece).Some? ==> r == Assign(c, PieceName(piece).value, PieceValue(piece))
  {
    match Text.SplitOnce(Text.Trim(piece), '=')
    case None => c
    case Some((k, v)) => Assign(c, k, v)
  }

  /** The pieces of one line applied in order. */
  function ApplyPieces(c: Cookies, pieces: seq<string>): Cookies
    decreases |pieces|
  {
    if |pieces| == 0 then c
    else ApplyPiece(ApplyPieces(c, pieces[..|pieces| - 1]), pieces[|pieces| - 1])
  }

  /** The headers applied in order; only readable Set-Cookie headers have an effect. */
  function ApplyHeaders(c: Cookies, headers: seq<Header>): Cookies
    decreases |headers|
  {
    if |headers| == 0 then c
    else
      var before := ApplyHeaders(c, headers[..|headers| - 1]);
      var h := headers[|headers| - 1];
      if IsReadableSetCookie(h) then ApplyPieces(before, Text.Split(h.value, ';')) else before
  }

  /** The cookies a successful poll response yields, starting from `Cookies::default()`. */
  function ParseLoginCookies(headers: seq<Header>): Cookies {
    ApplyHeaders(DefaultCookies, headers)
  }

  /**
   * The parse loops: for each readable Set-Cookie header, split the value on
   * ';', trim each piece, split it at its first '=' and store a known name.
   */
  method ParseSetCookies(headers: seq<Header>) returns (cookies: Cookies)
    ensures cookies == ParseLoginCookies(headers)
  {
    cookies := DefaultCookies;
    for i := 0 to |headers|
      invariant cookies == ApplyHeaders(DefaultCookies, headers[..i])
    {
      var h := headers[i];
      if Text.EqIgnoreAsciiCase(h.name, SetCookie) && VisibleAscii(h.value) {
        var pieces := Text.Split(h.value, ';');
        ghost var before := cookies;
        for j := 0 to |pieces|
          invariant cookies == ApplyPieces(before, pieces[..j])
        {
          var kv := Text.Trim(pieces[j]);
          match Text.SplitOnce(kv, '=') {
            case Some((k, v)) => cookies := Assign(cookies, k, v);
            case None =>
          }
          assert pieces[..j + 1][..j] == pieces[..j];
        }
        assert pieces[..|pieces|] == pieces;
      }
      assert headers[..i + 1][..i] == headers[..i];
    }
    assert headers[..|headers|] == headers;
  }

  // ---------------------------------------------------------------------------
  // Properties of the parser

  /** Applying two runs of pieces is applying the first, then the second. */
  lemma {:induction false} ApplyPiecesAppend(c: Cookies, xs: seq<string>, ys: seq<string>)
    ensures ApplyPieces(c, xs + ys) == ApplyPieces(ApplyPieces(c, xs), ys)
    decreases |ys|
  {
    if |ys| == 0 {
      assert xs + ys == xs;
    } else {
      assert (xs + ys)[..|xs + ys| - 1] == xs + ys[..|ys| - 1];
      ApplyPiecesAppend(c, xs, ys[..|ys| - 1]);
    }
  }

  /** A field no piece names keeps its value. */
  lemma {:induction false} UnnamedFieldKept(c: Cookies, pieces: seq<string>, name: string)
    requires forall i :: 0 <= i < |pieces| ==> PieceName(pieces[i]) != Some(name)
    ensures Field(ApplyPieces(c, pieces), name) == Field(c, name)
    decreases |pieces|
  {
    if |pieces| > 0 {
      UnnamedFieldKept(c, pieces[..|pieces| - 1], name);
    }
  }

  /** When a name occurs several times in one header line, its last occurrence decides the field. */
  lemma LastOccurrenceWins(c: Cookies, pieces: seq<string>, j: nat, name: string)
    requires IsCookieName(name) && j < |pieces| && PieceName(pieces[j]) == Some(name)
    requires forall i :: j < i < |pieces| ==> PieceName(pieces[i]) != Some(name)
    ensures Field(ApplyPieces(c, pieces), name) == Some(PieceValue(pieces[j]))
  {
    var xs, ys := pieces[..j + 1], pieces[j + 1..];
    assert pieces == xs + ys;
    ApplyPiecesAppend(c, xs, ys);
    PrefixFillsField(c, pieces, j, name);
    forall i | 0 <= i < |ys|
      ensures PieceName(ys[i]) != Some(name)
    {
      assert ys[i] == pieces[j + 1 + i];
    }
    UnnamedFieldKept(ApplyPieces(c, xs), ys, name);
  }

  /** The pieces up to one naming a cookie leave that cookie's field at the piece's value. */
  lemma PrefixFillsField(c: Cookies, pieces: seq<string>, j: nat, name: string)
    requires IsCookieName(name) && j < |pieces| && PieceName(pieces[j]) == Some(name)
    ensures Field(ApplyPieces(c, pieces[..j + 1]), name) == Some(PieceValue(pieces[j]))
  {
    var xs := pieces[..j + 1];
    assert xs[..j] == pieces[..j] && xs[j] == pieces[j];
    PieceFillsField(ApplyPieces(c, pieces[..j]), pieces[j], name);
  }

  /** A piece naming a cookie sets that cookie's field to the piece's value. */
  lemma PieceFillsField(c: Cookies, piece: string, name: string)
    requires IsCookieName(name) && PieceName(piece) == Some(name)
    ensures Field(ApplyPiece(c, piece), name) == Some(PieceValue(piece))
  {
  }

  /** A header names a cookie when it is a readable Set-Cookie header with a piece of that name. */
  predicate HeaderNames(h: Header, name: string) {
    IsReadableSetCookie(h)
    && exists j :: 0 <= j < |Text.Split(h.value, ';')| && PieceName(Text.Split(h.value, ';')[j]) == Some(name)
  }

  /** A cookie no header names keeps its default: SESSDATA stays empty, the others stay absent. */
  lemma {:induction false} AbsentCookieKeepsDefault(c: Cookies, headers: seq<Header>, name: string)
    requires forall i :: 0 <= i < |headers| ==> !HeaderNames(headers[i], name)
    ensures Field(ApplyHeaders(c, headers), name) == Field(c, name)
    decreases |headers|
  {
    if |headers| > 0 {
      var init := headers[..|headers| - 1];
      assert forall i :: 0 <= i < |init| ==> init[i] == headers[i];
      AbsentCookieKeepsDefault(c, init, name);
      var h := headers[|headers| - 1];
      if IsReadableSetCookie(h) {
        UnnamedFieldKept(ApplyHeaders(c, init), Text.Split(h.value, ';'), name);
      }
    }
  }

  /** Applying two runs of headers is applying the first, then the second. */
  lemma {:induction false} ApplyHeadersAppend(c: Cookies, xs: seq<Header>, ys: seq<Header>)
    ensures ApplyHeaders(c, xs + ys) == ApplyHeaders(ApplyHeaders(c, xs), ys)
    decreases |ys|
  {
    if |ys| == 0 {
      assert xs + ys == xs;
    } else {
      assert (xs + ys)[..|xs + ys| - 1] == xs + ys[..|ys| - 1];
      ApplyHeadersAppend(c, xs, ys[..|ys| - 1]);
    }
  }

  /** The headers up to a readable one whose piece `j` is the last to name a cookie leave that cookie at the piece's value. */
  lemma HeaderFillsField(c: Cookies, headers: seq<Header>, i: nat, pieces: seq<string>, j: nat, name: string)
    requires IsCookieName(name) && i < |headers| && IsReadableSetCookie(headers[i])
    requires pieces == Text.Split(headers[i].value, ';')
    requires j < |pieces| && PieceName(pieces[j]) == Some(name)
    requires forall k :: j < k < |pieces| ==> PieceName(pieces[k]) != Some(name)
    ensures Field(ApplyHeaders(c, headers[..i + 1]), name) == Some(PieceValue(pieces[j]))
  {
    var xs := headers[..i + 1];
    assert xs[..i] == headers[..i] && xs[i] == headers[i];
    LastOccurrenceWins(ApplyHeaders(c, headers[..i]), pieces, j, name);
  }

  /**
   * Across Set-Cookie headers the last occurrence of a name decides its field:
   * header `i` names it last at piece `j`, and no later header names it.
   */
  lemma LastHeaderWins(c: Cookies, headers: seq<Header>, i: nat, pieces: seq<string>, j: nat, name: string)
    requires IsCookieName(name) && i < |headers| && IsReadableSetCookie(headers[i])
    requires pieces == Text.Split(headers[i].value, ';')
    requires j < |pieces| && PieceName(pieces[j]) == Some(name)
    requires forall k :: j < k < |pieces| ==> PieceName(pieces[k]) != Some(name)
    requires forall k :: i < k < |headers| ==> !HeaderNames(headers[k], name)
    ensures Field(ApplyHeaders(c, headers), name) == Some(PieceValue(pieces[j]))
  {
    HeaderFillsField(c, headers, i, pieces, j, name);
    LaterHeadersKeepField(c, headers, i, name);
  }

  /** Headers after `i` that do not name a cookie leave its field as the first `i + 1` headers set it. */
  lemma LaterHeadersKeepField(c: Cookies, headers: seq<Header>, i: nat, name: string)
    requires i < |headers|
    requires forall k :: i < k < |headers| ==> !HeaderNames(headers[k], name)
    ensures Field(ApplyHeaders(c, headers), name) == Field(ApplyHeaders(c, headers[..i + 1]), name)
  {
    var xs, ys := headers[..i + 1], headers[i + 1..];
    assert headers == xs + ys;
    ApplyHeadersAppend(c, xs, ys);
    forall k | 0 <= k < |ys|
      ensures !HeaderNames(ys[k], name)
    {
      assert ys[k] == headers[i + 1 + k];
    }
    AbsentCookieKeepsDefault(ApplyHeaders(c, xs), ys, name);
  }

  /** Headers that are not readable Set-Cookie headers are never consulted. */
  lemma {:induction false} OtherHeadersIgnored(c: Cookies, headers: seq<Header>)
    requires forall i :: 0 <= i < |headers| ==> !IsReadableSetCookie(headers[i])
    ensures ApplyHeaders(c, headers) == c
    decreases |headers|
  {
    if |headers| > 0 {
      OtherHeadersIgnored(c, headers[..|headers| - 1]);
    }
  }

  /** Pieces that trim to the same text have the same effect. */
  lemma {:induction false} ApplyPiecesUpToTrim(c: Cookies, xs: seq<string>, ys: seq<string>)
    requires |xs| == |ys|
    requires forall i :: 0 <= i < |xs| ==> Text.Trim(xs[i]) == Text.Trim(ys[i])
    ensures ApplyPieces(c, xs) == ApplyPieces(c, ys)
    decreases |xs|
  {
    if |xs| > 0 {
      ApplyPiecesUpToTrim(c, xs[..|xs| - 1], ys[..|ys| - 1]);
    }
  }

  // ---------------------------------------------------------------------------
  // Round trip with the cookie header

  /** A cookie value the header format carries unchanged: no ';', visible ASCII, not ending in whitespace. */
  predicate CleanValue(v: string) {
    ';' !in v && VisibleAscii(v) && (|v| == 0 || !Text.IsWhitespace(v[|v| - 1]))
  }

  predicate CleanOption(o: Option<string>) {
    o.Some? ==> CleanValue(o.value)
  }

  predicate CleanCookies(c: Cookies) {
    CleanValue(c.sessdata) && CleanOption(c.dedeUserId) && CleanOption(c.dedeUserIdCkMd5)
    && CleanOption(c.biliJct) && CleanOption(c.sid)
  }

  /** The facts about a cookie name the round trip needs. */
  predicate GoodName(name: string) {
    |name| > 0 && !Text.IsWhitespace(name[0]) && '=' !in name && ';' !in name && VisibleAscii(name)
  }

  lemma CookieNamesGood()
    ensures GoodName("SESSDATA") && GoodName("DedeUserID") && GoodName("DedeUserID__ckMd5")
    ensures GoodName("bili_jct") && GoodName("sid")
  {
  }

  /** A part "name=value" trims to itself, with or without the blank the join puts in front. */
  lemma PartTrims(name: string, v: string)
    requires GoodName(name) && CleanValue(v)
    ensures Text.Trim(Pair(name, v)) == Pair(name, v)
    ensures Text.Trim(" " + Pair(name, v)) == Pair(name, v)
  {
    var p := Pair(name, v);
    assert p[0] == name[0];
    assert p[|p| - 1] == if |v| > 0 then v[|v| - 1] else '=';
    Text.TrimAfterBlank(p);
  }

  /** A part "name=value" holds no ';' and is visible ASCII. */
  lemma PartVisible(name: string, v: string)
    requires GoodName(name) && CleanValue(v)
    ensures ';' !in Pair(name, v) && VisibleAscii(Pair(name, v))
  {
    var p := Pair(name, v);
    assert forall i :: 0 <= i < |p| ==> p[i] == if i < |name| then name[i] else if i == |name| then '=' else v[i - |name| - 1];
  }

  /** A part "name=value" read back as a piece, with or without the blank the join puts in front. */
  lemma PartReadBack(x: Cookies, name: string, v: string)
    requires GoodName(name) && CleanValue(v)
    ensures ApplyPiece(x, Pair(name, v)) == Assign(x, name, v)
    ensures Text.Trim(" " + Pair(name, v)) == Text.Trim(Pair(name, v))
    ensures ';' !in Pair(name, v) && VisibleAscii(Pair(name, v))
  {
    PartTrims(name, v);
    PartVisible(name, v);
    assert Pair(name, v) == name + ['='] + v;
    Text.SplitOnceAt(name, v, '=');
  }

  /** What the part of an optional cookie does when read back: assigns it when present. */
  function AssignOption(x: Cookies, name: string, o: Option<string>): Cookies {
    if o.Some? then Assign(x, name, o.value) else x
  }

  /** Reading back a run of parts followed by one optional cookie's part. */
  lemma AppendOptionalPart(x: Cookies, prefix: seq<string>, name: string, o: Option<string>)
    requires GoodName(name) && CleanOption(o)
    ensures ApplyPieces(x, prefix + CookiePart(name, o)) == AssignOption(ApplyPieces(x, prefix), name, o)
  {
    if o.Some? {
      PartReadBack(ApplyPieces(x, prefix), name, o.value);
      assert (prefix + CookiePart(name, o))[..|prefix|] == prefix;
    } else {
      assert prefix + CookiePart(name, o) == prefix;
    }
  }

  /** Assigning each field's own value, starting from the defaults, gives the cookies back. */
  lemma AssignEveryField(c: Cookies)
    ensures Assign(AssignOption(AssignOption(AssignOption(AssignOption(DefaultCookies,
      "DedeUserID", c.dedeUserId), "DedeUserID__ckMd5", c.dedeUserIdCkMd5), "bili_jct", c.biliJct),
      "sid", c.sid), "SESSDATA", c.sessdata) == c
  {
    var x1 := AssignOption(DefaultCookies, "DedeUserID", c.dedeUserId);
    assert x1 == DefaultCookies.(dedeUserId := c.dedeUserId);
    var x2 := AssignOption(x1, "DedeUserID__ckMd5", c.dedeUserIdCkMd5);
    assert x2 == x1.(dedeUserIdCkMd5 := c.dedeUserIdCkMd5);
    var x3 := AssignOption(x2, "bili_jct", c.biliJct);
    assert x3 == x2.(biliJct := c.biliJct);
    var x4 := AssignOption(x3, "sid", c.sid);
    assert x4 == x3.(sid := c.sid);
  }

  /** Applying the header's parts in order, from the default cookies, rebuilds the cookies. */
  lemma HeaderPartsReadBack(c: Cookies)
    requires CleanCookies(c)
    ensures ApplyPieces(DefaultCookies, HeaderParts(c)) == c
  {
    CookieNamesGood();
    var d := DefaultCookies;
    var p1 := CookiePart("DedeUserID", c.dedeUserId);
    var q2 := p1 + CookiePart("DedeUserID__ckMd5", c.dedeUserIdCkMd5);
    var q3 := q2 + CookiePart("bili_jct", c.biliJct);
    var q4 := q3 + CookiePart("sid", c.sid);
    var last := Pair("SESSDATA", c.sessdata);
    assert HeaderParts(c) == q4 + [last];
    AppendOptionalPart(d, [], "DedeUserID", c.dedeUserId);
    assert [] + p1 == p1;
    AppendOptionalPart(d, p1, "DedeUserID__ckMd5", c.dedeUserIdCkMd5);
    AppendOptionalPart(d, q2, "bili_jct", c.biliJct);
    AppendOptionalPart(d, q3, "sid", c.sid);
    PartReadBack(ApplyPieces(d, q4), "SESSDATA", c.sessdata);
    assert (q4 + [last])[..|q4|] == q4;
    AssignEveryField(c);
  }

  /** A part the join and split carry through: no ';', visible ASCII, the same once trimmed with a blank in front. */
  predicate CleanPart(p: string) {
    ';' !in p && VisibleAscii(p) && Text.Trim(" " + p) == Text.Trim(p)
  }

  predicate AllClean(parts: seq<string>) {
    forall i :: 0 <= i < |parts| ==> CleanPart(parts[i])
  }

  lemma AllCleanAppend(xs: seq<string>, ys: seq<string>)
    requires AllClean(xs) && AllClean(ys)
    ensures AllClean(xs + ys)
  {
    assert forall i :: 0 <= i < |ys| ==> (xs + ys)[|xs| + i] == ys[i];
  }

  lemma CookiePartClean(name: string, o: Option<string>)
    requires GoodName(name) && CleanOption(o)
    ensures AllClean(CookiePart(name, o))
  {
    if o.Some? {
      PartReadBack(DefaultCookies, name, o.value);
    }
  }

  /** Each cookie's own part is clean. */
  lemma FieldPartsClean(c: Cookies)
    requires CleanCookies(c)
    ensures AllClean(CookiePart("DedeUserID", c.dedeUserId))
    ensures AllClean(CookiePart("DedeUserID__ckMd5", c.dedeUserIdCkMd5))
    ensures AllClean(CookiePart("bili_jct", c.biliJct))
    ensures AllClean(CookiePart("sid", c.sid))
    ensures AllClean([Pair("SESSDATA", c.sessdata)])
  {
    CookieNamesGood();
    CookiePartClean("DedeUserID", c.dedeUserId);
    CookiePartClean("DedeUserID__ckMd5", c.dedeUserIdCkMd5);
    CookiePartClean("bili_jct", c.biliJct);
    CookiePartClean("sid", c.sid);
    PartReadBack(DefaultCookies, "SESSDATA", c.sessdata);
  }

  lemma AllCleanAppend5(p1: seq<string>, p2: seq<string>, p3: seq<string>, p4: seq<string>, p5: seq<string>)
    requires AllClean(p1) && AllClean(p2) && AllClean(p3) && AllClean(p4) && AllClean(p5)
    ensures AllClean(p1 + p2 + p3 + p4 + p5)
  {
    AllCleanAppend(p1, p2);
    AllCleanAppend(p1 + p2, p3);
    AllCleanAppend(p1 + p2 + p3, p4);
    AllCleanAppend(p1 + p2 + p3 + p4, p5);
  }

  /** Every part of the header is free of ';', visible ASCII, and reads back the same with a blank in front. */
  lemma HeaderPartsClean(c: Cookies)
    requires CleanCookies(c)
    ensures AllClean(HeaderParts(c))
  {
    FieldPartsClean(c);
    AllCleanAppend5(CookiePart("DedeUserID", c.dedeUserId), CookiePart("DedeUserID__ckMd5", c.dedeUserIdCkMd5),
      CookiePart("bili_jct", c.biliJct), CookiePart("sid", c.sid), [Pair("SESSDATA", c.sessdata)]);
  }

  /** Joining visible-ASCII parts with a visible-ASCII separator gives visible ASCII. */
  lemma {:induction false} JoinVisible(parts: seq<string>, sep: string)
    requires VisibleAscii(sep)
    requires forall i :: 0 <= i < |parts| ==> VisibleAscii(parts[i])
    ensures VisibleAscii(Text.Join(parts, sep))
  {
    if |parts| > 1 {
      JoinVisible(parts[1..], sep);
      var t := Text.Join(parts[1..], sep);
      assert forall i :: 0 <= i < |parts[0] + sep + t| ==>
        (parts[0] + sep + t)[i] == if i < |parts[0]| then parts[0][i]
                                  else if i < |parts[0]| + |sep| then sep[i - |parts[0]|]
                                  else t[i - |parts[0]| - |sep|];
    }
  }

  /** Clean parts joined with "; " and split again on ';' act as the parts themselves. */
  lemma JoinedPartsReadBack(x: Cookies, parts: seq<string>)
    requires |parts| >= 1 && AllClean(parts)
    ensures ApplyPieces(x, Text.Split(Text.Join(parts, "; "), ';')) == ApplyPieces(x, parts)
  {
    assert "; " == [';', ' '];
    Text.SplitJoined(parts, ';', ' ');
    var pieces := Text.Split(Text.Join(parts, "; "), ';');
    assert pieces == [parts[0]] + Text.Padded(" ", parts[1..]);
    forall i | 0 <= i < |parts|
      ensures Text.Trim(pieces[i]) == Text.Trim(parts[i])
    {
      if i > 0 {
        assert pieces[i] == " " + parts[i];
      }
    }
    ApplyPiecesUpToTrim(x, pieces, parts);
  }

  /** A line made of clean parts is a readable Set-Cookie value. */
  lemma JoinedPartsReadable(parts: seq<string>)
    requires AllClean(parts)
    ensures IsReadableSetCookie(Header(SetCookie, Text.Join(parts, "; ")))
  {
    JoinVisible(parts, "; ");
  }

  /**
   * The header `cookie_header` builds, sent back as one Set-Cookie header,
   * parses to the same cookies, as long as no value holds ';', every value
   * is visible ASCII, and none ends in whitespace.
   */
  lemma CookieHeaderRoundTrip(c: Cookies)
    requires CleanCookies(c)
    ensures ParseLoginCookies([Header(SetCookie, CookieHeaderOf(c))]) == c
  {
    var parts := HeaderParts(c);
    var h := Header(SetCookie, CookieHeaderOf(c));
    HeaderPartsClean(c);
    JoinedPartsReadable(parts);
    assert [h][..0] == [];
    assert ApplyHeaders(DefaultCookies, [h]) == ApplyPieces(DefaultCookies, Text.Split(h.value, ';'));
    JoinedPartsReadBack(DefaultCookies, parts);
    HeaderPartsReadBack(c);
  }

  // ---------------------------------------------------------------------------
  // Login state transitions

  const LoginSucceeded: string := "登录成功"
  const QrExpiredRefreshing: string := "二维码已失效，正在刷新..."
  const QrReady: string := "请使用手机客户端扫码并确认"
  const QrScanned: string := "已扫码，等待确认..."

  /** The profile logout stores: every field empty. */
  const EmptyProfile: UserProfile := UserProfile(None, None, None, None)

  /** Poll code 0: store the cookies, log in, persist, then report success. Returns the persisted record. */
  method OnLoginSuccess(s: AppState, cookies: Cookies) returns (saved: SavedLogin)
    modifies s
    ensures s.View() == old(s.View()).(cookies := Some(cookies), loggedIn := true, qrStatus := LoginSucceeded)
    ensures saved == SavedLogin(true, cookies, old(s.user))
  {
    s.SetCookies(cookies);
    s.SetLoggedIn(true);
    saved := s.PersistLogin();
    s.SetQrStatus(LoginSucceeded);
  }

  /** Poll code 86038: the QR code expired; drop it and stop the flow before a new one is requested. */
  method OnQrExpired(s: AppState)
    modifies s
    ensures s.View() == old(s.View()).(qrStatus := QrExpiredRefreshing, qrStarted := false, qrSvg := None, qrcodeKey := None)
  {
    s.SetQrStatus(QrExpiredRefreshing);
    s.SetQrStarted(false);
    s.SetQrSvg(None);
    s.SetQrcodeKey(None);
  }

  /** A new QR code arrived: store its key and image and ask the user to scan it. */
  method OnQrIssued(s: AppState, qrcodeKey: string, svg: seq<bv8>)
    modifies s
    ensures s.View() == old(s.View()).(qrcodeKey := Some(qrcodeKey), qrSvg := Some(svg), qrStatus := QrReady)
  {
    s.SetQrcodeKey(Some(qrcodeKey));
    s.SetQrSvg(Some(svg));
    s.SetQrStatus(QrReady);
  }

  /** Poll code 86090: scanned, waiting for confirmation; only the status changes. */
  method OnQrScanned(s: AppState)
    modifies s
    ensures s.View() == old(s.View()).(qrStatus := QrScanned)
  {
    s.SetQrStatus(QrScanned);
  }

  /** The logout button: logged out, default cookies, an empty profile, no QR flow; then persisted. */
  method Logout(s: AppState) returns (saved: SavedLogin)
    modifies s
    ensures s.View() == old(s.View()).(loggedIn := false, cookies := Some(DefaultCookies), user := Some(EmptyProfile),
                                        qrStarted := false, qrSvg := None, qrcodeKey := None)
    ensures saved == SavedLogin(false, DefaultCookies, Some(EmptyProfile))
  {
    s.SetLoggedIn(false);
    s.SetCookies(DefaultCookies);
    s.SetUser(EmptyProfile);
    s.SetQrStarted(false);
    s.SetQrSvg(None);
    s.SetQrcodeKey(None);
    saved := s.PersistLogin();
  }

  const QrTimedOut: string := "二维码已超时，请刷新"

  /** How long the polling loop keeps trying, in milliseconds. */
  const PollDeadline: nat := 180000

  /**
   * The check at the top of each poll: past the deadline the status says the
   * code timed out and the loop stops; without a key it stops silently;
   * otherwise it polls with the stored key.
   */
  method PollGuard(s: AppState, elapsed: nat) returns (key: Option<string>)
    modifies s
    ensures elapsed > PollDeadline ==> key.None? && s.View() == old(s.View()).(qrStatus := QrTimedOut)
    ensures elapsed <= PollDeadline ==> key == old(s.qrcodeKey) && s.View() == old(s.View())
  {
    if elapsed > PollDeadline {
      s.SetQrStatus(QrTimedOut);
      return None;
    }
    key := s.qrcodeKey;
  }

  /** A poll reply: its top-level code and, when present, the code inside `data`. */
  datatype PollReply = PollReply(code: int, dataCode: Option<int>)

  /** What the polling loop does after a reply. */
  datatype PollNext = Stop | PollAgain | RequestNewQr

  /** One reply of the polling loop and the state change it makes. */
  method HandlePollReply(s: AppState, reply: PollReply, headers: seq<Header>) returns (next: PollNext)
    modifies s
    ensures reply.code != 0 || reply.dataCode.None? ==> next == PollAgain && s.View() == old(s.View())
    ensures reply.code == 0 && reply.dataCode == Some(0) ==>
      next == Stop
      && s.View() == old(s.View()).(cookies := Some(ParseLoginCookies(headers)), loggedIn := true, qrStatus := LoginSucceeded)
    ensures reply.code == 0 && reply.dataCode == Some(86038) ==>
      next == RequestNewQr
      && s.View() == old(s.View()).(qrStatus := QrExpiredRefreshing, qrStarted := false, qrSvg := None, qrcodeKey := None)
    ensures reply.code == 0 && reply.dataCode == Some(86090) ==>
      next == PollAgain && s.View() == old(s.View()).(qrStatus := QrScanned)
    ensures reply.code == 0 && reply.dataCode.Some? && reply.dataCode.value !in {0, 86038, 86090} ==>
      next == PollAgain && s.View() == old(s.View())
  {
    if reply.code != 0 || reply.dataCode.None? {
      return PollAgain;
    }
    var code := reply.dataCode.value;
    if code == 0 {
      var cookies := ParseSetCookies(headers);
      var _ := OnLoginSuccess(s, cookies);
      next := Stop;
    } else if code == 86038 {
      OnQrExpired(s);
      next := RequestNewQr;
    } else if code == 86090 {
      OnQrScanned(s);
      next := PollAgain;
    } else {
      next := PollAgain;
    }
  }
}
