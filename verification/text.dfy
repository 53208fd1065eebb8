/** The parts of Rust's `str` API the core relies on, over `seq<char>`. */
module Text {
  import opened Wrappers

  /** `str::starts_with`: `s` is `prefix` followed by the rest of `s`. */
  predicate StartsWith(s: string, prefix: string)
  {
    |prefix| <= |s| && s[..|prefix|] == prefix
  }

  /** `str::ends_with`: `s` is the front of `s` followed by `suffix`. */
  predicate EndsWith(s: string, suffix: string)
  {
    |suffix| <= |s| && s[|s| - |suffix|..] == suffix
  }

  lemma EndsWithTrans(a: string, b: string, c: string)
    requires EndsWith(a, b) && EndsWith(b, c)
    ensures EndsWith(a, c)
  {
    assert a[|a| - |c|..] == a[|a| - |b|..][|b| - |c|..];
  }

  /** `char::to_ascii_lowercase`. */
  function AsciiLower(c: char): char {
    if 'A' <= c <= 'Z' then (c as int + 32) as char else c
  }

  /**
   * `str::to_lowercase`, restricted to ASCII letters. The only suffixes the
   * core checks for (".webp", ".gif") are ASCII, and no non-ASCII character
   * lower-cases to a string ending in one of their letters.
   */
  function Lowercase(s: string): (r: string)
    ensures |r| == |s|
    ensures forall i :: 0 <= i < |r| ==> !IsAsciiUpper(r[i])
    ensures forall i :: 0 <= i < |s| ==> (r[i] != s[i] <==> IsAsciiUpper(s[i]))
    ensures forall i :: 0 <= i < |s| && IsAsciiUpper(s[i]) ==> 'a' <= r[i] <= 'z' && r[i] as int - s[i] as int == 'a' as int - 'A' as int
  {
    seq(|s|, i requires 0 <= i < |s| => AsciiLower(s[i]))
  }

  predicate IsAsciiUpper(c: char) {
    'A' <= c <= 'Z'
  }

  /** Lower-casing twice is lower-casing once. */
  lemma LowercaseIdempotent(s: string)
    ensures Lowercase(Lowercase(s)) == Lowercase(s)
  {
    var r := Lowercase(s);
    assert forall i :: 0 <= i < |r| ==> Lowercase(r)[i] == r[i];
  }

  /** `str::eq_ignore_ascii_case`: equal lengths, and the characters agree position by position once ASCII capitals are lowered. */
  predicate EqIgnoreAsciiCase(a: string, b: string)
    ensures EqIgnoreAsciiCase(a, b) <==> |a| == |b| && forall i :: 0 <= i < |a| ==> AsciiLower(a[i]) == AsciiLower(b[i])
  {
    Lowercase(a) == Lowercase(b)
  }

  /** `str::strip_prefix`. */
  function StripPrefix(s: string, prefix: string): (r: Option<string>)
    ensures r.Some? <==> StartsWith(s, prefix)
    ensures r.Some? ==> s == prefix + r.value
  {
    if StartsWith(s, prefix) then Some(s[|prefix|..]) else None
  }

  /** `n` copies of `pat`, one after another. */
  function Repeat(pat: string, n: nat): string {
    if n == 0 then [] else pat + Repeat(pat, n - 1)
  }

  /** How many leading copies of `pat` `trim_start_matches` removes. */
  function MatchCount(s: string, pat: string): nat
    requires |pat| > 0
    decreases |s|
  {
    if StartsWith(s, pat) then 1 + MatchCount(s[|pat|..], pat) else 0
  }

  /** `str::trim_start_matches` with a non-empty pattern. */
  function TrimStartMatches(s: string, pat: string): (r: string)
    requires |pat| > 0
    ensures EndsWith(s, r)
    ensures !StartsWith(r, pat)
    decreases |s|
  {
    if StartsWith(s, pat) then
      var r := TrimStartMatches(s[|pat|..], pat);
      assert s[|s| - |r|..] == s[|pat|..][|s| - |pat| - |r|..];
      r
    else s
  }

  /** What `trim_start_matches` removes is exactly a run of copies of the pattern. */
  lemma {:induction false} TrimStartMatchesRemovesCopies(s: string, pat: string)
    requires |pat| > 0
    ensures s == Repeat(pat, MatchCount(s, pat)) + TrimStartMatches(s, pat)
    decreases |s|
  {
    if StartsWith(s, pat) {
      var rest := s[|pat|..];
      TrimStartMatchesRemovesCopies(rest, pat);
      PrefixThenSplit(s, pat, Repeat(pat, MatchCount(rest, pat)), TrimStartMatches(rest, pat));
    }
  }

  /** A string that starts with `pat` and continues with `a + b` is `(pat + a) + b`. */
  lemma PrefixThenSplit(s: string, pat: string, a: string, b: string)
    requires StartsWith(s, pat) && s[|pat|..] == a + b
    ensures s == (pat + a) + b
  {
    assert s == s[..|pat|] + s[|pat|..];
  }

  /** `char::is_whitespace`: the Unicode White_Space property. */
  predicate IsWhitespace(c: char) {
    var k := c as int;
    (0x09 <= k <= 0x0D) || k == 0x20 || k == 0x85 || k == 0xA0 || k == 0x1680
    || (0x2000 <= k <= 0x200A) || k == 0x2028 || k == 0x2029 || k == 0x202F
    || k == 0x205F || k == 0x3000
  }

  function TrimStart(s: string): (r: string)
    ensures EndsWith(s, r)
    ensures r == [] || !IsWhitespace(r[0])
    ensures forall i :: 0 <= i < |s| - |r| ==> IsWhitespace(s[i])
  {
    if |s| > 0 && IsWhitespace(s[0]) then
      var r := TrimStart(s[1..]);
      assert s[|s| - |r|..] == s[1..][|s| - 1 - |r|..];
      r
    else s
  }

  function TrimEnd(s: string): (r: string)
    ensures StartsWith(s, r)
    ensures r == [] || !IsWhitespace(r[|r| - 1])
    ensures forall i :: |r| <= i < |s| ==> IsWhitespace(s[i])
  {
    if |s| > 0 && IsWhitespace(s[|s| - 1]) then
      var r := TrimEnd(s[..|s| - 1]);
      assert s[..|r|] == s[..|s| - 1][..|r|];
      r
    else s
  }

  /** `r` sits at offset `k` of `s` with only whitespace before and after it. */
  predicate Trimmed(s: string, k: int, r: string) {
    && 0 <= k && k + |r| <= |s| && s[k..k + |r|] == r
    && (forall i :: 0 <= i < k ==> IsWhitespace(s[i]))
    && (forall i :: k + |r| <= i < |s| ==> IsWhitespace(s[i]))
  }

  /** `str::trim`: the part of `s` left after its leading and trailing whitespace, itself neither starting nor ending with whitespace. */
  function Trim(s: string): (r: string)
    ensures r == [] || (!IsWhitespace(r[0]) && !IsWhitespace(r[|r| - 1]))
  {
    TrimEnd(TrimStart(s))
  }

  /** `trim` cuts its result out of `s` with only whitespace around it. */
  lemma TrimCutsWhitespace(s: string)
    ensures exists k :: Trimmed(s, k, Trim(s))
  {
    TrimmedWitness(s, TrimStart(s), Trim(s));
  }

  /** Whitespace cut from the front of `s`, then from the back of what is left, leaves `r` trimmed out of `s`. */
  lemma TrimmedWitness(s: string, t: string, r: string)
    requires EndsWith(s, t) && StartsWith(t, r)
    requires forall i :: 0 <= i < |s| - |t| ==> IsWhitespace(s[i])
    requires forall i :: |r| <= i < |t| ==> IsWhitespace(t[i])
    ensures Trimmed(s, |s| - |t|, r)
  {
    var k := |s| - |t|;
    assert s[k..] == t;
    assert s[k..k + |r|] == t[..|r|];
    forall i | k + |r| <= i < |s|
      ensures IsWhitespace(s[i])
    {
      assert s[i] == t[i - k];
    }
  }

  /** Trimming twice is trimming once. */
  lemma TrimIdempotent(s: string)
    ensures Trim(Trim(s)) == Trim(s)
  {
    if Trim(s) != [] {
      TrimAfterBlank(Trim(s));
    }
  }

  /** Whitespace in front of a string that neither starts nor ends with whitespace is all `trim` removes. */
  lemma TrimAfterBlank(p: string)
    requires |p| > 0 && !IsWhitespace(p[0]) && !IsWhitespace(p[|p| - 1])
    ensures Trim(p) == p
    ensures Trim(" " + p) == p
  {
    assert (" " + p)[1..] == p;
  }

  /** Pieces joined with a separator between each pair, as `[T]::join`. */
  function Join(parts: seq<string>, sep: string): string {
    if |parts| == 0 then ""
    else if |parts| == 1 then parts[0]
    else parts[0] + sep + Join(parts[1..], sep)
  }

  /** A join starts with its first piece and ends with its last. */
  lemma {:induction false} JoinEnds(parts: seq<string>, sep: string)
    requires |parts| >= 1
    ensures StartsWith(Join(parts, sep), parts[0])
    ensures EndsWith(Join(parts, sep), parts[|parts| - 1])
  {
    if |parts| > 1 {
      JoinEnds(parts[1..], sep);
      var tail := Join(parts[1..], sep);
      var last := parts[|parts| - 1];
      var r := parts[0] + sep + tail;
      assert r[..|parts[0]|] == parts[0];
      assert r[|r| - |last|..] == tail[|tail| - |last|..];
    }
  }

  /** A leading empty piece puts one separator in front of the join. */
  lemma JoinEmptyFirst(rest: seq<string>, sep: string)
    requires |rest| >= 1
    ensures Join([""] + rest, sep) == sep + Join(rest, sep)
  {
    assert ([""] + rest)[1..] == rest;
  }

  /** Extending the first piece by one character extends the join by it. */
  lemma JoinExtendFirst(c: char, rest: seq<string>, sep: string)
    requires |rest| >= 1
    ensures Join([[c] + rest[0]] + rest[1..], sep) == [c] + Join(rest, sep)
  {
    var parts := [[c] + rest[0]] + rest[1..];
    assert parts[1..] == rest[1..];
    if |rest| > 1 {
      assert Join(parts, sep) == ([c] + rest[0]) + sep + Join(rest[1..], sep);
      assert Join(rest, sep) == rest[0] + sep + Join(rest[1..], sep);
    }
  }

  /** `str::split` on a character: never empty, no piece holds the separator, and joining the pieces gives back the input. */
  function Split(s: string, sep: char): (r: seq<string>)
    ensures |r| >= 1
    ensures forall i :: 0 <= i < |r| ==> sep !in r[i]
    ensures Join(r, [sep]) == s
  {
    if |s| == 0 then [""]
    else
      var rest := Split(s[1..], sep);
      assert s == [s[0]] + s[1..];
      if s[0] == sep then
        JoinEmptyFirst(rest, [sep]);
        [""] + rest
      else
        JoinExtendFirst(s[0], rest, [sep]);
        var r := [[s[0]] + rest[0]] + rest[1..];
        assert forall i :: 1 <= i < |r| ==> r[i] == rest[i];
        r
  }

  /** A string without the separator is one piece. */
  lemma {:induction false} SplitWithoutSeparator(p: string, sep: char)
    requires sep !in p
    ensures Split(p, sep) == [p]
  {
    if |p| > 0 {
      assert sep !in p[1..];
      SplitWithoutSeparator(p[1..], sep);
      assert p == [p[0]] + p[1..];
    }
  }

  /** The first separator ends the first piece. */
  lemma {:induction false} SplitAtFirstSeparator(p: string, t: string, sep: char)
    requires sep !in p
    ensures Split(p + [sep] + t, sep) == [p] + Split(t, sep)
  {
    if |p| == 0 {
      assert p + [sep] + t == [sep] + t;
      assert ([sep] + t)[1..] == t;
    } else {
      var s := p + [sep] + t;
      assert s[0] == p[0] && s[1..] == p[1..] + [sep] + t;
      assert sep !in p[1..];
      SplitAtFirstSeparator(p[1..], t, sep);
      assert p == [p[0]] + p[1..];
    }
  }

  /** `pad` put in front of every string. */
  function Padded(pad: string, ps: seq<string>): (r: seq<string>)
    ensures |r| == |ps|
    ensures forall i :: 0 <= i < |ps| ==> r[i] == pad + ps[i]
  {
    seq(|ps|, i requires 0 <= i < |ps| => pad + ps[i])
  }

  /**
   * Splitting pieces joined with "<sep><fill>" gives the pieces back, every one
   * after the first still carrying the fill character in front.
   */
  lemma {:induction false} SplitJoined(ps: seq<string>, sep: char, fill: char)
    requires |ps| >= 1
    requires sep != fill
    requires forall i :: 0 <= i < |ps| ==> sep !in ps[i]
    ensures Split(Join(ps, [sep, fill]), sep) == [ps[0]] + Padded([fill], ps[1..])
  {
    if |ps| == 1 {
      SplitWithoutSeparator(ps[0], sep);
    } else {
      var rest := ps[1..];
      var tail := Join(rest, [sep, fill]);
      assert Join(ps, [sep, fill]) == ps[0] + [sep] + ([fill] + tail);
      SplitAtFirstSeparator(ps[0], [fill] + tail, sep);
      SplitJoined(rest, sep, fill);
      var st := Split(tail, sep);
      assert ([fill] + tail)[0] == fill && ([fill] + tail)[1..] == tail;
      assert Split([fill] + tail, sep) == [[fill] + st[0]] + st[1..];
      assert st == [rest[0]] + Padded([fill], rest[1..]);
      assert [[fill] + st[0]] + st[1..] == Padded([fill], rest);
    }
  }

  /** `str::split_once` on a character: the text before and after its first occurrence. */
  function SplitOnce(s: string, c: char): (r: Option<(string, string)>)
    ensures r.None? <==> c !in s
    ensures r.Some? ==> c !in r.value.0 && s == r.value.0 + [c] + r.value.1
  {
    if |s| == 0 then None
    else if s[0] == c then Some(([], s[1..]))
    else
      match SplitOnce(s[1..], c)
      case None => None
      case Some((k, v)) =>
        assert s == [s[0]] + s[1..];
        Some(([s[0]] + k, v))
  }

  /** Splitting "name=value" at the first '=' recovers both halves when the name holds no '='. */
  lemma {:induction false} SplitOnceAt(name: string, value: string, c: char)
    requires c !in name
    ensures SplitOnce(name + [c] + value, c) == Some((name, value))
  {
    if |name| == 0 {
      assert name + [c] + value == [c] + value;
    } else {
      assert c !in name[1..];
      SplitOnceAt(name[1..], value, c);
      assert (name + [c] + value)[1..] == name[1..] + [c] + value;
      assert name == [name[0]] + name[1..];
    }
  }
}
