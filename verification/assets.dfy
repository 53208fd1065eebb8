/**
 * Lookup of embedded asset files. The embedded set is a parameter: a map from
 * name to contents for `get`, and the names in iteration order for `iter`.
 */
module Assets {
  import opened Wrappers
  import Text

  datatype LoadError = AssetNotFound(path: string)

  /** Leading '/' characters, then leading ".\" prefixes, then leading "./" prefixes removed, in that order. */
  function Normalize(path: string): (r: string)
    ensures Text.EndsWith(path, r)
    ensures !Text.StartsWith(r, "./")
  {
    var a := Text.TrimStartMatches(path, "/");
    var b := Text.TrimStartMatches(a, ".\\");
    var c := Text.TrimStartMatches(b, "./");
    Text.EndsWithTrans(path, a, b);
    Text.EndsWithTrans(path, b, c);
    c
  }

  /** The lookup key for a path: the normalised path with at most one "assets/" or, failing that, one "assets\" prefix removed. */
  function AssetKey(path: string): (key: string)
    ensures Text.EndsWith(path, key)
  {
    var normalized := Normalize(path);
    match Text.StripPrefix(normalized, "assets/")
    case Some(stripped) =>
      assert Text.EndsWith(normalized, stripped);
      Text.EndsWithTrans(path, normalized, stripped);
      stripped
    case None =>
      match Text.StripPrefix(normalized, "assets\\")
      case Some(stripped) =>
        assert Text.EndsWith(normalized, stripped);
        Text.EndsWithTrans(path, normalized, stripped);
        stripped
      case None => normalized
  }

  /** Exactly one prefix is removed after normalising: "assets/" if present, else "assets\" if present, else none. */
  lemma AtMostOnePrefixRemoved(path: string)
    ensures var n := Normalize(path);
      && (Text.StartsWith(n, "assets/") ==> n == "assets/" + AssetKey(path))
      && (!Text.StartsWith(n, "assets/") && Text.StartsWith(n, "assets\\") ==> n == "assets\\" + AssetKey(path))
      && (!Text.StartsWith(n, "assets/") && !Text.StartsWith(n, "assets\\") ==> n == AssetKey(path))
  {
  }

  /** A name that needs no normalising and has no "assets" prefix. */
  predicate IsPlainName(name: string) {
    && !Text.StartsWith(name, "/") && !Text.StartsWith(name, ".\\") && !Text.StartsWith(name, "./")
    && !Text.StartsWith(name, "assets/") && !Text.StartsWith(name, "assets\\")
  }

  /** "logo.png" and "assets/logo.png" name the same asset: a plain name is its own key, with or without the "assets/" prefix. */
  lemma AssetsPrefixIsOptional(name: string)
    requires IsPlainName(name)
    ensures AssetKey(name) == name
    ensures AssetKey("assets/" + name) == name
  {
    var p := "assets/" + name;
    assert p[..1] == "a" && p[..2] == "as";
    assert !Text.StartsWith(p, "/") && !Text.StartsWith(p, ".\\") && !Text.StartsWith(p, "./");
    assert p[..|"assets/"|] == "assets/";
    assert p[|"assets/"|..] == name;
  }

  /** Any number of leading slashes is ignored. */
  lemma LeadingSlashIgnored(path: string)
    ensures AssetKey("/" + path) == AssetKey(path)
  {
    var p := "/" + path;
    assert Text.StartsWith(p, "/") && p[1..] == path;
    assert Text.TrimStartMatches(p, "/") == Text.TrimStartMatches(path, "/");
    assert Normalize(p) == Normalize(path);
  }

  /** `load`: the contents of the embedded file named by the key, or an error naming the path; never `Ok(None)`. */
  function Load(embedded: map<string, seq<bv8>>, path: string): (r: Result<Option<seq<bv8>>, LoadError>)
    ensures r.Success? <==> AssetKey(path) in embedded
    ensures r.Success? ==> r.value.Some? && r.value.value == embedded[AssetKey(path)]
    ensures r.Failure? ==> r.error == AssetNotFound(path)
  {
    var key := AssetKey(path);
    if key in embedded then Success(Some(embedded[key])) else Failure(AssetNotFound(path))
  }

  /** `list`: the embedded names that start with `path`, in iteration order. */
  function List(names: seq<string>, path: string): (r: seq<string>)
    ensures |r| <= |names|
    ensures forall x :: x in r <==> x in names && Text.StartsWith(x, path)
  {
    if |names| == 0 then []
    else
      var rest := List(names[1..], path);
      assert forall x :: x in names <==> x == names[0] || x in names[1..];
      (if Text.StartsWith(names[0], path) then [names[0]] else []) + rest
  }

  /** Listing keeps iteration order: the listing of two runs of names is the two listings one after the other. */
  lemma {:induction false} ListKeepsOrder(a: seq<string>, b: seq<string>, path: string)
    ensures List(a + b, path) == List(a, path) + List(b, path)
  {
    if |a| > 0 {
      assert (a + b)[1..] == a[1..] + b;
      ListKeepsOrder(a[1..], b, path);
    } else {
      assert a + b == b;
    }
  }

  /** The empty prefix lists every name. */
  lemma {:induction false} ListAll(names: seq<string>)
    ensures List(names, "") == names
  {
    if |names| > 0 {
      ListAll(names[1..]);
    }
  }
}
