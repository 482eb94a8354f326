/** The URL canonicalizer (`normalize_url`) and the pieces of URL handling
    the normalizers share. A URL arrives already split into its parts; the
    splitting, percent-decoding and percent-encoding themselves are
    collaborators passed in through `Env`. */
module Urls {
  import opened Strings
  import opened QueryOrder
  import opened Results

  /** A URL as `urlparse` splits it. `query` holds the decoded parameters as
      `parse_qs(..., keep_blank_values=True)` reads them, in order of
      appearance, repeated keys and blank values included. The `;params`
      part is omitted: every caller discards it. */
  datatype Url = Url(
    scheme: string,
    netloc: string,
    path: string,
    query: seq<Pair>,
    fragment: string
  )

  /** Standard-library routines the core calls but this model does not
      define. Every property proved here holds whatever they compute. */
  datatype Env = Env(
    parse: string -> Url,          // urlparse, then parse_qs on its query
    quotePlus: string -> string,   // quote_plus, urlencode's default encoder
    unquote: string -> string,     // unquote (percent-decoding)
    sha256Hex: string -> string    // sha256 of the UTF-8 bytes, as hex digits
  )

  /** Both a scheme and a network location: what every URL-based
      normalizer demands. */
  predicate IsAbsolute(u: Url)
  {
    u.scheme != "" && u.netloc != ""
  }

  /** The path a missing path stands for. */
  function DefaultPath(path: string): string
  {
    if path == "" then "/" else path
  }

  /** The shape of a canonical URL: lower-case scheme and host, a path,
      parameters in sorted order, no fragment. */
  predicate IsCanonical(c: Url)
  {
    && IsLower(c.scheme)
    && IsLower(c.netloc)
    && c.path != ""
    && Sorted(c.query)
    && c.fragment == ""
  }

  /** Two URLs that name the same resource for the canonicalizer: they
      differ at most in the case of scheme and host, an empty versus `/`
      path, the order of the query parameters and the fragment. */
  predicate Equivalent(u: Url, v: Url)
  {
    && Lower(u.scheme) == Lower(v.scheme)
    && Lower(u.netloc) == Lower(v.netloc)
    && DefaultPath(u.path) == DefaultPath(v.path)
    && multiset(u.query) == multiset(v.query)
  }

  /** The canonical form of a parsed URL, or `None` when it lacks a scheme
      or a host. */
  function Canonicalize(u: Url): (r: Option<Url>)
    ensures r.None? <==> !IsAbsolute(u)
    ensures r.Some? ==> IsCanonical(r.value) && Equivalent(r.value, u)
  {
    if !IsAbsolute(u) then None
    else
      LowerIdempotent(u.scheme);
      LowerIdempotent(u.netloc);
      Some(Url(Lower(u.scheme), Lower(u.netloc), DefaultPath(u.path), SortPairs(u.query), ""))
  }

  /** Each class of equivalent URLs has exactly one canonical member. */
  lemma CanonicalUnique(c: Url, d: Url)
    requires IsCanonical(c) && IsCanonical(d) && Equivalent(c, d)
    ensures c == d
  {
    LowerOfLower(c.scheme);
    LowerOfLower(d.scheme);
    LowerOfLower(c.netloc);
    LowerOfLower(d.netloc);
    SortedUnique(c.query, d.query);
  }

  lemma LowerOfLower(s: string)
    requires IsLower(s)
    ensures Lower(s) == s
  {
  }

  /** Equivalent absolute URLs canonicalize identically: reordering the
      parameters, changing the case of scheme or host, or adding a fragment
      does not change the result. */
  lemma CanonicalizeIgnoresCosmetics(u: Url, v: Url)
    requires Equivalent(u, v)
    ensures Canonicalize(u) == Canonicalize(v)
  {
    if IsAbsolute(u) {
      assert IsAbsolute(v) by {
        assert |Lower(u.scheme)| == |u.scheme| && |Lower(v.scheme)| == |v.scheme|;
        assert |Lower(u.netloc)| == |u.netloc| && |Lower(v.netloc)| == |v.netloc|;
      }
      CanonicalUnique(Canonicalize(u).value, Canonicalize(v).value);
    } else {
      assert !IsAbsolute(v) by {
        assert |Lower(u.scheme)| == |u.scheme| && |Lower(v.scheme)| == |v.scheme|;
        assert |Lower(u.netloc)| == |u.netloc| && |Lower(v.netloc)| == |v.netloc|;
      }
    }
  }

  /** Canonicalizing a canonical URL gives it back unchanged. */
  lemma CanonicalizeIdempotent(u: Url)
    requires IsAbsolute(u)
    ensures Canonicalize(Canonicalize(u).value) == Canonicalize(u)
  {
    var c := Canonicalize(u).value;
    assert IsAbsolute(c) by {
      assert |c.scheme| == |u.scheme| && |c.netloc| == |u.netloc|;
    }
    CanonicalUnique(Canonicalize(c).value, c);
  }

  /** A URL's text cut at its first `?`, as `urlsplit` separates the query
      once there is no fragment: the text before the `?` and the text after
      it, or the whole text and an empty query when there is no `?`. */
  function CutQuery(s: string): (r: (string, string))
    ensures '?' !in r.0
    ensures '?' in s ==> s == r.0 + "?" + r.1
    ensures '?' !in s ==> r == (s, "")
  {
    if s == "" then ("", "")
    else if s[0] == '?' then
      assert s == "" + "?" + s[1..];
      ("", s[1..])
    else
      var (a, b) := CutQuery(s[1..]);
      assert s == [s[0]] + s[1..];
      ([s[0]] + a, b)
  }

  /** Text without `?` followed by `?` and anything is cut back into the
      two. */
  lemma {:induction false} CutQueryOf(a: string, b: string)
    requires '?' !in a
    ensures CutQuery(a + "?" + b) == (a, b)
    ensures CutQuery(a) == (a, "")
    decreases |a|
  {
    var s := a + "?" + b;
    if a == "" {
      assert s == "?" + b;
    } else {
      assert s[0] == a[0] && s[1..] == a[1..] + "?" + b;
      CutQueryOf(a[1..], b);
      assert [a[0]] + a[1..] == a;
    }
  }

  /** `urlunparse((scheme, netloc, path, "", query, ""))` for a URL with a
      host: `scheme://netloc`, the path (given a leading `/` if it lacks
      one), then `?query` unless the query is empty. When the parts before
      the query hold no `?`, cutting the text at its first `?` gives back
      exactly the query, and before it `scheme://netloc` and the path,
      with a `/` added only to a path that does not start with one. */
  function Unparse(scheme: string, netloc: string, path: string, query: string): (r: string)
    ensures scheme + "://" + netloc <= r
    ensures path != "" ==> scheme + "://" + netloc + "/" <= r
    ensures '?' !in scheme + netloc + path ==> ('?' in r <==> query != "")
    ensures '?' !in scheme + netloc + path ==> CutQuery(r).1 == query
    ensures '?' !in scheme + netloc + path ==>
      CutQuery(r).0 == scheme + "://" + netloc + path
      || (path != "" && path[0] != '/' && CutQuery(r).0 == scheme + "://" + netloc + "/" + path)
  {
    var p := if path != "" && path[0] != '/' then "/" + path else path;
    var q := if query != "" then "?" + query else "";
    UnparseCut(scheme + "://" + netloc + p, query, '?' !in scheme + netloc + path);
    scheme + "://" + netloc + p + q
  }

  lemma UnparseCut(head: string, query: string, clean: bool)
    requires clean ==> '?' !in head
    ensures clean ==> CutQuery(head + (if query != "" then "?" + query else "")) == (head, query)
  {
    if clean {
      CutQueryOf(head, query);
      assert head + ("?" + query) == head + "?" + query;
      assert head + "" == head;
    }
  }

  /** `urlencode(pairs)`: each pair as `key=value` through the encoder,
      joined with `&`. */
  function EncodeQuery(pairs: seq<Pair>, encode: string -> string): (r: string)
    ensures r == "" <==> pairs == []
    ensures pairs != [] && (forall i :: 0 <= i < |pairs| ==> '&' !in Items(pairs, encode)[i]) ==>
      Split(r, '&') == Items(pairs, encode)
  {
    var items := Items(pairs, encode);
    JoinItems(items);
    Join(items, '&')
  }

  /** Non-empty items join to nothing only when there are none, and split
      back apart when none holds the separator. */
  lemma JoinItems(items: seq<string>)
    requires forall i :: 0 <= i < |items| ==> items[i] != ""
    ensures Join(items, '&') == "" <==> items == []
    ensures items != [] && (forall i :: 0 <= i < |items| ==> '&' !in items[i]) ==>
      Split(Join(items, '&'), '&') == items
  {
    if items != [] {
      JoinStart(items, '&');
      if forall i :: 0 <= i < |items| ==> '&' !in items[i] {
        SplitJoin(items, '&');
      }
    }
  }

  /** The `key=value` items of an encoded query, in order. */
  function Items(pairs: seq<Pair>, encode: string -> string): (r: seq<string>)
    ensures |r| == |pairs|
    ensures forall i :: 0 <= i < |pairs| ==> r[i] == encode(pairs[i].0) + "=" + encode(pairs[i].1)
  {
    seq(|pairs|, i requires 0 <= i < |pairs| => encode(pairs[i].0) + "=" + encode(pairs[i].1))
  }

  /** A canonical URL written back as text. */
  function Render(c: Url, encode: string -> string): string
  {
    Unparse(c.scheme, c.netloc, c.path, EncodeQuery(c.query, encode))
  }

  /** `normalize_url`: the text of the canonical form of the stripped
      locator, or `None` when it has no scheme or no host. */
  function NormalizeUrl(env: Env, locator: string): (r: Option<string>)
    ensures r.None? <==> !IsAbsolute(env.parse(Strip(locator)))
    ensures r.Some? ==>
      exists c :: IsCanonical(c) && Equivalent(c, env.parse(Strip(locator))) && r.value == Render(c, env.quotePlus)
  {
    match Canonicalize(env.parse(Strip(locator)))
    case None => None
    case Some(c) => Some(Render(c, env.quotePlus))
  }

  /** Locators whose parses are equivalent normalize to the same text, so
      such URLs deduplicate. */
  lemma NormalizeUrlIgnoresCosmetics(env: Env, a: string, b: string)
    requires Equivalent(env.parse(Strip(a)), env.parse(Strip(b)))
    ensures NormalizeUrl(env, a) == NormalizeUrl(env, b)
  {
    CanonicalizeIgnoresCosmetics(env.parse(Strip(a)), env.parse(Strip(b)));
  }
}
