/** The Figma-locator normalizer (`normalize_figma`): a design URL reduced
    to its file key and a `<number>:<number>` node id. */
module FigmaLocators {
  import opened Strings
  import opened QueryOrder
  import opened Results
  import opened Urls

  // ---------------------------------------------------------------------
  // The file key
  // ---------------------------------------------------------------------

  /** The non-empty parts of a string split on `sep`, in order. */
  function NonEmpty(parts: seq<string>): (r: seq<string>)
    ensures forall i :: 0 <= i < |r| ==> r[i] != "" && r[i] in parts
    ensures forall i :: 0 <= i < |parts| && parts[i] != "" ==> parts[i] in r
  {
    if |parts| == 0 then []
    else if parts[0] == "" then NonEmpty(parts[1..])
    else [parts[0]] + NonEmpty(parts[1..])
  }

  /** The non-empty `/`-separated segments of a URL path. */
  function Segments(path: string): (r: seq<string>)
    ensures forall i :: 0 <= i < |r| ==> r[i] != "" && '/' !in r[i]
  {
    var parts := Split(path, '/');
    var r := NonEmpty(parts);
    assert forall i :: 0 <= i < |r| ==> '/' !in r[i] by {
      forall i | 0 <= i < |r| ensures '/' !in r[i] {
        var j :| 0 <= j < |parts| && parts[j] == r[i];
      }
    }
    r
  }

  /** Filtering keeps order and multiplicity: it distributes over
      concatenation, and a single part is kept exactly when it is not
      empty. */
  lemma {:induction false} NonEmptyAppend(a: seq<string>, b: seq<string>)
    ensures NonEmpty(a + b) == NonEmpty(a) + NonEmpty(b)
    ensures |a| == 1 ==> NonEmpty(a) == (if a[0] == "" then [] else a)
    decreases |a|
  {
    if |a| > 0 {
      HeadTailAppend(a, b);
      NonEmptyAppend(a[1..], b);
      if a[0] != "" {
        Assoc([a[0]], NonEmpty(a[1..]), NonEmpty(b));
      }
      if |a| == 1 {
        assert a[1..] == [] && a == [a[0]];
      }
    } else {
      assert a + b == b;
    }
  }

  /** The segments of `a/b` are those of `a` followed by those of `b`. */
  lemma SegmentsAppend(a: string, b: string)
    ensures Segments(a + "/" + b) == Segments(a) + Segments(b)
  {
    SplitAppend(a, b, '/');
    NonEmptyAppend(Split(a, '/'), Split(b, '/'));
  }

  /** A slash-free name is one segment, or none when it is empty. */
  lemma SegmentsOfName(s: string)
    requires '/' !in s
    ensures Segments(s) == (if s == "" then [] else [s])
  {
    SplitWithoutSep(s, '/');
    NonEmptyAppend([s], []);
    assert [s] + [] == [s];
  }

  /** Segment `i` is `design` or `file` and has a segment after it. */
  predicate KeyMarkerAt(segs: seq<string>, i: int)
  {
    0 <= i && i + 1 < |segs| && (segs[i] == "design" || segs[i] == "file")
  }

  /** The segment following the first marker at or after `i`, or `""` when
      there is none. */
  function FindFileKey(segs: seq<string>, i: nat): (r: string)
    requires i <= |segs|
    requires forall k :: 0 <= k < |segs| ==> segs[k] != ""
    ensures r == "" <==> forall k :: i <= k ==> !KeyMarkerAt(segs, k)
    ensures r != "" ==>
      exists k :: i <= k && KeyMarkerAt(segs, k) && r == segs[k + 1] &&
        forall m :: i <= m < k ==> !KeyMarkerAt(segs, m)
    decreases |segs| - i
  {
    if i == |segs| then ""
    else if KeyMarkerAt(segs, i) then segs[i + 1]
    else FindFileKey(segs, i + 1)
  }

  /** The file key of a URL path: the segment after the first `design` or
      `file` segment that is not the last one. */
  function FileKey(path: string): (r: string)
    ensures r != "" ==> '/' !in r
    ensures r == "" <==> forall k :: 0 <= k ==> !KeyMarkerAt(Segments(path), k)
    ensures r != "" ==>
      exists k :: 0 <= k && KeyMarkerAt(Segments(path), k) && r == Segments(path)[k + 1] &&
        forall m :: 0 <= m < k ==> !KeyMarkerAt(Segments(path), m)
  {
    var segs := Segments(path);
    FindFileKey(segs, 0)
  }

  // ---------------------------------------------------------------------
  // The node id
  // ---------------------------------------------------------------------

  /** `query[name][0]`: the first value given for `name`, if any. */
  function FirstValue(query: seq<Pair>, name: string): (r: Option<string>)
    ensures r.None? <==> forall i :: 0 <= i < |query| ==> query[i].0 != name
    ensures r.Some? ==> exists i :: 0 <= i < |query| && query[i] == (name, r.value) &&
                                   (forall j :: 0 <= j < i ==> query[j].0 != name)
  {
    if |query| == 0 then None
    else if query[0].0 == name then
      assert query[0] == (name, query[0].1);
      Some(query[0].1)
    else
      var r := FirstValue(query[1..], name);
      if r.Some? then
        var i :| 0 <= i < |query[1..]| && query[1..][i] == (name, r.value) &&
          forall j :: 0 <= j < i ==> query[1..][j].0 != name;
        assert query[i + 1] == (name, r.value);
        assert forall j :: 0 <= j < i + 1 ==> query[j].0 != name by {
          forall j | 0 <= j < i + 1 ensures query[j].0 != name {
            if j > 0 { assert query[j] == query[1..][j - 1]; }
          }
        }
        r
      else r
  }

  /** The raw node id: the first `node-id` value when the parameter is
      present, even if that value is blank; otherwise the first `node_id`
      value; otherwise `""`. */
  function NodeRaw(query: seq<Pair>): (r: string)
    ensures FirstValue(query, "node-id").Some? ==> r == FirstValue(query, "node-id").value
    ensures FirstValue(query, "node-id").None? && FirstValue(query, "node_id").Some? ==>
      r == FirstValue(query, "node_id").value
    ensures r != "" ==> exists i :: 0 <= i < |query| && query[i].1 == r &&
                                     (query[i].0 == "node-id" || query[i].0 == "node_id")
    ensures r == "" <==>
      (forall i :: 0 <= i < |query| ==> query[i].0 != "node-id" && query[i].0 != "node_id") ||
      FirstValue(query, "node-id") == Some("") ||
      (FirstValue(query, "node-id").None? && FirstValue(query, "node_id") == Some(""))
  {
    match FirstValue(query, "node-id")
    case Some(v) => v
    case None =>
      match FirstValue(query, "node_id")
      case Some(v) => v
      case None => ""
  }

  /** `^[0-9]+<sep>[0-9]+$`: two non-empty runs of ASCII digits around one
      separator. */
  predicate IsDigitPair(s: string, sep: char)
  {
    exists k :: 0 < k < |s| - 1 && s[k] == sep && AllDigits(s[..k]) && AllDigits(s[k + 1..])
  }

  /** Digits around a non-digit separator form a digit pair. */
  lemma DigitPairParts(n: string, m: string, sep: char)
    requires n != "" && m != "" && AllDigits(n) && AllDigits(m) && !IsDigit(sep)
    ensures IsDigitPair(n + [sep] + m, sep)
  {
    var s := n + [sep] + m;
    assert s[..|n|] == n && s[|n| + 1..] == m;
  }

  /** A digit pair splits into its two digit runs. */
  lemma DigitPairSplit(s: string, sep: char) returns (n: string, m: string)
    requires IsDigitPair(s, sep)
    ensures n != "" && m != "" && AllDigits(n) && AllDigits(m)
    ensures s == n + [sep] + m
  {
    var k :| 0 < k < |s| - 1 && s[k] == sep && AllDigits(s[..k]) && AllDigits(s[k + 1..]);
    n, m := s[..k], s[k + 1..];
  }

  /** Rewriting the hyphen of `N-M` gives `N:M`. */
  lemma ReplaceHyphen(n: string, m: string)
    requires AllDigits(n) && AllDigits(m)
    ensures ReplaceChar(n + "-" + m, '-', ':') == n + ":" + m
  {
    var h := n + "-" + m;
    var c := ReplaceChar(h, '-', ':');
    forall i | 0 <= i < |h|
      ensures c[i] == (n + ":" + m)[i]
    {
      if i < |n| {
        assert h[i] == n[i];
      } else if i > |n| {
        assert h[i] == m[i - |n| - 1];
      }
    }
  }

  /** The `N-M` form becomes a `N:M` digit pair. */
  lemma HyphenToColon(s: string)
    requires IsDigitPair(s, '-')
    ensures IsDigitPair(ReplaceChar(s, '-', ':'), ':')
  {
    var n, m := DigitPairSplit(s, '-');
    ReplaceHyphen(n, m);
    DigitPairParts(n, m, ':');
  }

  /** A `N:M` digit pair holds no hyphen, so rewriting hyphens leaves it
      alone and it is not also a `N-M` pair. */
  lemma ColonPairHasNoHyphen(c: string)
    requires IsDigitPair(c, ':')
    ensures !IsDigitPair(c, '-') && ReplaceChar(c, '-', ':') == c
  {
    var k :| 0 < k < |c| - 1 && c[k] == ':' && AllDigits(c[..k]) && AllDigits(c[k + 1..]);
    forall i | 0 <= i < |c|
      ensures c[i] != '-'
    {
      if i < k {
        assert c[i] == c[..k][i];
      } else if i > k {
        assert c[i] == c[k + 1..][i - k - 1];
      }
    }
    assert !IsDigitPair(c, '-');
    assert ReplaceChar(c, '-', ':') == c;
  }

  /** The node id after decoding: stripped, `N-M` rewritten to `N:M`, and
      accepted only in the form `N:M`. An accepted id is the stripped text
      with its hyphen turned into a colon, padding or no padding. */
  function CanonicalNodeId(decoded: string): (r: Option<string>)
    ensures r.Some? <==> IsDigitPair(Strip(decoded), '-') || IsDigitPair(Strip(decoded), ':')
    ensures r.Some? ==> IsDigitPair(r.value, ':')
    ensures r.Some? ==> r.value == ReplaceChar(Strip(decoded), '-', ':')
  {
    var n := Strip(decoded);
    if IsDigitPair(n, '-') then
      HyphenToColon(n);
      Some(ReplaceChar(n, '-', ':'))
    else if IsDigitPair(n, ':') then
      ColonPairHasNoHyphen(n);
      Some(n)
    else None
  }

  /** Only the stripped text matters: padding around the id is ignored. */
  lemma CanonicalNodeIdOfStripped(decoded: string)
    ensures CanonicalNodeId(decoded) == CanonicalNodeId(Strip(decoded))
  {
    StripIdempotent(decoded);
  }

  /** `quote(node_id, safe="")` on a digit pair: digits stay, the colon
      becomes `%3A`. */
  function QuoteNodeId(s: string): (r: string)
    ensures ':' !in r
    ensures ':' !in s ==> r == s
  {
    if s == "" then ""
    else
      var rest := QuoteNodeId(s[1..]);
      assert ':' !in s ==> s == [s[0]] + s[1..];
      (if s[0] == ':' then "%3A" else [s[0]]) + rest
  }

  /** Encoding distributes over concatenation. */
  lemma {:induction false} QuoteAppend(a: string, b: string)
    ensures QuoteNodeId(a + b) == QuoteNodeId(a) + QuoteNodeId(b)
    decreases |a|
  {
    if |a| > 0 {
      HeadTailAppend(a, b);
      QuoteAppend(a[1..], b);
      Assoc(if a[0] == ':' then "%3A" else [a[0]], QuoteNodeId(a[1..]), QuoteNodeId(b));
    } else {
      assert a + b == b;
    }
  }

  /** On `N:M` the colon, and only the colon, becomes `%3A`. */
  lemma QuoteDigitPair(n: string, m: string)
    requires ':' !in n && ':' !in m
    ensures QuoteNodeId(n + ":" + m) == n + "%3A" + m
  {
    QuoteAppend(n + ":", m);
    QuoteAppend(n, ":");
    assert QuoteNodeId(":") == "%3A" by { assert ":"[1..] == ""; }
  }

  // ---------------------------------------------------------------------
  // normalize_figma
  // ---------------------------------------------------------------------

  /** The shape of an accepted Figma locator's fields. */
  predicate IsFigmaFields(f: Fields)
  {
    && f.fileKey != "" && '/' !in f.fileKey
    && IsDigitPair(f.nodeId, ':')
    && f.key == "figma:" + f.fileKey + ":" + f.nodeId
    && f.pageId == "" && f.path == "" && f.line == ""
  }

  /** Every reason `normalize_figma` gives for a rejection. */
  const FigmaReasons: set<string> := {
    "figma locator must be a URL", "figma file key not found",
    "figma node id not found", "figma node id must match <number>:<number>"
  }

  /** `normalize_figma`: the four rejections, checked in this order, each
      exactly when its condition is the first to fail; an accepted locator
      yields the file key, the canonical node id, a key built from both and
      a display URL whose only parameter is the encoded node id. */
  function NormalizeFigma(env: Env, locator: string): (r: Outcome)
    ensures var u := env.parse(Strip(locator));
      && (r == Err("figma locator must be a URL") <==> !IsAbsolute(u))
      && (r == Err("figma file key not found") <==> IsAbsolute(u) && FileKey(u.path) == "")
      && (r == Err("figma node id not found") <==>
            IsAbsolute(u) && FileKey(u.path) != "" && NodeRaw(u.query) == "")
      && (r == Err("figma node id must match <number>:<number>") <==>
            IsAbsolute(u) && FileKey(u.path) != "" && NodeRaw(u.query) != "" &&
            CanonicalNodeId(env.unquote(NodeRaw(u.query))).None?)
    ensures r.Err? ==> r.reason in FigmaReasons
    ensures r.Ok? ==> IsFigmaFields(r.fields)
    ensures r.Ok? ==> var u := env.parse(Strip(locator));
      CanonicalNodeId(env.unquote(NodeRaw(u.query))) == Some(r.fields.nodeId)
    ensures r.Ok? ==> var u := env.parse(Strip(locator));
      r.fields.fileKey == FileKey(u.path) &&
      r.fields.normalized == Unparse(Lower(u.scheme), Lower(u.netloc), u.path, "node-id=" + QuoteNodeId(r.fields.nodeId))
  {
    var u := env.parse(Strip(locator));
    if !IsAbsolute(u) then Err("figma locator must be a URL")
    else
      var fileKey := FileKey(u.path);
      if fileKey == "" then Err("figma file key not found")
      else
        var raw := NodeRaw(u.query);
        if raw == "" then Err("figma node id not found")
        else
          match CanonicalNodeId(env.unquote(raw))
          case None => Err("figma node id must match <number>:<number>")
          case Some(nodeId) =>
            Ok(Fields(
              normalized := Unparse(Lower(u.scheme), Lower(u.netloc), u.path, "node-id=" + QuoteNodeId(nodeId)),
              key := "figma:" + fileKey + ":" + nodeId,
              fileKey := fileKey,
              nodeId := nodeId,
              pageId := "", path := "", line := ""))
  }

  /** The key determines the file key and the node id: two accepted Figma
      locators share a key exactly when both parts agree. */
  lemma FigmaKeyInjective(f: Fields, g: Fields)
    requires IsFigmaFields(f) && IsFigmaFields(g) && f.key == g.key
    ensures f.fileKey == g.fileKey && f.nodeId == g.nodeId
  {
    var nf, mf := DigitPairSplit(f.nodeId, ':');
    var ng, mg := DigitPairSplit(g.nodeId, ':');
    var pf, pg := "figma:" + f.fileKey, "figma:" + g.fileKey;
    assert f.key == (pf + ":" + nf) + ":" + mf;
    assert g.key == (pg + ":" + ng) + ":" + mg;
    LastColonSplit(pf + ":" + nf, mf, pg + ":" + ng, mg);
    LastColonSplit(pf, nf, pg, ng);
    assert f.fileKey == pf[6..] && g.fileKey == pg[6..];
  }

  /** A digit pair that is already stripped is accepted as it stands in
      the `N:M` form. */
  lemma ColonPairAccepted(c: string)
    requires IsDigitPair(c, ':') && Strip(c) == c
    ensures CanonicalNodeId(c) == Some(c)
  {
    ColonPairHasNoHyphen(c);
  }

  /** A stripped `N-M` digit pair is accepted with its hyphen rewritten. */
  lemma HyphenPairAccepted(h: string)
    requires IsDigitPair(h, '-') && Strip(h) == h
    ensures CanonicalNodeId(h) == Some(ReplaceChar(h, '-', ':'))
  {
  }

  /** `N-M` and `N:M` are the same node: after decoding and stripping they
      give the same canonical id. */
  lemma HyphenAndColonAgree(n: string, m: string)
    requires n != "" && m != "" && AllDigits(n) && AllDigits(m)
    ensures CanonicalNodeId(n + "-" + m) == Some(n + ":" + m)
    ensures CanonicalNodeId(n + ":" + m) == Some(n + ":" + m)
  {
    var h, c := n + "-" + m, n + ":" + m;
    DigitPairParts(n, m, '-');
    DigitPairParts(n, m, ':');
    assert h[0] == n[0] && h[|h| - 1] == m[|m| - 1];
    assert c[0] == n[0] && c[|c| - 1] == m[|m| - 1];
    StripOfTrimmed(h);
    StripOfTrimmed(c);
    ReplaceHyphen(n, m);
    HyphenPairAccepted(h);
    ColonPairAccepted(c);
  }

  /** A decoded id that strips to `N-M` or `N:M` gives `N:M`, so padding
      such as the space a `+` decodes to does not change the node. */
  lemma PaddedPairAgree(decoded: string, n: string, m: string)
    requires n != "" && m != "" && AllDigits(n) && AllDigits(m)
    requires Strip(decoded) == n + "-" + m || Strip(decoded) == n + ":" + m
    ensures CanonicalNodeId(decoded) == Some(n + ":" + m)
  {
    CanonicalNodeIdOfStripped(decoded);
    HyphenAndColonAgree(n, m);
  }

  /** Two links to the same file that spell the node id `N-M` and `N:M`
      normalize identically, so they deduplicate. */
  lemma HyphenAndColonShareKey(env: Env, a: string, b: string, n: string, m: string)
    requires env.parse(Strip(a)).scheme == env.parse(Strip(b)).scheme
    requires env.parse(Strip(a)).netloc == env.parse(Strip(b)).netloc
    requires env.parse(Strip(a)).path == env.parse(Strip(b)).path
    requires n != "" && m != "" && AllDigits(n) && AllDigits(m)
    requires NodeRaw(env.parse(Strip(a)).query) != "" && NodeRaw(env.parse(Strip(b)).query) != ""
    requires env.unquote(NodeRaw(env.parse(Strip(a)).query)) == n + "-" + m
    requires env.unquote(NodeRaw(env.parse(Strip(b)).query)) == n + ":" + m
    ensures NormalizeFigma(env, a) == NormalizeFigma(env, b)
    ensures NormalizeFigma(env, a).Ok? ==> NormalizeFigma(env, a).fields.nodeId == n + ":" + m
  {
    HyphenAndColonAgree(n, m);
  }

  /** A `node-id` parameter with a blank value hides any `node_id`: the
      locator is rejected for a missing node id. */
  lemma BlankNodeIdShadows(env: Env, locator: string)
    requires IsAbsolute(env.parse(Strip(locator)))
    requires FileKey(env.parse(Strip(locator)).path) != ""
    requires FirstValue(env.parse(Strip(locator)).query, "node-id") == Some("")
    ensures NormalizeFigma(env, locator) == Err("figma node id not found")
  {
  }
}
