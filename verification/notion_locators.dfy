/** The Notion-locator normalizer (`normalize_notion`): a page id found
    anywhere in the locator, plus the section named by the URL fragment. */
module NotionLocators {
  import opened Strings
  import opened Results
  import opened Urls

  // ---------------------------------------------------------------------
  // The two page-id patterns
  // ---------------------------------------------------------------------

  predicate IsHex(c: char)
  {
    IsDigit(c) || ('a' <= c <= 'f') || ('A' <= c <= 'F')
  }

  predicate AllHex(s: string)
  {
    forall i :: 0 <= i < |s| ==> IsHex(s[i])
  }

  /** `8-4-4-4-12` hex digits: hyphens at offsets 8, 13, 18 and 23. */
  predicate UuidShape(w: string)
  {
    && |w| == 36
    && forall j :: 0 <= j < 36 ==>
         if j == 8 || j == 13 || j == 18 || j == 23 then w[j] == '-' else IsHex(w[j])
  }

  /** NOTION_UUID_RE matches `s` at index `i`. */
  predicate UuidAt(s: string, i: int)
  {
    0 <= i && i + 36 <= |s| && UuidShape(s[i..i + 36])
  }

  /** NOTION_HEX32_RE matches `s` at index `i`: 32 hex digits with no hex
      digit directly before or after them. */
  predicate Hex32At(s: string, i: int)
  {
    && 0 <= i && i + 32 <= |s|
    && AllHex(s[i..i + 32])
    && (i == 0 || !IsHex(s[i - 1]))
    && (i + 32 == |s| || !IsHex(s[i + 32]))
  }

  datatype Pattern = Uuid | Hex32

  function Width(pat: Pattern): nat
  {
    match pat
    case Uuid => 36
    case Hex32 => 32
  }

  predicate MatchAt(pat: Pattern, s: string, i: int)
  {
    match pat
    case Uuid => UuidAt(s, i)
    case Hex32 => Hex32At(s, i)
  }

  /** What a scan from index `p` reports: the start of every match it
      meets, scanning left to right and resuming each search just past the
      previous match. The starts ascend without overlap; no match starts
      before the first one, between the end of one and the start of the
      next, or anywhere past the end of the last one. */
  ghost predicate Scanned(pat: Pattern, s: string, p: nat, r: seq<nat>)
  {
    ScanStarts(pat, s, p, r) && ScanGaps(pat, s, r) && ScanEnds(pat, s, p, r)
  }

  /** The reported starts are matches from `p` on, ascending without
      overlap. */
  ghost predicate ScanStarts(pat: Pattern, s: string, p: nat, r: seq<nat>)
  {
    && (forall k :: 0 <= k < |r| ==> p <= r[k] && MatchAt(pat, s, r[k]))
    && (forall k :: 0 <= k < |r| - 1 ==> r[k] + Width(pat) <= r[k + 1])
  }

  /** No match starts between the end of one reported match and the start
      of the next. */
  ghost predicate ScanGaps(pat: Pattern, s: string, r: seq<nat>)
  {
    forall k, j :: 0 <= k < |r| - 1 && r[k] + Width(pat) <= j < r[k + 1] ==> !MatchAt(pat, s, j)
  }

  /** Nothing is reported only when no match starts from `p` on; otherwise
      no match starts before the first report or past the end of the
      last. */
  ghost predicate ScanEnds(pat: Pattern, s: string, p: nat, r: seq<nat>)
  {
    && (|r| == 0 <==> forall j :: p <= j ==> !MatchAt(pat, s, j))
    && (|r| > 0 ==> forall j :: p <= j < r[0] ==> !MatchAt(pat, s, j))
    && (|r| > 0 ==> forall j :: r[|r| - 1] + Width(pat) <= j ==> !MatchAt(pat, s, j))
  }

  /** `finditer` from index `p`. */
  function FindIter(pat: Pattern, s: string, p: nat): (r: seq<nat>)
    requires p <= |s|
    ensures Scanned(pat, s, p, r)
    decreases |s| - p
  {
    if p + Width(pat) > |s| then
      NoRoomNoMatch(pat, s, p);
      []
    else if MatchAt(pat, s, p) then
      var rest := FindIter(pat, s, p + Width(pat));
      ScanHit(pat, s, p, rest);
      [p] + rest
    else
      var rest := FindIter(pat, s, p + 1);
      ScanMiss(pat, s, p, rest);
      rest
  }

  /** A match at `p` heads the report; the scan resumes past it. */
  lemma ScanHit(pat: Pattern, s: string, p: nat, rest: seq<nat>)
    requires MatchAt(pat, s, p) && Scanned(pat, s, p + Width(pat), rest)
    ensures Scanned(pat, s, p, [p] + rest)
  {
    ScanHitStarts(pat, s, p, rest);
    ScanHitGaps(pat, s, p, rest);
    ScanHitEnds(pat, s, p, rest);
  }

  lemma ScanHitStarts(pat: Pattern, s: string, p: nat, rest: seq<nat>)
    requires MatchAt(pat, s, p) && ScanStarts(pat, s, p + Width(pat), rest)
    requires |rest| > 0 ==> p + Width(pat) <= rest[0]
    ensures ScanStarts(pat, s, p, [p] + rest)
  {
    var r := [p] + rest;
    assert forall k :: 1 <= k < |r| ==> r[k] == rest[k - 1];
  }

  lemma ScanHitGaps(pat: Pattern, s: string, p: nat, rest: seq<nat>)
    requires ScanGaps(pat, s, rest)
    requires |rest| > 0 ==> forall j :: p + Width(pat) <= j < rest[0] ==> !MatchAt(pat, s, j)
    ensures ScanGaps(pat, s, [p] + rest)
  {
    var r := [p] + rest;
    forall k, j | 0 <= k < |r| - 1 && r[k] + Width(pat) <= j < r[k + 1]
      ensures !MatchAt(pat, s, j)
    {
      if k > 0 {
        assert r[k] == rest[k - 1] && r[k + 1] == rest[k];
      }
    }
  }

  lemma ScanHitEnds(pat: Pattern, s: string, p: nat, rest: seq<nat>)
    requires MatchAt(pat, s, p) && ScanEnds(pat, s, p + Width(pat), rest)
    ensures ScanEnds(pat, s, p, [p] + rest)
  {
    var r := [p] + rest;
    if |rest| > 0 {
      assert r[|r| - 1] == rest[|rest| - 1];
    }
  }

  /** No match at `p`: the scan moves on by one. */
  lemma ScanMiss(pat: Pattern, s: string, p: nat, rest: seq<nat>)
    requires !MatchAt(pat, s, p) && Scanned(pat, s, p + 1, rest)
    ensures Scanned(pat, s, p, rest)
  {
  }

  /** A match needs `Width(pat)` characters from its start. */
  lemma NoRoomNoMatch(pat: Pattern, s: string, p: nat)
    requires p + Width(pat) > |s|
    ensures forall j :: p <= j ==> !MatchAt(pat, s, j)
  {
  }

  /** Isolated 32-digit runs never overlap, so the last one the scan finds
      is the last one anywhere. */
  lemma Hex32Disjoint(s: string, i: int, j: int)
    requires Hex32At(s, i) && i < j < i + 32
    ensures !Hex32At(s, j)
  {
    assert s[j - 1] == s[i..i + 32][j - 1 - i];
  }

  // ---------------------------------------------------------------------
  // Page ids
  // ---------------------------------------------------------------------

  /** Python's `s.replace("-", "")`. */
  function RemoveHyphens(s: string): (r: string)
    ensures '-' !in r
    ensures forall i :: 0 <= i < |r| ==> r[i] in s
  {
    if s == "" then ""
    else
      var rest := RemoveHyphens(s[1..]);
      assert forall i :: 0 <= i < |rest| ==> rest[i] in s by {
        forall i | 0 <= i < |rest| ensures rest[i] in s {
          var j :| 0 <= j < |s[1..]| && s[1..][j] == rest[i];
          assert s[j + 1] == rest[i];
        }
      }
      (if s[0] == '-' then "" else [s[0]]) + rest
  }

  lemma {:induction false} RemoveHyphensNone(a: string)
    requires '-' !in a
    ensures RemoveHyphens(a) == a
    decreases |a|
  {
    if a != "" {
      RemoveHyphensNone(a[1..]);
      assert [a[0]] + a[1..] == a;
    }
  }

  /** Dropping hyphens passes a hyphen-free prefix through and removes the
      hyphen after it. */
  lemma {:induction false} RemoveHyphensSkip(a: string, rest: string)
    requires '-' !in a
    ensures RemoveHyphens(a + "-" + rest) == a + RemoveHyphens(rest)
    decreases |a|
  {
    var s := a + "-" + rest;
    if a == "" {
      assert s[1..] == rest;
    } else {
      assert s[0] == a[0];
      assert s[1..] == a[1..] + "-" + rest;
      RemoveHyphensSkip(a[1..], rest);
      assert [a[0]] + a[1..] == a;
    }
  }

  /** The 32 hex digits of a UUID, hyphens dropped. */
  lemma UuidDigits(w: string)
    requires UuidShape(w)
    ensures AllHex(RemoveHyphens(w)) && |RemoveHyphens(w)| == 32
  {
    UuidDigitsHex(w);
    HyphenFreeSlice(w, 0, 8);
    HyphenFreeSlice(w, 9, 13);
    HyphenFreeSlice(w, 14, 18);
    HyphenFreeSlice(w, 19, 23);
    HyphenFreeSlice(w, 24, 36);
    RemoveHyphensNone(w[24..]);
    HyphenStep(w, 19, 4);
    HyphenStep(w, 14, 4);
    HyphenStep(w, 9, 4);
    HyphenStep(w, 0, 8);
    assert w[0..] == w;
  }

  /** Dropping a UUID's hyphens leaves only hex digits. */
  lemma UuidDigitsHex(w: string)
    requires UuidShape(w)
    ensures AllHex(RemoveHyphens(w))
  {
    var r := RemoveHyphens(w);
    forall i | 0 <= i < |r|
      ensures IsHex(r[i])
    {
      var j :| 0 <= j < |w| && w[j] == r[i];
    }
  }

  /** A hyphen-free group of `g` characters at offset `k` of a text,
      followed by a hyphen: dropping hyphens keeps the group. */
  lemma HyphenStep(w: string, k: nat, g: nat)
    requires k + g < |w| && w[k + g] == '-' && '-' !in w[k..k + g]
    ensures |RemoveHyphens(w[k..])| == g + |RemoveHyphens(w[k + g + 1..])|
  {
    var t := w[k..];
    assert t[..g] == w[k..k + g] && t[g + 1..] == w[k + g + 1..];
    SplitAtHyphen(t, g);
    RemoveHyphensSkip(t[..g], t[g + 1..]);
  }

  /** A text is what comes before a hyphen in it, the hyphen and what
      comes after. */
  lemma SplitAtHyphen(s: string, k: nat)
    requires k < |s| && s[k] == '-'
    ensures s == s[..k] + "-" + s[k + 1..]
  {
    assert s[k..k + 1] == "-";
    assert s == s[..k] + s[k..k + 1] + s[k + 1..];
  }

  /** Between the hyphens a UUID holds only hex digits. */
  lemma HyphenFreeSlice(w: string, lo: nat, hi: nat)
    requires UuidShape(w) && lo <= hi <= 36
    requires hi <= 8 || (9 <= lo && hi <= 13) || (14 <= lo && hi <= 18) || (19 <= lo && hi <= 23) || 24 <= lo
    ensures '-' !in w[lo..hi]
  {
    forall i | 0 <= i < hi - lo
      ensures w[lo..hi][i] != '-'
    {
      var j := lo + i;
      assert w[lo..hi][i] == w[j];
      assert j != 8 && j != 13 && j != 18 && j != 23;
      assert IsHex(w[j]);
    }
  }

  /** A page id as the key spells it: 32 lower-case hex digits. */
  predicate IsPageId(s: string)
  {
    |s| == 32 && AllHex(s) && IsLower(s)
  }

  lemma LowerHex(s: string)
    requires |s| == 32 && AllHex(s)
    ensures IsPageId(Lower(s))
  {
  }

  /** The page id a match stands for: the matched text, lower-cased, with
      a UUID's hyphens dropped. */
  function PageIdAt(pat: Pattern, s: string, i: nat): (r: string)
    requires MatchAt(pat, s, i)
    ensures IsPageId(r)
  {
    match pat
    case Uuid =>
      UuidDigits(s[i..i + 36]);
      LowerHex(RemoveHyphens(s[i..i + 36]));
      Lower(RemoveHyphens(s[i..i + 36]))
    case Hex32 =>
      LowerHex(s[i..i + 32]);
      Lower(s[i..i + 32])
  }

  /** The page ids of the matches of one pattern, in scan order. */
  function IdsOf(pat: Pattern, value: string): (r: seq<string>)
    ensures |r| == |FindIter(pat, value, 0)|
    ensures forall k :: 0 <= k < |r| ==> IsPageId(r[k])
    ensures forall k :: 0 <= k < |r| ==> r[k] == PageIdAt(pat, value, FindIter(pat, value, 0)[k])
  {
    var ms := FindIter(pat, value, 0);
    seq(|ms|, k requires 0 <= k < |ms| => PageIdAt(pat, value, ms[k]))
  }

  /** The scan from the start finds nothing exactly when the pattern
      matches nowhere. */
  lemma NoMatchAnywhere(pat: Pattern, value: string)
    ensures |FindIter(pat, value, 0)| == 0 <==> forall i :: !MatchAt(pat, value, i)
    ensures pat == Uuid ==> (|FindIter(pat, value, 0)| == 0 <==> forall i :: !UuidAt(value, i))
    ensures pat == Hex32 ==> (|FindIter(pat, value, 0)| == 0 <==> forall i :: !Hex32At(value, i))
  {
    var ms := FindIter(pat, value, 0);
    if |ms| > 0 {
      assert MatchAt(pat, value, ms[0]);
    } else {
      forall i
        ensures !UuidAt(value, i) || pat != Uuid
        ensures !Hex32At(value, i) || pat != Hex32
      {
        assert !MatchAt(pat, value, i);
      }
    }
  }

  /** Every page id the locator offers: those of the UUID matches, then
      those of the 32-digit matches, each group in scan order. */
  function Candidates(value: string): (r: seq<string>)
    ensures forall k :: 0 <= k < |r| ==> IsPageId(r[k])
    ensures |r| == 0 <==> forall i :: !UuidAt(value, i) && !Hex32At(value, i)
  {
    NoMatchAnywhere(Uuid, value);
    NoMatchAnywhere(Hex32, value);
    IdsOf(Uuid, value) + IdsOf(Hex32, value)
  }

  /** `hs[-1]` is the final 32-digit match: none starts after it. */
  ghost predicate LastHex32(s: string, i: int)
  {
    Hex32At(s, i) && forall j :: i < j ==> !Hex32At(s, j)
  }

  /** The last 32-digit match the scan finds is the last one anywhere. */
  lemma LastScannedHex32(value: string)
    requires |FindIter(Hex32, value, 0)| > 0
    ensures LastHex32(value, FindIter(Hex32, value, 0)[|FindIter(Hex32, value, 0)| - 1])
  {
    var hs := FindIter(Hex32, value, 0);
    var l := hs[|hs| - 1];
    assert MatchAt(Hex32, value, l);
    forall j | l < j
      ensures !Hex32At(value, j)
    {
      if j < l + 32 {
        Hex32Disjoint(value, l, j);
      } else {
        assert !MatchAt(Hex32, value, j);
      }
    }
  }

  /** The last candidate: the last 32-digit match when there is one, even
      if a UUID appears after it, and otherwise the last UUID the scan
      found. */
  lemma LastCandidate(value: string)
    requires |Candidates(value)| > 0
    ensures (exists i :: Hex32At(value, i)) ==>
      exists i :: LastHex32(value, i) && Candidates(value)[|Candidates(value)| - 1] == PageIdAt(Hex32, value, i)
    ensures (forall i :: !Hex32At(value, i)) ==>
      var us := FindIter(Uuid, value, 0);
      |us| > 0 && Candidates(value)[|Candidates(value)| - 1] == PageIdAt(Uuid, value, us[|us| - 1])
  {
    var c, u, h := Candidates(value), IdsOf(Uuid, value), IdsOf(Hex32, value);
    var hs := FindIter(Hex32, value, 0);
    assert c == u + h;
    NoMatchAnywhere(Hex32, value);
    if |h| > 0 {
      var l := hs[|hs| - 1];
      LastScannedHex32(value);
      assert c[|c| - 1] == h[|h| - 1] == PageIdAt(Hex32, value, l);
      assert LastHex32(value, l);
    } else {
      assert c == u;
    }
  }

  // ---------------------------------------------------------------------
  // normalize_notion
  // ---------------------------------------------------------------------

  /** The section: the stripped fragment of a URL with a scheme and a host,
      `root` when it is missing or blank, and `root` for anything that is
      not such a URL. */
  function Section(u: Url): (r: string)
    ensures r != ""
    ensures r != "root" ==> IsAbsolute(u) && r == Strip(u.fragment)
    ensures IsAbsolute(u) && Strip(u.fragment) != "" ==> r == Strip(u.fragment)
  {
    if IsAbsolute(u) && u.fragment != "" then
      (if Strip(u.fragment) != "" then Strip(u.fragment) else "root")
    else "root"
  }

  /** Every reason `normalize_notion` gives for a rejection. */
  const NotionReasons: set<string> := {"notion locator is empty", "notion page id not found"}

  /** `normalize_notion`: rejected when blank or when no page id occurs
      anywhere; otherwise keyed by the last candidate page id and the
      section, and displayed as the canonical URL when the locator is an
      absolute URL and as the stripped text otherwise. */
  function NormalizeNotion(env: Env, locator: string): (r: Outcome)
    ensures r == Err("notion locator is empty") <==> Strip(locator) == ""
    ensures r == Err("notion page id not found") <==>
      Strip(locator) != "" && forall i :: !UuidAt(Strip(locator), i) && !Hex32At(Strip(locator), i)
    ensures r.Err? ==> r.reason in NotionReasons
    ensures r.Ok? ==>
      && IsPageId(r.fields.pageId)
      && r.fields.key == "notion:" + r.fields.pageId + ":" + Section(env.parse(Strip(locator)))
      && r.fields.fileKey == "" && r.fields.nodeId == "" && r.fields.path == "" && r.fields.line == ""
    ensures r.Ok? && !IsAbsolute(env.parse(Strip(locator))) ==> r.fields.normalized == Strip(locator)
    ensures r.Ok? && IsAbsolute(env.parse(Strip(locator))) ==> Some(r.fields.normalized) == NormalizeUrl(env, locator)
  {
    var value := Strip(locator);
    if value == "" then Err("notion locator is empty")
    else
      var candidates := Candidates(value);
      if |candidates| == 0 then Err("notion page id not found")
      else
        var pageId := candidates[|candidates| - 1];
        var section := Section(env.parse(value));
        StripIdempotent(locator);
        var display := match NormalizeUrl(env, value) case Some(n) => n case None => value;
        Ok(Fields(
          normalized := display,
          key := "notion:" + pageId + ":" + section,
          fileKey := "", nodeId := "",
          pageId := pageId,
          path := "", line := ""))
  }

  /** Which id an accepted locator is keyed by: the last isolated 32-digit
      run when there is one, whatever UUIDs follow it; otherwise the last
      UUID the scan finds. */
  lemma NotionPageIdChoice(env: Env, locator: string)
    requires NormalizeNotion(env, locator).Ok?
    ensures var v, f := Strip(locator), NormalizeNotion(env, locator).fields;
      (exists i :: Hex32At(v, i)) ==> exists i :: LastHex32(v, i) && f.pageId == PageIdAt(Hex32, v, i)
    ensures var v, f := Strip(locator), NormalizeNotion(env, locator).fields;
      (forall i :: !Hex32At(v, i)) ==>
        var us := FindIter(Uuid, v, 0);
        |us| > 0 && f.pageId == PageIdAt(Uuid, v, us[|us| - 1])
  {
    LastCandidate(Strip(locator));
  }
}
