/** The code-locator normalizer (`normalize_code`): `path` or
    `path:line`, with the path put through POSIX path normalization. */
module CodeLocators {
  import opened Strings
  import opened Results

  // ---------------------------------------------------------------------
  // The path pattern: a lazy path of one or more characters other than a
  // newline, then optionally `:` and one or more digits, up to the end.
  // ---------------------------------------------------------------------

  /** From index `k` to the end, `value` reads `:` followed by one or more
      ASCII digits. */
  predicate LineSuffixAt(value: string, k: nat)
  {
    k + 1 < |value| && value[k] == ':' && AllDigits(value[k + 1..])
  }

  /** The lazy `path` group tried at lengths `k`, `k + 1`, ...: the first
      length after which the optional `:<line>` group reaches the end, or
      the whole value when none does. */
  function SplitFrom(value: string, k: nat): (r: (string, string))
    requires 1 <= k <= |value|
    ensures |r.0| >= k && AllDigits(r.1)
    ensures value == r.0 + (if r.1 == "" then "" else ":" + r.1)
    ensures r.1 == "" ==> forall j :: k <= j ==> !LineSuffixAt(value, j)
    ensures r.1 != "" ==> LineSuffixAt(value, |r.0|) && forall j :: k <= j < |r.0| ==> !LineSuffixAt(value, j)
    decreases |value| - k
  {
    if k == |value| then (value, "")
    else if LineSuffixAt(value, k) then
      assert value == value[..k] + ":" + value[k + 1..];
      (value[..k], value[k + 1..])
    else SplitFrom(value, k + 1)
  }

  /** The path pattern matched against a stripped value (which never ends
      in a newline), as `(path, line)` with `line` empty when the optional
      group did not take part. `.` does not match a newline and the path
      needs at least one character, so on such a value there is no match
      exactly when it is empty or holds a newline. The path is never empty,
      which makes the source's "code path is empty" branch unreachable. */
  function MatchCodePath(value: string): (r: Option<(string, string)>)
    ensures r.None? <==> value == "" || '\n' in value
    ensures r.Some? ==> r.value.0 != "" && AllDigits(r.value.1)
    ensures r.Some? ==> value == r.value.0 + (if r.value.1 == "" then "" else ":" + r.value.1)
    ensures r.Some? && r.value.1 == "" ==> forall k :: 1 <= k ==> !LineSuffixAt(value, k)
    ensures r.Some? && r.value.1 != "" ==> forall k :: 1 <= k < |r.value.0| ==> !LineSuffixAt(value, k)
  {
    if value == "" || '\n' in value then None else Some(SplitFrom(value, 1))
  }

  /** Appending `:<digits>` to a newline-free path always splits back into
      that path and those digits, whatever colons the path already holds. */
  lemma {:induction false} MatchLineSuffix(p: string, d: string)
    requires p != "" && '\n' !in p
    requires d != "" && AllDigits(d)
    ensures MatchCodePath(p + ":" + d) == Some((p, d))
  {
    var v := p + ":" + d;
    NewlineWithLine(p, d);
    forall k | 1 <= k < |p|
      ensures !LineSuffixAt(v, k)
    {
      assert v[k + 1..][|p| - k - 1] == ':';
    }
    assert LineSuffixAt(v, |p|) by { assert v[|p| + 1..] == d; }
    var r := SplitFrom(v, 1);
    assert r.1 != "";
    assert |r.0| == |p|;
    assert r.0 == v[..|p|] == p;
    assert r.1 == v[|p| + 1..] == d;
  }

  // ---------------------------------------------------------------------
  // str(PurePosixPath(p))
  // ---------------------------------------------------------------------

  /** POSIX `splitroot`: exactly two leading slashes are kept as the root
      `//`; one, or three and more, give the root `/`. */
  function SplitRoot(p: string): (r: (string, string))
    ensures p == r.0 + r.1
    ensures r.0 == "" || r.0 == "/" || r.0 == "//"
    ensures r.0 == "" <==> p == "" || p[0] != '/'
    ensures r.0 == "//" <==> |p| >= 2 && p[..2] == "//" && (|p| == 2 || p[2] != '/')
  {
    if |p| == 0 || p[0] != '/' then ("", p)
    else if |p| >= 2 && p[1] == '/' && (|p| == 2 || p[2] != '/') then ("//", p[2..])
    else ("/", p[1..])
  }

  /** Segments that survive normalization: not empty and not `.`. */
  predicate CleanParts(parts: seq<string>)
  {
    forall i :: 0 <= i < |parts| ==> parts[i] != "" && parts[i] != "." && '/' !in parts[i]
  }

  /** Drops the empty and `.` segments, keeping the rest (`..` included) in
      order. */
  function KeepParts(parts: seq<string>): (r: seq<string>)
    requires forall i :: 0 <= i < |parts| ==> '/' !in parts[i]
    ensures CleanParts(r)
    ensures CleanParts(parts) ==> r == parts
    ensures |parts| == 1 ==> (r == [] <==> parts[0] == "" || parts[0] == ".")
  {
    if |parts| == 0 then []
    else if parts[0] == "" || parts[0] == "." then KeepParts(parts[1..])
    else [parts[0]] + KeepParts(parts[1..])
  }

  /** Filtering segments keeps their order: it distributes over
      concatenation. */
  lemma {:induction false} KeepPartsAppend(a: seq<string>, b: seq<string>)
    requires forall i :: 0 <= i < |a| ==> '/' !in a[i]
    requires forall i :: 0 <= i < |b| ==> '/' !in b[i]
    ensures KeepParts(a + b) == KeepParts(a) + KeepParts(b)
    decreases |a|
  {
    if |a| > 0 {
      HeadTailAppend(a, b);
      KeepPartsAppend(a[1..], b);
      if a[0] != "" && a[0] != "." {
        Assoc([a[0]], KeepParts(a[1..]), KeepParts(b));
      }
    } else {
      assert a + b == b;
    }
  }

  /** A path that POSIX normalization prints unchanged: `.`, or a root
      and/or segments that are neither empty nor `.`. */
  predicate IsNormalPath(p: string)
  {
    || p == "."
    || (var (root, rest) := SplitRoot(p);
        (root != "" || rest != "") && (rest == "" || CleanParts(Split(rest, '/'))))
  }

  /** The segments normalization keeps: those after the root that are
      neither empty nor `.`, in order. */
  function KeptSegments(p: string): (r: seq<string>)
    ensures CleanParts(r)
  {
    KeepParts(Split(SplitRoot(p).1, '/'))
  }

  /** `str(PurePosixPath(p))`: repeated separators and `.` segments
      collapse, a trailing separator goes, `..` stays, and an empty result
      prints as `.`. The result is a normal path with the same root and
      the same kept segments as `p`. */
  function PosixNormalize(p: string): (r: string)
    ensures r != "" && IsNormalPath(r)
    ensures SplitRoot(r).0 == SplitRoot(p).0
    ensures KeptSegments(r) == KeptSegments(p)
  {
    var (root, rest) := SplitRoot(p);
    var parts := KeepParts(Split(rest, '/'));
    if root == "" && parts == [] then
      DotKeepsNothing();
      "."
    else
      NormalFormIsNormal(root, parts);
      root + Join(parts, '/')
  }

  lemma DotKeepsNothing()
    ensures SplitRoot(".") == ("", ".") && KeptSegments(".") == []
  {
    SplitWithoutSep(".", '/');
  }

  lemma NormalFormIsNormal(root: string, parts: seq<string>)
    requires root == "" || root == "/" || root == "//"
    requires CleanParts(parts)
    requires root != "" || parts != []
    ensures root + Join(parts, '/') != "" && IsNormalPath(root + Join(parts, '/'))
    ensures SplitRoot(root + Join(parts, '/')) == (root, Join(parts, '/'))
    ensures KeptSegments(root + Join(parts, '/')) == parts
  {
    var j := Join(parts, '/');
    var p := root + j;
    if parts != [] {
      JoinStart(parts, '/');
      SplitJoin(parts, '/');
    } else {
      assert Split(j, '/') == [""];
    }
    assert j == "" || j[0] != '/';
    if root == "" {
      assert p == j;
    } else if root == "/" {
      assert p[0] == '/' && p[1..] == j;
      assert |p| == 1 || p[1] == j[0];
    } else {
      assert p[0] == '/' && p[1] == '/' && p[2..] == j;
      assert |p| == 2 || p[2] == j[0];
    }
    assert SplitRoot(p) == (root, j);
  }

  /** Normal paths are exactly the fixed points of normalization. */
  lemma NormalPathIsFixed(p: string)
    requires IsNormalPath(p)
    ensures PosixNormalize(p) == p
  {
    var (root, rest) := SplitRoot(p);
    if p == "." {
      SplitWithoutSep(".", '/');
      assert KeepParts(["."]) == [];
    } else if rest == "" {
      assert KeepParts([""]) == [];
    } else {
      JoinSplit(rest, '/');
      assert KeepParts(Split(rest, '/')) == Split(rest, '/');
    }
  }

  /** Normalizing a normalized path changes nothing. */
  lemma PosixNormalizeIdempotent(p: string)
    ensures PosixNormalize(PosixNormalize(p)) == PosixNormalize(p)
  {
    NormalPathIsFixed(PosixNormalize(p));
  }

  /** Normalization sees a path only through its root and its kept
      segments. */
  lemma SameRootSameSegments(p: string, q: string)
    requires SplitRoot(p).0 == SplitRoot(q).0 && KeptSegments(p) == KeptSegments(q)
    ensures PosixNormalize(p) == PosixNormalize(q)
  {
  }

  /** A normal path is determined by its root and its kept segments, so
      together with the contract of `PosixNormalize` these pin down the
      result on every input. */
  lemma NormalPathDetermined(p: string, q: string)
    requires IsNormalPath(p) && IsNormalPath(q)
    requires SplitRoot(p).0 == SplitRoot(q).0 && KeptSegments(p) == KeptSegments(q)
    ensures p == q
  {
    NormalPathIsFixed(p);
    NormalPathIsFixed(q);
    SameRootSameSegments(p, q);
  }

  /** Every path prints as its root followed by its kept segments, or as
      `.` when it has neither. */
  lemma NormalForm(p: string)
    ensures PosixNormalize(p) ==
      (if SplitRoot(p).0 == "" && KeptSegments(p) == [] then "."
       else SplitRoot(p).0 + Join(KeptSegments(p), '/'))
    ensures PosixNormalize(p) == "." <==> SplitRoot(p).0 == "" && KeptSegments(p) == []
  {
    var parts := KeptSegments(p);
    if parts != [] {
      SplitJoin(parts, '/');
      SplitWithoutSep(".", '/');
      assert parts != ["."];
    }
  }

  /** Text appended after a path with something past its root leaves the
      root alone. */
  lemma RootedPrefix(a: string, t: string)
    requires SplitRoot(a).1 != ""
    ensures SplitRoot(a + t) == (SplitRoot(a).0, SplitRoot(a).1 + t)
  {
    var p := a + t;
    var root := SplitRoot(a).0;
    assert forall i :: 0 <= i < |a| ==> p[i] == a[i];
    if root == "//" {
      assert p[2..] == a[2..] + t;
    } else if root == "/" {
      assert p[1..] == a[1..] + t;
    }
  }

  /** The kept segments of `a/b` are those of `a` followed by those of
      `b`, when `a` has something past its root. */
  lemma RootedParts(a: string, b: string)
    requires SplitRoot(a).1 != ""
    ensures SplitRoot(a + "/" + b) == (SplitRoot(a).0, SplitRoot(a).1 + "/" + b)
    ensures KeptSegments(a + "/" + b) == KeptSegments(a) + KeepParts(Split(b, '/'))
  {
    var ra := SplitRoot(a).1;
    RootedPrefix(a, "/" + b);
    assert a + "/" + b == a + ("/" + b);
    assert ra + ("/" + b) == ra + "/" + b;
    RestParts(ra, b);
  }

  lemma RestParts(r: string, b: string)
    ensures KeepParts(Split(r + "/" + b, '/')) == KeepParts(Split(r, '/')) + KeepParts(Split(b, '/'))
  {
    SplitAppend(r, b, '/');
    KeepPartsAppend(Split(r, '/'), Split(b, '/'));
  }

  /** A doubled separator after the root reads as one. */
  lemma CollapseSeparators(a: string, b: string)
    requires SplitRoot(a).1 != ""
    ensures PosixNormalize(a + "//" + b) == PosixNormalize(a + "/" + b)
  {
    assert a + "//" + b == a + "/" + ("/" + b);
    RootedParts(a, "/" + b);
    RootedParts(a, b);
    SplitAfterPart("", b, '/');
    assert "" + "/" + b == "/" + b;
    assert ([""] + Split(b, '/'))[1..] == Split(b, '/');
    SameRootSameSegments(a + "//" + b, a + "/" + b);
  }

  /** A `.` segment after the root is dropped. */
  lemma DotSegmentDropped(a: string, b: string)
    requires SplitRoot(a).1 != ""
    ensures PosixNormalize(a + "/./" + b) == PosixNormalize(a + "/" + b)
  {
    assert a + "/./" + b == a + "/" + ("./" + b);
    RootedParts(a, "./" + b);
    RootedParts(a, b);
    SplitAfterPart(".", b, '/');
    assert "." + "/" + b == "./" + b;
    assert (["."] + Split(b, '/'))[1..] == Split(b, '/');
    SameRootSameSegments(a + "/./" + b, a + "/" + b);
  }

  /** A trailing separator is dropped. */
  lemma TrailingSlashDropped(a: string)
    requires SplitRoot(a).1 != ""
    ensures PosixNormalize(a + "/") == PosixNormalize(a)
  {
    assert a + "/" == a + "/" + "";
    RootedParts(a, "");
    assert KeptSegments(a) + KeepParts([""]) == KeptSegments(a);
    SameRootSameSegments(a + "/", a);
  }

  /** `a/..` has the root of `a` and keeps its segments plus `..`. */
  lemma ParentSegmentParts(a: string)
    requires SplitRoot(a).1 != ""
    ensures SplitRoot(a + "/..").0 == SplitRoot(a).0
    ensures KeptSegments(a + "/..") == KeptSegments(a) + [".."]
  {
    assert a + "/.." == a + "/" + "..";
    RootedParts(a, "..");
    SplitWithoutSep("..", '/');
  }

  lemma JoinParent(root: string, parts: seq<string>)
    requires parts != []
    ensures root + Join(parts + [".."], '/') == root + Join(parts, '/') + "/.."
  {
    JoinAppend(parts, [".."], '/');
    assert Join([".."], '/') == "..";
    Assoc(root, Join(parts, '/') + "/", "..");
  }

  /** A `..` segment is kept as written, not resolved against its parent:
      it follows the normal form of the path, or the bare root when the
      path keeps no segment. */
  lemma ParentSegmentKept(a: string)
    requires SplitRoot(a).1 != ""
    ensures PosixNormalize(a + "/..") ==
            (if KeptSegments(a) == [] then SplitRoot(a).0 + ".." else PosixNormalize(a) + "/..")
  {
    var pa := KeptSegments(a);
    ParentSegmentParts(a);
    NormalForm(a + "/..");
    if pa == [] {
      assert pa + [".."] == [".."];
    } else {
      NormalForm(a);
      JoinParent(SplitRoot(a).0, pa);
    }
  }

  // ---------------------------------------------------------------------
  // normalize_code
  // ---------------------------------------------------------------------

  function SlashChar(c: char): (r: char)
    ensures IsSpace(r) <==> IsSpace(c)
  {
    if c == '\\' then '/' else c
  }

  /** `s.replace("\\", "/")`. */
  function Slashed(s: string): (r: string)
    ensures |r| == |s| && '\\' !in r
    ensures forall i :: 0 <= i < |s| && s[i] != '\\' ==> r[i] == s[i]
    ensures forall i :: 0 <= i < |s| && s[i] == '\\' ==> r[i] == '/'
  {
    MapChars(s, SlashChar)
  }

  /** What every accepted code locator's fields look like: a normal path
      other than `.`, a decimal line without leading zeros, the key
      `code:<path>:<line>`, and a display form that omits a zero line. */
  predicate IsCodeFields(f: Fields)
  {
    && IsNormalPath(f.path) && f.path != "."
    && AllDigits(f.line) && f.line == NatToString(DigitsValue(f.line))
    && f.key == "code:" + f.path + ":" + f.line
    && f.normalized == (if DigitsValue(f.line) > 0 then f.path + ":" + f.line else f.path)
    && f.fileKey == "" && f.nodeId == "" && f.pageId == ""
  }

  /** Every reason `normalize_code` gives for a rejection. */
  const CodeReasons: set<string> := {
    "code locator is empty", "code locator must be path or path:line",
    "invalid code locator format", "code path is invalid"
  }

  /** `normalize_code`. */
  function NormalizeCode(locator: string): (r: Outcome)
    ensures Strip(locator) == "" <==> r == Err("code locator is empty")
    ensures Strip(locator) != "" && Contains(Strip(locator), "://") <==>
            r == Err("code locator must be path or path:line")
    ensures r == Err("invalid code locator format") <==>
            Strip(locator) != "" && !Contains(Strip(locator), "://") && '\n' in Strip(locator)
    ensures r.Err? ==> r.reason in CodeReasons
    ensures r.Ok? ==> IsCodeFields(r.fields)
    ensures r.Ok? ==> var m := MatchCodePath(Strip(locator));
      && m.Some?
      && r.fields.path == PosixNormalize(Slashed(m.value.0))
      && DigitsValue(r.fields.line) == (if m.value.1 == "" then 0 else DigitsValue(m.value.1))
    ensures r == Err("code path is invalid") <==>
      && Strip(locator) != "" && !Contains(Strip(locator), "://")
      && var m := MatchCodePath(Strip(locator));
         m.Some? && PosixNormalize(Slashed(m.value.0)) == "."
  {
    var value := Strip(locator);
    if value == "" then Err("code locator is empty")
    else if Contains(value, "://") then Err("code locator must be path or path:line")
    else match MatchCodePath(value)
      case None => Err("invalid code locator format")
      case Some((pathRaw, lineRaw)) => CodeFromMatch(pathRaw, lineRaw)
  }

  /** The part of `normalize_code` after the pattern matched: normalize the
      path, default the line to 0 and assemble the fields. */
  function CodeFromMatch(pathRaw: string, lineRaw: string): (r: Outcome)
    requires AllDigits(lineRaw)
    ensures r.Err? ==> r.reason == "code path is invalid"
    ensures r.Err? <==> PosixNormalize(Slashed(pathRaw)) == "."
    ensures r.Ok? ==> IsCodeFields(r.fields)
    ensures r.Ok? ==> r.fields.path == PosixNormalize(Slashed(pathRaw))
    ensures r.Ok? ==> DigitsValue(r.fields.line) == (if lineRaw == "" then 0 else DigitsValue(lineRaw))
  {
    var path := PosixNormalize(Slashed(pathRaw));
    if path == "" || path == "." then Err("code path is invalid")
    else
      var line := if lineRaw == "" then 0 else DigitsValue(lineRaw);
      NatToStringRoundTrip(line);
      var lineText := NatToString(line);
      Ok(Fields(
        normalized := if line > 0 then path + ":" + lineText else path,
        key := "code:" + path + ":" + lineText,
        fileKey := "", nodeId := "", pageId := "",
        path := path,
        line := lineText))
  }

  /** Past the emptiness, scheme and pattern checks, the outcome is that of
      the matched path and line. */
  lemma AcceptedCode(locator: string, pathRaw: string, lineRaw: string)
    requires Strip(locator) != "" && !Contains(Strip(locator), "://")
    requires MatchCodePath(Strip(locator)) == Some((pathRaw, lineRaw))
    ensures NormalizeCode(locator) == CodeFromMatch(pathRaw, lineRaw)
  {
  }

  /** The key of an accepted locator determines its path and its line: the
      last `:` of a code key is the one before the line. */
  lemma CodeKeyInjective(f: Fields, g: Fields)
    requires IsCodeFields(f) && IsCodeFields(g)
    requires f.key == g.key
    ensures f == g
  {
    LastColonSplit("code:" + f.path, f.line, "code:" + g.path, g.line);
    assert f.path == ("code:" + f.path)[5..];
    assert g.path == ("code:" + g.path)[5..];
  }

  /** Appending `:<digits>` to a stripped path neither introduces nor
      removes white space at the ends. */
  lemma StripWithLine(p: string, d: string)
    requires p != "" && p == Strip(p)
    requires d != "" && AllDigits(d)
    ensures Strip(p + ":" + d) == p + ":" + d
  {
    var v := p + ":" + d;
    assert !IsSpace(v[0]) by { assert v[0] == p[0]; }
    assert TrimStart(v) == v;
    assert !IsSpace(v[|v| - 1]) by { assert v[|v| - 1] == d[|d| - 1]; }
  }

  /** After the path, `p + ":" + d` holds only `:` and digits. */
  lemma TailOfLine(p: string, d: string)
    requires AllDigits(d)
    ensures forall m :: |p| <= m < |p + ":" + d| ==> (p + ":" + d)[m] == ':' || IsDigit((p + ":" + d)[m])
  {
    var v := p + ":" + d;
    forall m | |p| < m < |v| ensures IsDigit(v[m]) { assert v[m] == d[m - |p| - 1]; }
  }

  /** A `:<digits>` suffix cannot complete a `://` that the path lacks. */
  lemma ContainsWithLine(p: string, d: string)
    requires AllDigits(d)
    ensures Contains(p + ":" + d, "://") <==> Contains(p, "://")
  {
    var v := p + ":" + d;
    TailOfLine(p, d);
    if Contains(v, "://") {
      var i :| 0 <= i <= |v| - 3 && OccursAt(v, "://", i);
      assert v[i..i + 3][2] == '/';
      assert v[i + 2] == '/';
      assert i + 3 <= |p|;
      assert p[i..i + 3] == v[i..i + 3];
      assert OccursAt(p, "://", i);
    }
    if Contains(p, "://") {
      var i :| 0 <= i <= |p| - 3 && OccursAt(p, "://", i);
      assert v[i..i + 3] == p[i..i + 3];
      assert OccursAt(v, "://", i);
    }
  }

  lemma NewlineWithLine(p: string, d: string)
    requires AllDigits(d)
    ensures '\n' in p + ":" + d <==> '\n' in p
  {
    var v := p + ":" + d;
    TailOfLine(p, d);
    if '\n' in v {
      var i :| 0 <= i < |v| && v[i] == '\n';
      assert i < |p|;
      assert p[i] == '\n';
    }
    if '\n' in p {
      var i :| 0 <= i < |p| && p[i] == '\n';
      assert v[i] == '\n';
    }
  }

  /** Spellings of the same line number share a key: `p:7` and `p:007`
      normalize identically. */
  lemma LineSpellingsShareKey(p: string, d1: string, d2: string)
    requires p != "" && p == Strip(p)
    requires d1 != "" && AllDigits(d1) && d2 != "" && AllDigits(d2)
    requires DigitsValue(d1) == DigitsValue(d2)
    ensures NormalizeCode(p + ":" + d1) == NormalizeCode(p + ":" + d2)
  {
    StripWithLine(p, d1);
    StripWithLine(p, d2);
    ContainsWithLine(p, d1);
    ContainsWithLine(p, d2);
    NewlineWithLine(p, d1);
    NewlineWithLine(p, d2);
    if !Contains(p, "://") && '\n' !in p {
      AcceptedWithLine(p, d1);
      AcceptedWithLine(p, d2);
      SameLineSameFields(p, d1, d2);
    }
  }

  /** The matched line only counts through its value. */
  lemma SameLineSameFields(p: string, d1: string, d2: string)
    requires d1 != "" && AllDigits(d1) && d2 != "" && AllDigits(d2)
    requires DigitsValue(d1) == DigitsValue(d2)
    ensures CodeFromMatch(p, d1) == CodeFromMatch(p, d2)
  {
  }

  /** A path without a line and the same path with `:0` share a key and a
      display form: the line defaults to 0. */
  lemma ZeroLineIsDefault(p: string)
    requires p == Strip(p)
    requires MatchCodePath(p) == Some((p, ""))
    ensures NormalizeCode(p + ":0") == NormalizeCode(p)
  {
    var v := p + ":" + "0";
    assert v == p + ":0";
    assert AllDigits("0");
    StripWithLine(p, "0");
    ContainsWithLine(p, "0");
    if !Contains(p, "://") {
      ZeroLineAccepted(p);
    }
  }

  /** The accepted case of `ZeroLineIsDefault`: both spellings reach the
      same path and line 0. */
  lemma ZeroLineAccepted(p: string)
    requires p == Strip(p) && !Contains(p, "://")
    requires MatchCodePath(p) == Some((p, ""))
    ensures NormalizeCode(p + ":0") == NormalizeCode(p)
  {
    var v := p + ":" + "0";
    assert v == p + ":0";
    assert AllDigits("0");
    StripWithLine(p, "0");
    ContainsWithLine(p, "0");
    MatchLineSuffix(p, "0");
    AcceptedCode(v, p, "0");
    AcceptedCode(p, p, "");
    ZeroLineMatch(p);
  }

  /** A `0` line reads the same as a missing one. */
  lemma ZeroLineMatch(p: string)
    ensures CodeFromMatch(p, "0") == CodeFromMatch(p, "")
  {
    assert DigitsValue("0") == 0 by { assert "0"[..0] == ""; }
  }


  lemma SlashedSlices(v: string)
    ensures forall k :: 0 <= k <= |v| ==> Slashed(v)[..k] == Slashed(v[..k])
    ensures forall k :: 0 <= k <= |v| ==> Slashed(v)[k..] == Slashed(v[k..])
  {
  }

  lemma SlashedDigits(d: string)
    requires AllDigits(d)
    ensures Slashed(d) == d
  {
  }

  /** The line split does not look at `\` or `/`, so it commutes with the
      slash replacement. */
  lemma {:induction false} SplitFromSlashed(v: string, k: nat)
    requires 1 <= k <= |v|
    ensures SplitFrom(Slashed(v), k) == (Slashed(SplitFrom(v, k).0), SplitFrom(v, k).1)
    decreases |v| - k
  {
    var w := Slashed(v);
    SlashedSlices(v);
    if k < |v| {
      assert LineSuffixAt(w, k) <==> LineSuffixAt(v, k) by {
        if k + 1 < |v| {
          assert w[k + 1..] == Slashed(v[k + 1..]);
          assert AllDigits(w[k + 1..]) <==> AllDigits(v[k + 1..]);
        }
      }
      if LineSuffixAt(v, k) {
        SlashedDigits(v[k + 1..]);
      } else {
        SplitFromSlashed(v, k + 1);
      }
    }
  }

  lemma SlashedNewline(v: string)
    ensures '\n' in Slashed(v) <==> '\n' in v
  {
    if '\n' in v {
      var i :| 0 <= i < |v| && v[i] == '\n';
      assert Slashed(v)[i] == '\n';
    }
    if '\n' in Slashed(v) {
      var i :| 0 <= i < |v| && Slashed(v)[i] == '\n';
      assert v[i] == '\n';
    }
  }

  /** The matched path and line of two newline-free values that agree up to
      slashes give the same fields. */
  lemma SlashedMatchesAgree(va: string, vb: string)
    requires Slashed(va) == Slashed(vb)
    requires va != "" && '\n' !in va
    requires vb != "" && '\n' !in vb
    ensures CodeFromMatch(SplitFrom(va, 1).0, SplitFrom(va, 1).1) ==
            CodeFromMatch(SplitFrom(vb, 1).0, SplitFrom(vb, 1).1)
  {
    SplitFromSlashed(va, 1);
    SplitFromSlashed(vb, 1);
    var (pa, la) := SplitFrom(va, 1);
    var (pb, lb) := SplitFrom(vb, 1);
    assert Slashed(pa) == Slashed(pb) && la == lb;
  }

  /** Locators that differ only in `\` versus `/` share a key (and all
      other fields), unless one of them spells out `://`. */
  lemma BackslashVariantsShareKey(a: string, b: string)
    requires Slashed(a) == Slashed(b)
    requires !Contains(Strip(a), "://") && !Contains(Strip(b), "://")
    ensures NormalizeCode(a) == NormalizeCode(b)
  {
    var va, vb := Strip(a), Strip(b);
    StripMapChars(a, SlashChar);
    StripMapChars(b, SlashChar);
    assert Slashed(va) == Slashed(vb);
    assert |va| == |vb|;
    SlashedNewline(va);
    SlashedNewline(vb);
    if va != "" && '\n' !in va {
      SlashedMatchesAgree(va, vb);
      AcceptedCode(a, SplitFrom(va, 1).0, SplitFrom(va, 1).1);
      AcceptedCode(b, SplitFrom(vb, 1).0, SplitFrom(vb, 1).1);
    }
  }

  /** A path with no slashes of either kind, other than `.`, is kept as
      written. */
  lemma SlashFreePathKept(p: string, lineRaw: string)
    requires p != "" && p != "." && '/' !in p && '\\' !in p
    requires AllDigits(lineRaw)
    ensures CodeFromMatch(p, lineRaw).Ok? && CodeFromMatch(p, lineRaw).fields.path == p
  {
    SplitWithoutSep(p, '/');
    assert IsNormalPath(p);
    NormalPathIsFixed(p);
    assert Slashed(p) == p;
  }

  /** `p:<digits>` for a stripped, newline-free path without `://` is
      accepted and split into `p` and the digits. */
  lemma AcceptedWithLine(p: string, d: string)
    requires p != "" && p == Strip(p) && '\n' !in p && !Contains(p, "://")
    requires d != "" && AllDigits(d)
    ensures NormalizeCode(p + ":" + d) == CodeFromMatch(p, d)
  {
    StripWithLine(p, d);
    MatchLineSuffix(p, d);
    ContainsWithLine(p, d);
    AcceptedCode(p + ":" + d, p, d);
  }

  /** The display form is not always a fixed point: `p:7:0` has path
      `p:7` and line 0 and displays as `p:7`, but that display reads back as
      path `p` with line 7, under a different key. */
  lemma ZeroLineDisplayReparsesDifferently(p: string, d: string)
    requires p != "" && p != "." && p == Strip(p)
    requires '\n' !in p && '/' !in p && '\\' !in p && !Contains(p, "://")
    requires d != "" && AllDigits(d)
    ensures NormalizeCode(p + ":" + d + ":0").Ok?
    ensures NormalizeCode(p + ":" + d + ":0").fields.normalized == p + ":" + d
    ensures NormalizeCode(p + ":" + d).Ok? && NormalizeCode(p + ":" + d).fields.path == p
    ensures NormalizeCode(p + ":" + d).fields.key != NormalizeCode(p + ":" + d + ":0").fields.key
  {
    var q := p + ":" + d;
    PlainPathWithLine(p, d);
    ZeroLineOfPlainPath(q);
    AcceptedWithLine(p, d);
    SlashFreePathKept(p, d);
    var f, g := NormalizeCode(q).fields, NormalizeCode(q + ":0").fields;
    if f.key == g.key {
      CodeKeyInjective(f, g);
    }
  }

  /** `p:<digits>` keeps the properties of a plain path `p`. */
  lemma PlainPathWithLine(p: string, d: string)
    requires p != "" && p != "." && p == Strip(p)
    requires '\n' !in p && '/' !in p && '\\' !in p && !Contains(p, "://")
    requires d != "" && AllDigits(d)
    ensures var q := p + ":" + d;
      q != "" && q != "." && q == Strip(q) && '\n' !in q && '/' !in q && '\\' !in q && !Contains(q, "://")
  {
    var q := p + ":" + d;
    StripWithLine(p, d);
    NewlineWithLine(p, d);
    ContainsWithLine(p, d);
    TailOfLine(p, d);
    assert '/' !in q && '\\' !in q;
  }

  /** A plain path with `:0` appended keeps the path and displays as the
      path alone. */
  lemma ZeroLineOfPlainPath(q: string)
    requires q != "" && q != "." && q == Strip(q)
    requires '\n' !in q && '/' !in q && '\\' !in q && !Contains(q, "://")
    ensures NormalizeCode(q + ":0").Ok?
    ensures NormalizeCode(q + ":0").fields.path == q
    ensures NormalizeCode(q + ":0").fields.normalized == q
  {
    assert q + ":0" == q + ":" + "0";
    assert AllDigits("0");
    AcceptedWithLine(q, "0");
    ZeroLineOfName(q);
  }

  /** A slash-free name matched with the line `0` keeps the name as its
      path and displays as the name alone. */
  lemma ZeroLineOfName(q: string)
    requires q != "" && q != "." && '/' !in q && '\\' !in q
    ensures CodeFromMatch(q, "0").Ok?
    ensures CodeFromMatch(q, "0").fields.path == q
    ensures CodeFromMatch(q, "0").fields.normalized == q
  {
    assert AllDigits("0");
    SlashFreePathKept(q, "0");
    assert DigitsValue("0") == 0 by { assert "0"[..0] == ""; }
  }
}
