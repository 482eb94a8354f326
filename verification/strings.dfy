/** The part of Python's `str` behaviour the normalizers rely on: `strip`,
    `lower`, `split`/`join` on one separator character, substring search,
    decimal conversion and the code-point ordering used by `sorted`. */
module Strings {

  /** Python's `str.isspace` set, which is what `str.strip()` removes. */
  predicate IsSpace(c: char)
  {
    || ('\t' <= c <= '\r')
    || ('\U{1C}' <= c <= ' ')
    || c == '\U{85}' || c == '\U{A0}' || c == '\U{1680}'
    || ('\U{2000}' <= c <= '\U{200A}')
    || c == '\U{2028}' || c == '\U{2029}' || c == '\U{202F}'
    || c == '\U{205F}' || c == '\U{3000}'
  }

  /** The number of white-space characters at the start of `s`. */
  function LeadingSpace(s: string): (k: nat)
    ensures k <= |s|
    ensures forall i :: 0 <= i < k ==> IsSpace(s[i])
    ensures k == |s| || !IsSpace(s[k])
  {
    if |s| > 0 && IsSpace(s[0]) then 1 + LeadingSpace(s[1..]) else 0
  }

  /** The length of `s` without its trailing white space. */
  function TrailingStart(s: string): (k: nat)
    ensures k <= |s|
    ensures forall i :: k <= i < |s| ==> IsSpace(s[i])
    ensures k == 0 || !IsSpace(s[k - 1])
  {
    if |s| > 0 && IsSpace(s[|s| - 1]) then TrailingStart(s[..|s| - 1]) else |s|
  }

  /** Drops leading white space. */
  function TrimStart(s: string): (r: string)
    ensures |r| <= |s| && r == s[|s| - |r|..]
    ensures r == "" || !IsSpace(r[0])
    ensures forall i :: 0 <= i < |s| - |r| ==> IsSpace(s[i])
  {
    s[LeadingSpace(s)..]
  }

  /** Drops trailing white space. */
  function TrimEnd(s: string): (r: string)
    ensures |r| <= |s| && r == s[..|r|]
    ensures r == "" || !IsSpace(r[|r| - 1])
    ensures forall i :: |r| <= i < |s| ==> IsSpace(s[i])
  {
    s[..TrailingStart(s)]
  }

  /** Python's `str.strip()`: the longest infix that neither starts nor ends
      with white space, once all surrounding white space is gone. */
  function Strip(s: string): (r: string)
    ensures r == "" || (!IsSpace(r[0]) && !IsSpace(r[|r| - 1]))
    ensures |r| <= |s|
    ensures exists k :: 0 <= k <= |s| - |r| && r == s[k..][..|r|]
                        && (forall i :: 0 <= i < k ==> IsSpace(s[i]))
                        && (forall i :: k + |r| <= i < |s| ==> IsSpace(s[i]))
  {
    var t := TrimStart(s);
    var r := TrimEnd(t);
    var k := |s| - |t|;
    assert t == s[k..];
    assert forall i :: k + |r| <= i < |s| ==> s[i] == s[k..][i - k];
    r
  }

  lemma StripIdempotent(s: string)
    ensures Strip(Strip(s)) == Strip(s)
  {
    var r := Strip(s);
    assert TrimStart(r) == r;
    assert TrimEnd(r) == r;
  }

  /** A string that neither starts nor ends with white space is its own
      strip. */
  lemma StripOfTrimmed(s: string)
    requires s == "" || (!IsSpace(s[0]) && !IsSpace(s[|s| - 1]))
    ensures Strip(s) == s
  {
    assert TrimStart(s) == s;
    assert TrimEnd(s) == s;
  }

  /** Applies `f` to every character. */
  function MapChars(s: string, f: char -> char): (r: string)
    ensures |r| == |s|
    ensures forall i :: 0 <= i < |s| ==> r[i] == f(s[i])
  {
    seq(|s|, i requires 0 <= i < |s| => f(s[i]))
  }

  lemma TrimStartMapChars(s: string, f: char -> char)
    requires forall c :: IsSpace(f(c)) <==> IsSpace(c)
    ensures TrimStart(MapChars(s, f)) == MapChars(TrimStart(s), f)
  {
    if |s| > 0 && IsSpace(s[0]) {
      assert MapChars(s, f)[1..] == MapChars(s[1..], f);
      TrimStartMapChars(s[1..], f);
    }
  }

  lemma TrimEndMapChars(s: string, f: char -> char)
    requires forall c :: IsSpace(f(c)) <==> IsSpace(c)
    ensures TrimEnd(MapChars(s, f)) == MapChars(TrimEnd(s), f)
  {
    if |s| > 0 && IsSpace(s[|s| - 1]) {
      assert MapChars(s, f)[..|s| - 1] == MapChars(s[..|s| - 1], f);
      TrimEndMapChars(s[..|s| - 1], f);
    }
  }

  /** Stripping commutes with any character map that keeps white space and
      non-white space apart (lower-casing, replacing `\` by `/`). */
  lemma StripMapChars(s: string, f: char -> char)
    requires forall c :: IsSpace(f(c)) <==> IsSpace(c)
    ensures Strip(MapChars(s, f)) == MapChars(Strip(s), f)
  {
    TrimStartMapChars(s, f);
    TrimEndMapChars(TrimStart(s), f);
  }

  predicate IsUpper(c: char)
  {
    'A' <= c <= 'Z'
  }

  /** `u` is an upper-case ASCII letter and `l` the lower-case letter at the
      same place in the alphabet. */
  predicate SameLetter(u: char, l: char)
  {
    'A' <= u <= 'Z' && 'a' <= l <= 'z' && u as int - 'A' as int == l as int - 'a' as int
  }

  /** `a` and `b` are the same character, or the upper- and lower-case
      forms of one ASCII letter. */
  predicate CaseVariant(a: char, b: char)
  {
    a == b || SameLetter(a, b) || SameLetter(b, a)
  }

  /** ASCII part of Python's `str.lower`: the one case variant of `c` that
      is not an upper-case letter. */
  function LowerChar(c: char): (r: char)
    ensures !IsUpper(r) && CaseVariant(c, r)
    ensures IsSpace(r) <==> IsSpace(c)
  {
    if IsUpper(c) then (c as int + 32) as char else c
  }

  /** Two characters lower-case alike exactly when they are case variants. */
  lemma LowerCharCaseVariant(a: char, b: char)
    ensures LowerChar(a) == LowerChar(b) <==> CaseVariant(a, b)
  {
  }

  predicate IsLower(s: string)
  {
    forall i :: 0 <= i < |s| ==> !IsUpper(s[i])
  }

  /** Python's `str.lower` on ASCII letters: each character replaced by
      its case variant that is not upper-case. */
  function Lower(s: string): (r: string)
    ensures |r| == |s| && IsLower(r)
    ensures forall i :: 0 <= i < |s| ==> CaseVariant(s[i], r[i])
  {
    MapChars(s, LowerChar)
  }

  /** `s.lower() == t.lower()` exactly when the strings differ only in the
      case of ASCII letters, position by position. */
  lemma LowerCaseVariants(s: string, t: string)
    ensures Lower(s) == Lower(t) <==>
      |s| == |t| && forall i :: 0 <= i < |s| ==> CaseVariant(s[i], t[i])
  {
    if |s| == |t| {
      forall i | 0 <= i < |s|
        ensures Lower(s)[i] == Lower(t)[i] <==> CaseVariant(s[i], t[i])
      {
        LowerCharCaseVariant(s[i], t[i]);
      }
      if forall i :: 0 <= i < |s| ==> CaseVariant(s[i], t[i]) {
        assert Lower(s) == Lower(t);
      }
    }
  }

  lemma LowerIdempotent(s: string)
    ensures Lower(Lower(s)) == Lower(s)
  {
  }

  /** Stripping and lower-casing commute, so `strip().lower()` and
      `lower().strip()` agree. */
  lemma StripLower(s: string)
    ensures Strip(Lower(s)) == Lower(Strip(s))
  {
    StripMapChars(s, LowerChar);
  }

  /** Python's `str.replace(a, b)` for single characters. */
  function ReplaceChar(s: string, a: char, b: char): (r: string)
    ensures |r| == |s|
    ensures a !in r || a == b
  {
    MapChars(s, c => if c == a then b else c)
  }

  /** `sub` occurs in `s` starting at index `i`. */
  predicate OccursAt(s: string, sub: string, i: int)
  {
    0 <= i && i + |sub| <= |s| && s[i..i + |sub|] == sub
  }

  /** Python's `sub in s`. */
  predicate Contains(s: string, sub: string)
  {
    exists i :: 0 <= i <= |s| - |sub| && OccursAt(s, sub, i)
  }

  /** Python's `s.split(sep)`: always at least one part, none holding `sep`. */
  function Split(s: string, sep: char): (parts: seq<string>)
    ensures |parts| >= 1
    ensures forall i :: 0 <= i < |parts| ==> sep !in parts[i]
    decreases |s|
  {
    if |s| == 0 then [""]
    else
      var rest := Split(s[1..], sep);
      if s[0] == sep then [""] + rest
      else [[s[0]] + rest[0]] + rest[1..]
  }

  /** Python's `sep.join(parts)`. */
  function Join(parts: seq<string>, sep: char): string
  {
    if |parts| == 0 then ""
    else if |parts| == 1 then parts[0]
    else parts[0] + [sep] + Join(parts[1..], sep)
  }

  lemma {:induction false} JoinSplit(s: string, sep: char)
    ensures Join(Split(s, sep), sep) == s
    decreases |s|
  {
    if |s| > 0 {
      var rest := Split(s[1..], sep);
      JoinSplit(s[1..], sep);
      if s[0] == sep {
        assert Split(s, sep) == [""] + rest;
        assert ([""] + rest)[1..] == rest;
      } else if |rest| == 1 {
        assert [s[0]] + s[1..] == s;
      } else {
        assert Join(rest, sep) == rest[0] + [sep] + Join(rest[1..], sep);
        assert ([[s[0]] + rest[0]] + rest[1..])[1..] == rest[1..];
        assert [s[0]] + s[1..] == s;
      }
    }
  }

  lemma {:induction false} SplitWithoutSep(s: string, sep: char)
    requires sep !in s
    ensures Split(s, sep) == [s]
    decreases |s|
  {
    if |s| > 0 {
      SplitWithoutSep(s[1..], sep);
      assert [s[0]] + s[1..] == s;
    }
  }

  lemma {:induction false} SplitAfterPart(a: string, b: string, sep: char)
    requires sep !in a
    ensures Split(a + [sep] + b, sep) == [a] + Split(b, sep)
    decreases |a|
  {
    var s := a + [sep] + b;
    if |a| == 0 {
      assert s[1..] == b;
    } else {
      assert s[1..] == a[1..] + [sep] + b;
      SplitAfterPart(a[1..], b, sep);
      assert [a[0]] + a[1..] == a;
    }
  }

  /** Splitting at one separator splits the text into the parts on either
      side of it. */
  lemma {:induction false} SplitAppend(a: string, b: string, sep: char)
    ensures Split(a + [sep] + b, sep) == Split(a, sep) + Split(b, sep)
    decreases |a|
  {
    var s := a + [sep] + b;
    var sb := Split(b, sep);
    if |a| == 0 {
      assert s == [sep] + b && s[1..] == b;
    } else {
      assert s[0] == a[0] && s[1..] == a[1..] + [sep] + b;
      SplitAppend(a[1..], b, sep);
      var ra := Split(a[1..], sep);
      var rest := Split(s[1..], sep);
      assert rest == ra + sb;
      if a[0] == sep {
        Assoc([""], ra, sb);
      } else {
        HeadTailAppend(ra, sb);
        Assoc([[a[0]] + ra[0]], ra[1..], sb);
      }
    }
  }

  lemma HeadTailAppend<T>(x: seq<T>, y: seq<T>)
    requires |x| >= 1
    ensures (x + y)[0] == x[0] && (x + y)[1..] == x[1..] + y
  {
  }

  lemma Assoc<T>(x: seq<T>, y: seq<T>, z: seq<T>)
    ensures x + (y + z) == (x + y) + z
  {
  }

  /** Joining two non-empty lists puts one separator between their joins. */
  lemma {:induction false} JoinAppend(a: seq<string>, b: seq<string>, sep: char)
    requires |a| >= 1 && |b| >= 1
    ensures Join(a + b, sep) == Join(a, sep) + [sep] + Join(b, sep)
    decreases |a|
  {
    if |a| > 1 {
      assert (a + b)[1..] == a[1..] + b;
      JoinAppend(a[1..], b, sep);
    } else {
      assert (a + b)[1..] == b;
    }
  }

  /** Splitting undoes joining when no part holds the separator. */
  lemma {:induction false} SplitJoin(parts: seq<string>, sep: char)
    requires |parts| >= 1
    requires forall i :: 0 <= i < |parts| ==> sep !in parts[i]
    ensures Split(Join(parts, sep), sep) == parts
    decreases |parts|
  {
    if |parts| == 1 {
      SplitWithoutSep(parts[0], sep);
    } else {
      SplitAfterPart(parts[0], Join(parts[1..], sep), sep);
      SplitJoin(parts[1..], sep);
      assert [parts[0]] + parts[1..] == parts;
    }
  }

  lemma JoinStart(parts: seq<string>, sep: char)
    requires |parts| >= 1 && parts[0] != ""
    ensures Join(parts, sep) != "" && Join(parts, sep)[0] == parts[0][0]
  {
  }

  predicate IsDigit(c: char)
  {
    '0' <= c <= '9'
  }

  predicate AllDigits(s: string)
  {
    forall i :: 0 <= i < |s| ==> IsDigit(s[i])
  }

  /** Python's `int(s)` on a string of ASCII digits (`"007"` is 7; `""` is 0). */
  function DigitsValue(s: string): nat
    requires AllDigits(s)
  {
    if s == "" then 0
    else DigitsValue(s[..|s| - 1]) * 10 + (s[|s| - 1] as int - '0' as int)
  }

  function DigitChar(d: nat): (c: char)
    requires d < 10
    ensures IsDigit(c)
  {
    ('0' as int + d) as char
  }

  /** A decimal numeral as `str` writes one: digits, with no leading zero
      unless the numeral is `0` itself. */
  predicate IsNumeral(s: string)
  {
    s != "" && AllDigits(s) && (s == "0" || s[0] != '0')
  }

  /** Python's `str(n)` for a natural number. */
  function NatToString(n: nat): (r: string)
    ensures IsNumeral(r)
    ensures r == "0" <==> n == 0
  {
    if n < 10 then [DigitChar(n)] else NatToString(n / 10) + [DigitChar(n % 10)]
  }

  /** `int(str(n)) == n`. */
  lemma {:induction false} NatToStringRoundTrip(n: nat)
    ensures DigitsValue(NatToString(n)) == n
  {
    if n >= 10 {
      var r := NatToString(n);
      assert r[..|r| - 1] == NatToString(n / 10);
      NatToStringRoundTrip(n / 10);
    }
  }

  /** Every numeral is `str` of its value, so `str(int(s)) == s` exactly for
      numerals: `str` picks the one spelling without leading zeros. */
  lemma {:induction false} NumeralRoundTrip(s: string)
    requires IsNumeral(s)
    ensures NatToString(DigitsValue(s)) == s
  {
    if |s| > 1 {
      var p := s[..|s| - 1];
      assert p[0] == s[0] && p != "0";
      NumeralRoundTrip(p);
      var v, d := DigitsValue(p), s[|s| - 1] as int - '0' as int;
      assert v != 0;
      var n := v * 10 + d;
      assert n / 10 == v && n % 10 == d;
      assert s == p + [DigitChar(d)];
    }
  }

  lemma NatToStringInjective(m: nat, n: nat)
    requires NatToString(m) == NatToString(n)
    ensures m == n
  {
    NatToStringRoundTrip(m);
    NatToStringRoundTrip(n);
  }

  /** A string ending in `:<digits>` splits there in only one way. */
  lemma LastColonSplit(a1: string, d1: string, a2: string, d2: string)
    requires AllDigits(d1) && AllDigits(d2)
    requires a1 + ":" + d1 == a2 + ":" + d2
    ensures a1 == a2 && d1 == d2
  {
    var s := a1 + ":" + d1;
    assert forall m :: |a1| < m < |s| ==> IsDigit(s[m]) by {
      forall m | |a1| < m < |s| ensures IsDigit(s[m]) { assert s[m] == d1[m - |a1| - 1]; }
    }
    assert forall m :: |a2| < m < |s| ==> IsDigit(s[m]) by {
      forall m | |a2| < m < |s| ensures IsDigit(s[m]) { assert s[m] == d2[m - |a2| - 1]; }
    }
    assert s[|a1|] == ':' && s[|a2|] == ':';
    assert |a1| == |a2|;
    assert a1 == s[..|a1|] && a2 == s[..|a2|];
    assert d1 == s[|a1| + 1..] && d2 == s[|a2| + 1..];
  }

  /** Python's `a <= b` on strings: lexicographic by code point. */
  predicate StrLe(a: string, b: string)
  {
    if |a| == 0 then true
    else if |b| == 0 then false
    else if a[0] != b[0] then a[0] < b[0]
    else StrLe(a[1..], b[1..])
  }

  lemma StrLeReflexive(a: string)
    ensures StrLe(a, a)
  {
  }

  lemma StrLeTotal(a: string, b: string)
    ensures StrLe(a, b) || StrLe(b, a)
  {
  }

  lemma StrLeAntisymmetric(a: string, b: string)
    requires StrLe(a, b) && StrLe(b, a)
    ensures a == b
  {
    if |a| > 0 && |b| > 0 {
      StrLeAntisymmetric(a[1..], b[1..]);
      assert a == [a[0]] + a[1..] && b == [b[0]] + b[1..];
    }
  }

  lemma StrLeTransitive(a: string, b: string, c: string)
    requires StrLe(a, b) && StrLe(b, c)
    ensures StrLe(a, c)
  {
    if |a| > 0 && |b| > 0 && |c| > 0 && a[0] == b[0] == c[0] {
      StrLeTransitive(a[1..], b[1..], c[1..]);
    }
  }
}
