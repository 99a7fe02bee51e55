/** The Python string operations the scraper's core relies on, written out:
    substring test, `strip`, `replace`, `split`, the digit filter and `int`,
    slicing with negative bounds, and the two `os.path` helpers it calls. */
module Text {

  // ---------------------------------------------------------------------------
  // Substring test: `sub in s`
  // ---------------------------------------------------------------------------

  /** Python's `sub in s`. */
  predicate Contains(s: string, sub: string)
    decreases |s|
  {
    sub <= s || (s != [] && Contains(s[1..], sub))
  }

  /** `sub` occurs in `s` starting at index `i`. */
  predicate OccursAt(s: string, sub: string, i: nat)
  {
    i + |sub| <= |s| && s[i..i + |sub|] == sub
  }

  /** `Contains` is exactly "occurs at some index". */
  lemma {:induction false} ContainsIffOccurs(s: string, sub: string)
    ensures Contains(s, sub) <==> exists i: nat :: OccursAt(s, sub, i)
    decreases |s|
  {
    if sub <= s {
      assert OccursAt(s, sub, 0);
    } else if s != [] {
      ContainsIffOccurs(s[1..], sub);
      forall i: nat ensures OccursAt(s, sub, i + 1) <==> OccursAt(s[1..], sub, i) {
        if i + 1 + |sub| <= |s| {
          assert s[1..][i..i + |sub|] == s[i + 1..i + 1 + |sub|];
        }
      }
      assert !OccursAt(s, sub, 0);
      if Contains(s[1..], sub) {
        var i: nat :| OccursAt(s[1..], sub, i);
        assert OccursAt(s, sub, i + 1);
      } else {
        forall i: nat ensures !OccursAt(s, sub, i) {
          if i > 0 {
            assert !OccursAt(s[1..], sub, i - 1);
          }
        }
      }
    }
  }

  /** The same for "contains one of several substrings". */
  lemma ContainsAnyIffOccurs(s: string, subs: seq<string>)
    ensures (exists k :: 0 <= k < |subs| && Contains(s, subs[k]))
      <==> exists k: nat, i: nat :: k < |subs| && OccursAt(s, subs[k], i)
  {
    forall k | 0 <= k < |subs| {
      ContainsIffOccurs(s, subs[k]);
    }
    if exists k: nat, i: nat :: k < |subs| && OccursAt(s, subs[k], i) {
      var k: nat, i: nat :| k < |subs| && OccursAt(s, subs[k], i);
      assert Contains(s, subs[k]);
    }
  }

  // ---------------------------------------------------------------------------
  // Whitespace, `strip` and `replace`
  // ---------------------------------------------------------------------------

  /** Python's `str.isspace()` on one character. */
  predicate IsSpace(c: char)
  {
    || ('\t' <= c <= '\r')
    || ('\U{1c}' <= c <= '\U{1f}')
    || c == ' ' || c == '\U{85}' || c == '\U{a0}' || c == '\U{1680}'
    || ('\U{2000}' <= c <= '\U{200a}')
    || c == '\U{2028}' || c == '\U{2029}' || c == '\U{202f}' || c == '\U{205f}' || c == '\U{3000}'
  }

  /** `s.lstrip()`: `s` without its leading whitespace. */
  function TrimStart(s: string): (r: string)
    ensures |r| <= |s|
  {
    if s != [] && IsSpace(s[0]) then TrimStart(s[1..]) else s
  }

  /** `s.rstrip()`: `s` without its trailing whitespace. */
  function TrimEnd(s: string): (r: string)
    ensures |r| <= |s|
  {
    if s != [] && IsSpace(s[|s| - 1]) then TrimEnd(s[..|s| - 1]) else s
  }

  /** `s.strip()`: no longer than `s`, and neither starting nor ending with
      whitespace. */
  function Strip(s: string): (r: string)
    ensures |r| <= |s|
    ensures r == [] || (!IsSpace(r[0]) && !IsSpace(r[|r| - 1]))
  {
    TrimStartIsSuffix(s);
    TrimEndIsPrefix(TrimStart(s));
    TrimEnd(TrimStart(s))
  }

  /** `TrimStart(s)` is the suffix of `s` after its maximal run of leading whitespace. */
  lemma {:induction false} TrimStartIsSuffix(s: string)
    ensures var r := TrimStart(s);
      && r == s[|s| - |r|..]
      && (r == [] || !IsSpace(r[0]))
      && (forall i :: 0 <= i < |s| - |r| ==> IsSpace(s[i]))
  {
    if s != [] && IsSpace(s[0]) {
      TrimStartIsSuffix(s[1..]);
    }
  }

  /** `TrimEnd(s)` is the prefix of `s` before its maximal run of trailing whitespace. */
  lemma {:induction false} TrimEndIsPrefix(s: string)
    ensures var r := TrimEnd(s);
      && r == s[..|r|]
      && (r == [] || !IsSpace(r[|r| - 1]))
      && (forall i :: |r| <= i < |s| ==> IsSpace(s[i]))
  {
    if s != [] && IsSpace(s[|s| - 1]) {
      TrimEndIsPrefix(s[..|s| - 1]);
    }
  }

  /** `Strip(s)` is the infix of `s` left once the whitespace at both ends is cut,
      and it neither starts nor ends with whitespace. */
  lemma StripIsTrimmedInfix(s: string)
    ensures var r, lo := Strip(s), |s| - |TrimStart(s)|;
      && lo + |r| <= |s| && r == s[lo..lo + |r|]
      && (forall i :: 0 <= i < lo ==> IsSpace(s[i]))
      && (forall i :: lo + |r| <= i < |s| ==> IsSpace(s[i]))
      && (r == [] || (!IsSpace(r[0]) && !IsSpace(r[|r| - 1])))
  {
    var t := TrimStart(s);
    var r := TrimEnd(t);
    var lo := |s| - |t|;
    TrimStartIsSuffix(s);
    TrimEndIsPrefix(t);
    assert t == s[lo..] && r == t[..|r|];
    forall i | lo + |r| <= i < |s| ensures IsSpace(s[i]) {
      assert |r| <= i - lo < |t| && s[i] == t[i - lo];
    }
    if r != [] {
      assert t != [] && r[0] == t[0];
      assert !IsSpace(r[0]) && !IsSpace(r[|r| - 1]);
    }
  }

  /** Stripping twice is stripping once. */
  lemma {:induction false} StripIdempotent(s: string)
    ensures Strip(Strip(s)) == Strip(s)
  {
    var r := Strip(s);
    StripIsTrimmedInfix(s);
    if r != [] {
      assert TrimStart(r) == r;
      assert TrimEnd(r) == r;
    }
  }

  /** `s.replace('\n', ' ')`. */
  function ReplaceNewlines(s: string): (r: string)
    ensures |r| == |s|
  {
    if s == [] then [] else [if s[0] == '\n' then ' ' else s[0]] + ReplaceNewlines(s[1..])
  }

  /** Every line break becomes a space; every other character is kept in place. */
  lemma {:induction false} ReplaceNewlinesPointwise(s: string)
    ensures forall i :: 0 <= i < |s| ==>
      ReplaceNewlines(s)[i] == (if s[i] == '\n' then ' ' else s[i])
  {
    if s != [] {
      ReplaceNewlinesPointwise(s[1..]);
    }
  }

  // ---------------------------------------------------------------------------
  // `split` on a one-character separator
  // ---------------------------------------------------------------------------

  /** Python's `s.split(sep)` for a one-character separator: the maximal
      separator-free pieces, always at least one. */
  function Split(s: string, sep: char): (parts: seq<string>)
    ensures |parts| >= 1
    ensures forall k :: 0 <= k < |parts| ==> sep !in parts[k]
  {
    if s == [] then [[]]
    else
      var rest := Split(s[1..], sep);
      if s[0] == sep then [[]] + rest
      else [[s[0]] + rest[0]] + rest[1..]
  }

  /** `sep.join(parts)`. */
  function Join(parts: seq<string>, sep: char): string
    requires |parts| >= 1
  {
    if |parts| == 1 then parts[0] else parts[0] + [sep] + Join(parts[1..], sep)
  }

  /** Joining the pieces back gives the original string. */
  lemma {:induction false} JoinSplit(s: string, sep: char)
    ensures Join(Split(s, sep), sep) == s
  {
    if s != [] {
      var rest := Split(s[1..], sep);
      JoinSplit(s[1..], sep);
      if s[0] != sep {
        var parts := Split(s, sep);
        if |rest| == 1 {
          assert parts == [[s[0]] + rest[0]];
        } else {
          assert parts[1..] == rest[1..];
          assert Join(rest, sep) == rest[0] + [sep] + Join(rest[1..], sep);
          assert [s[0]] + Join(rest, sep) == s;
        }
      }
    }
  }

  /** A separator-free string is one piece. */
  lemma {:induction false} SplitNoSeparator(x: string, sep: char)
    requires sep !in x
    ensures Split(x, sep) == [x]
  {
    if x != [] {
      SplitNoSeparator(x[1..], sep);
      assert [x[0]] + x[1..] == x;
    }
  }

  /** A separator after a separator-free prefix ends the first piece. */
  lemma {:induction false} SplitAtFirst(x: string, y: string, sep: char)
    requires sep !in x
    ensures Split(x + [sep] + y, sep) == [x] + Split(y, sep)
  {
    if x == [] {
      assert x + [sep] + y == [sep] + y;
      assert ([sep] + y)[1..] == y;
    } else {
      SplitAtFirst(x[1..], y, sep);
      assert (x + [sep] + y)[1..] == x[1..] + [sep] + y;
      assert [x[0]] + x[1..] == x;
    }
  }

  /** Splitting separator-free pieces after joining them gives the pieces back. */
  lemma {:induction false} SplitJoin(parts: seq<string>, sep: char)
    requires |parts| >= 1
    requires forall k :: 0 <= k < |parts| ==> sep !in parts[k]
    ensures Split(Join(parts, sep), sep) == parts
    decreases |parts|
  {
    if |parts| == 1 {
      SplitNoSeparator(parts[0], sep);
    } else {
      SplitJoin(parts[1..], sep);
      SplitAtFirst(parts[0], Join(parts[1..], sep), sep);
    }
  }

  /** There is a second piece exactly when the separator occurs. */
  lemma {:induction false} SplitHasSecondPiece(s: string, sep: char)
    ensures |Split(s, sep)| >= 2 <==> sep in s
  {
    if s != [] {
      SplitHasSecondPiece(s[1..], sep);
      assert sep in s <==> s[0] == sep || sep in s[1..];
    }
  }

  // ---------------------------------------------------------------------------
  // Digits and `int`
  // ---------------------------------------------------------------------------

  predicate IsDigit(c: char)
  {
    '0' <= c <= '9'
  }

  predicate AllDigits(s: string)
  {
    forall i :: 0 <= i < |s| ==> IsDigit(s[i])
  }

  /** `re.sub('[^0-9]', '', s)`: the ASCII digits of `s`, in order. */
  function DigitsOnly(s: string): (d: string)
    ensures AllDigits(d) && |d| <= |s|
    ensures AllDigits(s) ==> d == s
    ensures (forall i :: 0 <= i < |s| ==> !IsDigit(s[i])) ==> d == []
  {
    if s == [] then []
    else (if IsDigit(s[0]) then [s[0]] else []) + DigitsOnly(s[1..])
  }

  /** The filter works character by character: it distributes over
      concatenation, and keeps a single character exactly when it is a digit.
      Together these determine it on every string. */
  lemma {:induction false} DigitsOnlyAppend(a: string, b: string, c: char)
    ensures DigitsOnly(a + b) == DigitsOnly(a) + DigitsOnly(b)
    ensures DigitsOnly([c]) == if IsDigit(c) then [c] else []
    decreases |a|
  {
    assert [c][1..] == [];
    if a == [] {
      assert a + b == b;
    } else {
      var head := if IsDigit(a[0]) then [a[0]] else [];
      assert (a + b)[0] == a[0] && (a + b)[1..] == a[1..] + b;
      DigitsOnlyAppend(a[1..], b, c);
      calc {
        DigitsOnly(a + b);
        head + DigitsOnly(a[1..] + b);
        head + (DigitsOnly(a[1..]) + DigitsOnly(b));
        (head + DigitsOnly(a[1..])) + DigitsOnly(b);
      }
    }
  }

  function DigitValue(c: char): (v: nat)
    requires IsDigit(c)
    ensures v < 10
  {
    c as int - '0' as int
  }

  function DigitChar(v: nat): (c: char)
    requires v < 10
    ensures IsDigit(c) && DigitValue(c) == v
  {
    ('0' as int + v) as char
  }

  function Pow10(k: nat): (p: nat)
    ensures p >= 1
  {
    if k == 0 then 1 else 10 * Pow10(k - 1)
  }

  /** `int(d)` for a string of ASCII digits (leading zeros allowed). */
  function ParseDecimal(d: string): (n: nat)
    requires AllDigits(d)
    ensures n < Pow10(|d|)
  {
    if d == [] then 0
    else
      var m := ParseDecimal(d[..|d| - 1]);
      assert m + 1 <= Pow10(|d| - 1);
      m * 10 + DigitValue(d[|d| - 1])
  }

  /** `str(n)`: the decimal digits of `n`, without leading zeros. */
  function Decimal(n: nat): (s: string)
    ensures AllDigits(s) && s != []
  {
    if n < 10 then [DigitChar(n)] else Decimal(n / 10) + [DigitChar(n % 10)]
  }

  /** Positional value: the digits of `a` followed by those of `b` spell `a`'s number
      shifted left by `|b|` places, plus `b`'s number. */
  lemma {:induction false} ParseDecimalAppend(a: string, b: string)
    requires AllDigits(a) && AllDigits(b)
    ensures AllDigits(a + b)
    ensures ParseDecimal(a + b) == ParseDecimal(a) * Pow10(|b|) + ParseDecimal(b)
    decreases |b|
  {
    var ab := a + b;
    assert forall i :: 0 <= i < |ab| ==> ab[i] == if i < |a| then a[i] else b[i - |a|];
    if b == [] {
      assert ab == a;
    } else {
      var init, last := b[..|b| - 1], b[|b| - 1];
      assert ab[..|ab| - 1] == a + init && ab[|ab| - 1] == last;
      ParseDecimalAppend(a, init);
      assert b[..|b| - 1] == init && b[|b| - 1] == last;
      assert ParseDecimal(ab) == ParseDecimal(a + init) * 10 + DigitValue(last);
      assert ParseDecimal(b) == ParseDecimal(init) * 10 + DigitValue(last);
      assert Pow10(|b|) == 10 * Pow10(|init|);
      ShiftOneDigit(ParseDecimal(a), Pow10(|init|), ParseDecimal(init), DigitValue(last));
    }
  }

  /** The arithmetic step of `ParseDecimalAppend`. */
  lemma ShiftOneDigit(x: nat, p: nat, y: nat, v: nat)
    ensures (x * p + y) * 10 + v == x * (10 * p) + (y * 10 + v)
  {
  }

  /** Leading zeros do not change the value: `int("05") == 5`. */
  lemma ParseDecimalLeadingZero(d: string)
    requires AllDigits(d)
    ensures AllDigits("0" + d) && ParseDecimal("0" + d) == ParseDecimal(d)
  {
    ParseDecimalAppend("0", d);
    assert "0"[..0] == [];
  }

  /** `int(str(n)) == n`. */
  lemma {:induction false} ParseDecimalOfDecimal(n: nat)
    ensures ParseDecimal(Decimal(n)) == n
  {
    if n >= 10 {
      ParseDecimalOfDecimal(n / 10);
      var s := Decimal(n);
      assert s[..|s| - 1] == Decimal(n / 10);
    }
  }

  /** `int(re.sub('[^0-9]', '', s) or '0')`: the number spelled by the digits of `s`,
      0 when it has none. */
  function ParseCount(s: string): (n: nat)
    ensures (forall i :: 0 <= i < |s| ==> !IsDigit(s[i])) ==> n == 0
    ensures s != [] && AllDigits(s) ==> n == ParseDecimal(s)
  {
    var d := DigitsOnly(s);
    if d == [] then 0 else ParseDecimal(d)
  }

  /** The characters that are not digits do not matter, and a rendered count parses back. */
  lemma ParseCountProperties(s: string, n: nat)
    ensures ParseCount(DigitsOnly(s)) == ParseCount(s)
    ensures ParseCount(Decimal(n)) == n
  {
    ParseDecimalOfDecimal(n);
  }

  /** A non-digit anywhere in the text leaves the count unchanged. */
  lemma ParseCountSkipsNonDigit(a: string, c: char, b: string)
    requires !IsDigit(c)
    ensures ParseCount(a + [c] + b) == ParseCount(a + b)
  {
    DigitsOnlyAppend(a + [c], b, c);
    DigitsOnlyAppend(a, [c], c);
    DigitsOnlyAppend(a, b, c);
    assert DigitsOnly(a + [c]) == DigitsOnly(a) + [];
    assert DigitsOnly(a + [c] + b) == DigitsOnly(a + b);
  }

  /** A count written between two runs of non-digit text reads as that count:
      " 12 " and "12*" both give 12. */
  lemma ParseCountOfPaddedDecimal(a: string, n: nat, b: string)
    requires forall i :: 0 <= i < |a| ==> !IsDigit(a[i])
    requires forall i :: 0 <= i < |b| ==> !IsDigit(b[i])
    ensures ParseCount(a + Decimal(n) + b) == n
  {
    var d := Decimal(n);
    DigitsOnlyAppend(a + d, b, ' ');
    DigitsOnlyAppend(a, d, ' ');
    assert DigitsOnly(a + d + b) == d;
    ParseDecimalOfDecimal(n);
  }

  // ---------------------------------------------------------------------------
  // Slices and paths
  // ---------------------------------------------------------------------------

  /** Python's normalisation of a slice bound `i` against a length `n`. */
  function SliceBound(i: int, n: nat): (b: nat)
    ensures b <= n
    ensures 0 <= i <= n ==> b == i
    ensures i < 0 && n + i >= 0 ==> b == n + i
    ensures i > n ==> b == n
    ensures n + i < 0 ==> b == 0
  {
    if i < 0 then (if i + n < 0 then 0 else i + n) else if i > n then n else i
  }

  /** Python's `s[lo:hi]`. */
  function Slice(s: string, lo: int, hi: int): (r: string)
    ensures |r| <= |s|
  {
    var a, b := SliceBound(lo, |s|), SliceBound(hi, |s|);
    if a < b then s[a..b] else []
  }

  /** `os.path.basename(p)`: the part of `p` after its last '/'. */
  function Basename(p: string): (b: string)
    ensures |b| <= |p|
  {
    if p == [] || p[|p| - 1] == '/' then [] else Basename(p[..|p| - 1]) + [p[|p| - 1]]
  }

  /** The base name is the suffix after the last '/', or all of `p` when it has none. */
  lemma {:induction false} BasenameIsLastSegment(p: string)
    ensures var b := Basename(p);
      && '/' !in b && b == p[|p| - |b|..]
      && (|b| < |p| ==> p[|p| - |b| - 1] == '/')
  {
    if p != [] && p[|p| - 1] != '/' {
      var q := p[..|p| - 1];
      BasenameIsLastSegment(q);
      var b := Basename(q);
      assert Basename(p) == b + [p[|p| - 1]];
      assert p[|p| - |b| - 1..] == q[|q| - |b|..] + [p[|p| - 1]];
    }
  }

  /** Whatever comes before a '/' does not change the base name. */
  lemma {:induction false} BasenameAfterSlash(x: string, y: string)
    requires x == [] || x[|x| - 1] == '/' || '/' in y
    ensures Basename(x + y) == Basename(y)
    decreases |y|
  {
    if y != [] {
      var xy := x + y;
      assert xy[|xy| - 1] == y[|y| - 1];
      assert xy[..|xy| - 1] == x + y[..|y| - 1];
      if y[|y| - 1] != '/' {
        assert '/' in y ==> '/' in y[..|y| - 1];
        BasenameAfterSlash(x, y[..|y| - 1]);
      }
    } else {
      assert x + y == x;
    }
  }

  /** `os.path.join(a, b)` on POSIX with two arguments: `b` always ends the result. */
  function PathJoin(a: string, b: string): (r: string)
    ensures |b| <= |r| <= |a| + 1 + |b| && r[|r| - |b|..] == b
  {
    if |b| > 0 && b[0] == '/' then b
    else if a == [] || a[|a| - 1] == '/' then a + b
    else a + "/" + b
  }

  /** A joined path has the base name of its second part. */
  lemma BasenameOfJoin(a: string, b: string)
    ensures Basename(PathJoin(a, b)) == Basename(b)
  {
    if !(|b| > 0 && b[0] == '/') {
      if a == [] || a[|a| - 1] == '/' {
        BasenameAfterSlash(a, b);
      } else {
        assert a + "/" + b == (a + "/") + b;
        BasenameAfterSlash(a + "/", b);
      }
    }
  }
}
