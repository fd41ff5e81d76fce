/**
 * The java.lang.String and Integer operations the annotation tool relies on, with Java's
 * semantics: `split` on a literal separator, `trim`, `contains`, `startsWith`,
 * `equalsIgnoreCase` (ASCII letters only), `Integer.toString` and `Integer.parseInt`.
 */
module JavaStrings {
  import opened Common

  /** `sep` occurs in `s` at offset `i`. */
  predicate MatchAt(s: string, sep: string, i: nat)
  {
    i + |sep| <= |s| && s[i..i + |sep|] == sep
  }

  /** `s.contains(sub)`. */
  predicate Contains(s: string, sub: string)
  {
    exists i: nat | i <= |s| :: MatchAt(s, sub, i)
  }

  /** `s.startsWith(p)`. */
  predicate StartsWith(s: string, p: string)
  {
    |p| <= |s| && s[..|p|] == p
  }

  /**
   * The pieces of `s` between the leftmost non-overlapping occurrences of `sep`, keeping every
   * empty piece (the raw material of `split`).
   */
  function Fields(s: string, sep: string): (r: seq<string>)
    requires |sep| > 0
    ensures |r| >= 1
    decreases |s|
  {
    if |s| < |sep| then [s]
    else if s[..|sep|] == sep then [""] + Fields(s[|sep|..], sep)
    else
      var rest := Fields(s[1..], sep);
      [[s[0]] + rest[0]] + rest[1..]
  }

  /** `fs` without its trailing empty strings. */
  function DropTrailingEmpty(fs: seq<string>): (r: seq<string>)
    ensures |r| <= |fs| && r == fs[..|r|]
    ensures |r| > 0 ==> r[|r| - 1] != ""
  {
    if |fs| > 0 && fs[|fs| - 1] == "" then DropTrailingEmpty(fs[..|fs| - 1]) else fs
  }

  /**
   * `s.split(sep)` for a separator that is matched literally: without an occurrence the
   * result is `[s]`, otherwise the fields with trailing empty ones removed.
   */
  function Split(s: string, sep: string): seq<string>
    requires |sep| > 0
  {
    if !Contains(s, sep) then [s] else DropTrailingEmpty(Fields(s, sep))
  }

  /** `parts` glued together with `c` between neighbours. */
  function Join(parts: seq<string>, c: char): string
    requires |parts| > 0
  {
    if |parts| == 1 then parts[0] else parts[0] + [c] + Join(parts[1..], c)
  }

  lemma {:induction false} JoinAppend(parts: seq<string>, x: string, c: char)
    requires |parts| > 0
    ensures Join(parts + [x], c) == Join(parts, c) + [c] + x
  {
    if |parts| > 1 {
      assert (parts + [x])[1..] == parts[1..] + [x];
      JoinAppend(parts[1..], x, c);
    }
  }

  /** A separator-free string is a single field. */
  lemma {:induction false} FieldsNoSep(a: string, c: char)
    requires c !in a
    ensures Fields(a, [c]) == [a]
    decreases |a|
  {
    if |a| >= 1 {
      assert a[..1] == [a[0]];
      FieldsNoSep(a[1..], c);
      assert [a[0]] + a[1..] == a;
    }
  }

  /** The first separator ends the first field. */
  lemma {:induction false} FieldsCons(a: string, c: char, b: string)
    requires c !in a
    ensures Fields(a + [c] + b, [c]) == [a] + Fields(b, [c])
    decreases |a|
  {
    var s := a + [c] + b;
    if |a| == 0 {
      assert s[..1] == [c];
      assert s[1..] == b;
    } else {
      assert s[..1] == [a[0]];
      assert s[1..] == a[1..] + [c] + b;
      FieldsCons(a[1..], c, b);
      assert [a[0]] + a[1..] == a;
    }
  }

  lemma {:induction false} FieldsJoin(parts: seq<string>, c: char)
    requires |parts| > 0
    requires forall i :: 0 <= i < |parts| ==> c !in parts[i]
    ensures Fields(Join(parts, c), [c]) == parts
    decreases |parts|
  {
    if |parts| == 1 {
      FieldsNoSep(parts[0], c);
    } else {
      FieldsCons(parts[0], c, Join(parts[1..], c));
      FieldsJoin(parts[1..], c);
    }
  }

  lemma NoMatchWithout(s: string, c: char)
    requires c !in s
    ensures !Contains(s, [c])
  {
    forall i: nat | i <= |s|
      ensures !MatchAt(s, [c], i)
    {
      if i + 1 <= |s| {
        assert s[i..i + 1] == [s[i]];
      }
    }
  }

  lemma ContainsAt(s: string, sep: string, i: nat)
    requires MatchAt(s, sep, i)
    ensures Contains(s, sep)
  {
  }

  /**
   * Splitting a join on a single-character separator gives the parts back, provided the parts
   * are free of the separator and the last one is not empty.
   */
  lemma {:induction false} SplitJoin(parts: seq<string>, c: char)
    requires |parts| > 0
    requires forall i :: 0 <= i < |parts| ==> c !in parts[i]
    requires parts[|parts| - 1] != ""
    ensures Split(Join(parts, c), [c]) == parts
  {
    var s := Join(parts, c);
    FieldsJoin(parts, c);
    if |parts| == 1 {
      NoMatchWithout(s, c);
    } else {
      assert s == parts[0] + [c] + Join(parts[1..], c);
      assert s[|parts[0]|] == c;
      assert s[|parts[0]|..|parts[0]| + 1] == [c];
      ContainsAt(s, [c], |parts[0]|);
    }
  }

  /** Java's `Character` test used by `trim`: every code point up to the space. */
  predicate IsTrimmable(c: char)
  {
    c <= ' '
  }

  /** How many trimmable characters `s` starts with. */
  function LeadingTrimmable(s: string): (n: nat)
    ensures n <= |s| && (n < |s| ==> !IsTrimmable(s[n]))
    ensures forall k :: 0 <= k < n ==> IsTrimmable(s[k])
  {
    if |s| == 0 || !IsTrimmable(s[0]) then 0 else 1 + LeadingTrimmable(s[1..])
  }

  /** How many trimmable characters `s` ends with. */
  function TrailingTrimmable(s: string): (n: nat)
    ensures n <= |s| && (n < |s| ==> !IsTrimmable(s[|s| - 1 - n]))
    ensures forall k :: |s| - n <= k < |s| ==> IsTrimmable(s[k])
  {
    if |s| == 0 || !IsTrimmable(s[|s| - 1]) then 0 else 1 + TrailingTrimmable(s[..|s| - 1])
  }

  /**
   * `s.trim()`: drop leading and trailing characters up to the space. The result is the
   * stretch of `s` between the first and the last character that is not trimmable.
   */
  function Trim(s: string): (r: string)
    ensures |r| > 0 ==> !IsTrimmable(r[0]) && !IsTrimmable(r[|r| - 1])
    ensures exists i, j :: (0 <= i <= j <= |s| && r == s[i..j]
                            && (forall k :: 0 <= k < i ==> IsTrimmable(s[k]))
                            && (forall k :: j <= k < |s| ==> IsTrimmable(s[k])))
  {
    var i := LeadingTrimmable(s);
    var rest := s[i..];
    var j := |s| - TrailingTrimmable(rest);
    assert rest[..j - i] == s[i..j];
    assert forall k :: j <= k < |s| ==> s[k] == rest[k - i];
    s[i..j]
  }

  /** ASCII lower-casing of one character. */
  function Lower(c: char): char
  {
    if 'A' <= c <= 'Z' then (c as int + 32) as char else c
  }

  /** `a.equalsIgnoreCase(b)` on ASCII letters. */
  predicate EqualsIgnoreCase(a: string, b: string)
  {
    |a| == |b| && forall i :: 0 <= i < |a| ==> Lower(a[i]) == Lower(b[i])
  }

  lemma EqualsIgnoreCaseIsEquivalence(a: string, b: string, c: string)
    ensures EqualsIgnoreCase(a, a)
    ensures EqualsIgnoreCase(a, b) ==> EqualsIgnoreCase(b, a)
    ensures EqualsIgnoreCase(a, b) && EqualsIgnoreCase(b, c) ==> EqualsIgnoreCase(a, c)
  {
  }

  predicate IsDigit(c: char)
  {
    '0' <= c <= '9'
  }

  predicate AllDigits(s: string)
  {
    forall i :: 0 <= i < |s| ==> IsDigit(s[i])
  }

  function DigitChar(d: nat): (c: char)
    requires d < 10
    ensures IsDigit(c) && c as int - '0' as int == d
  {
    ('0' as int + d) as char
  }

  /** Decimal digits of `n`, most significant first, without leading zeros. */
  function NatToString(n: nat): (r: string)
    ensures |r| > 0 && AllDigits(r)
  {
    if n < 10 then [DigitChar(n)] else NatToString(n / 10) + [DigitChar(n % 10)]
  }

  function Pow10(k: nat): (r: nat)
    ensures r >= 1
  {
    if k == 0 then 1 else 10 * Pow10(k - 1)
  }

  /** A number of at least 10^k takes more than k digits. */
  lemma {:induction false} NatToStringLength(n: nat, k: nat)
    requires n >= Pow10(k)
    ensures |NatToString(n)| > k
  {
    if k > 0 {
      NatToStringLength(n / 10, k - 1);
    }
  }

  /** `Integer.toString(x)`. */
  function IntToString(x: int): (r: string)
    ensures |r| > 0 && forall i :: 0 <= i < |r| ==> IsDigit(r[i]) || (i == 0 && r[i] == '-')
  {
    if x < 0 then "-" + NatToString(-x) else NatToString(x)
  }

  /** The value of a string of decimal digits. */
  function DigitsValue(ds: string): nat
    requires AllDigits(ds)
  {
    if |ds| == 0 then 0
    else DigitsValue(ds[..|ds| - 1]) * 10 + (ds[|ds| - 1] as int - '0' as int)
  }

  /**
   * `Integer.parseInt(s)`: an optional sign, at least one ASCII digit, and a value inside
   * the `int` range; anything else is a NumberFormatException.
   */
  function ParseInt(s: string): (r: Result<Int32>)
    ensures r.Ok? ==> |s| > 0
    ensures r.Fail? ==> r.exc == NumberFormat
  {
    if |s| == 0 then Fail(NumberFormat)
    else
      var body := if s[0] == '-' || s[0] == '+' then s[1..] else s;
      if |body| == 0 || !AllDigits(body) then Fail(NumberFormat)
      else
        var n: int := DigitsValue(body);
        var v := if s[0] == '-' then -n else n;
        if INT_MIN <= v <= INT_MAX then Ok(v) else Fail(NumberFormat)
  }

  lemma {:induction false} DigitsOfNat(n: nat)
    ensures DigitsValue(NatToString(n)) == n
  {
    if n >= 10 {
      var r := NatToString(n);
      assert r[..|r| - 1] == NatToString(n / 10);
      DigitsOfNat(n / 10);
    }
  }

  /** `Integer.parseInt(Integer.toString(x)) == x` for every `int`. */
  lemma ParseIntToString(x: Int32)
    ensures ParseInt(IntToString(x)) == Ok(x)
  {
    if x < 0 {
      var n: nat := -(x as int);
      DigitsOfNat(n);
      assert ("-" + NatToString(n))[1..] == NatToString(n);
    } else {
      DigitsOfNat(x);
    }
  }

  /** Distinct numbers print differently. */
  lemma NatToStringInjective(m: nat, n: nat)
    requires NatToString(m) == NatToString(n)
    ensures m == n
  {
    DigitsOfNat(m);
    DigitsOfNat(n);
  }
}
