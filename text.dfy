/**
 * String-level helpers the core relies on: decimal numerals, the first
 * occurrence of a character, `str::strip_prefix`, substring search,
 * ASCII lower-casing and `join`.
 */
module Text {
  import opened Domain

  // ---------------------------------------------------------------- decimal numerals

  predicate IsDigit(c: char) { '0' <= c <= '9' }

  predicate AllDigits(s: string) { forall i :: 0 <= i < |s| ==> IsDigit(s[i]) }

  function DigitChar(d: nat): (c: char)
    requires d < 10
    ensures IsDigit(c) && c as int - '0' as int == d
  {
    ('0' as int + d) as char
  }

  function DigitValue(c: char): nat
    requires IsDigit(c)
  {
    c as int - '0' as int
  }

  /** The shortest decimal numeral of `n`. */
  function Decimal(n: nat): (s: string)
    ensures |s| > 0 && AllDigits(s)
  {
    if n < 10 then [DigitChar(n)] else Decimal(n / 10) + [DigitChar(n % 10)]
  }

  /** The value of a numeral (leading zeros allowed). */
  function DecimalValue(s: string): nat
    requires AllDigits(s)
  {
    if s == [] then 0 else DecimalValue(s[..|s| - 1]) * 10 + DigitValue(s[|s| - 1])
  }

  lemma {:induction false} DecimalRoundTrip(n: nat)
    ensures DecimalValue(Decimal(n)) == n
  {
    if n >= 10 {
      var s := Decimal(n);
      assert s[..|s| - 1] == Decimal(n / 10);
      DecimalRoundTrip(n / 10);
    }
  }

  /** A numeral of a natural number, if `s` is one. */
  function ParseNat(s: string): (r: Option<nat>)
    ensures r.Some? <==> |s| > 0 && AllDigits(s)
  {
    if |s| > 0 && AllDigits(s) then Some(DecimalValue(s)) else None
  }

  /** The numeral of an integer: an optional minus sign and a decimal numeral. */
  function IntText(i: int): string
  {
    if i < 0 then "-" + Decimal(-i) else Decimal(i)
  }

  function ParseInt(s: string): Option<int>
  {
    if |s| > 0 && s[0] == '-' then
      match ParseNat(s[1..])
      case Some(n) => Some(-(n as int))
      case None => None
    else
      match ParseNat(s)
      case Some(n) => Some(n)
      case None => None
  }

  lemma ParseIntRoundTrip(i: int)
    ensures ParseInt(IntText(i)) == Some(i)
  {
    if i < 0 {
      var s := IntText(i);
      assert s[1..] == Decimal(-i);
      DecimalRoundTrip(-i);
    } else {
      DecimalRoundTrip(i);
    }
  }

  // ---------------------------------------------------------------- visible ASCII

  /** Every character is visible ASCII (a space up to `~`). */
  predicate Printable(s: string)
  {
    s == [] || (' ' <= s[0] <= '~' && Printable(s[1..]))
  }

  /** The same, stated character by character. */
  lemma {:induction false} PrintableAt(s: string)
    ensures Printable(s) <==> forall i :: 0 <= i < |s| ==> ' ' <= s[i] <= '~'
  {
    if s != [] {
      PrintableAt(s[1..]);
      assert forall i :: 1 <= i < |s| ==> s[i] == s[1..][i - 1];
    }
  }

  lemma {:induction false} PrintableAppend(a: string, b: string)
    requires Printable(a) && Printable(b)
    ensures Printable(a + b)
  {
    if a != [] {
      assert (a + b)[0] == a[0] && (a + b)[1..] == a[1..] + b;
      PrintableAppend(a[1..], b);
    } else {
      assert a + b == b;
    }
  }

  lemma DigitsPrintable(s: string)
    requires AllDigits(s)
    ensures Printable(s)
  {
    PrintableAt(s);
  }

  lemma IntTextPrintable(i: int)
    ensures Printable(IntText(i))
  {
    if i < 0 {
      DigitsPrintable(Decimal(-i));
      PrintableAppend("-", Decimal(-i));
    } else {
      DigitsPrintable(Decimal(i));
    }
  }

  // ---------------------------------------------------------------- searching

  /** The index of the first occurrence of `c` in `s`. */
  function IndexOf(s: string, c: char): (r: Option<nat>)
    ensures r.Some? ==> r.value < |s| && s[r.value] == c && c !in s[..r.value]
    ensures r.None? ==> c !in s
  {
    if s == [] then None
    else if s[0] == c then Some(0)
    else
      match IndexOf(s[1..], c)
      case Some(k) => assert s[1..][..k] == s[1..k + 1]; Some(k + 1)
      case None => None
  }

  /** The first `c` of `a + [c] + rest` is the one after `a` when `a` has none. */
  lemma IndexOfAfter(a: string, c: char, rest: string)
    requires c !in a
    ensures IndexOf(a + [c] + rest, c) == Some(|a|)
  {
    var s := a + [c] + rest;
    assert s[|a|] == c;
    assert s[..|a|] == a;
  }

  /** `s` with the prefix `p` removed, as `str::strip_prefix` (exact and case-sensitive). */
  function StripPrefix(s: string, p: string): (r: Option<string>)
    ensures r.Some? <==> p <= s
    ensures r.Some? ==> p + r.value == s
  {
    if p <= s then Some(s[|p|..]) else None
  }

  /** `t` occurs in `s` as a contiguous substring. */
  predicate Contains(s: string, t: string)
  {
    t <= s || (s != [] && Contains(s[1..], t))
  }

  lemma {:induction false} ContainsAt(s: string, t: string, i: nat)
    requires i + |t| <= |s| && s[i..i + |t|] == t
    ensures Contains(s, t)
  {
    if i > 0 {
      assert s[1..][i - 1..i - 1 + |t|] == s[i..i + |t|];
      ContainsAt(s[1..], t, i - 1);
    }
  }

  lemma {:induction false} ContainsAppendLeft(a: string, b: string, t: string)
    requires Contains(b, t)
    ensures Contains(a + b, t)
  {
    if a != [] {
      ContainsAppendLeft(a[1..], b, t);
      assert (a + b)[1..] == a[1..] + b;
    } else {
      assert a + b == b;
    }
  }

  lemma {:induction false} ContainsAppendRight(a: string, b: string, t: string)
    requires Contains(a, t)
    ensures Contains(a + b, t)
  {
    if !(t <= a) {
      ContainsAppendRight(a[1..], b, t);
      assert (a + b)[1..] == a[1..] + b;
    }
  }

  /** A substring of a substring is a substring: here, a prefix of `t`. */
  lemma {:induction false} ContainsPrefixOf(s: string, t: string, u: string)
    requires Contains(s, t) && u <= t
    ensures Contains(s, u)
  {
    if !(t <= s) {
      ContainsPrefixOf(s[1..], t, u);
    }
  }

  /** A needle with a character that the haystack lacks does not occur in it. */
  lemma {:induction false} NotContainsMissingChar(s: string, t: string, j: nat)
    requires j < |t| && t[j] !in s
    ensures !Contains(s, t)
  {
    if s != [] {
      NotContainsMissingChar(s[1..], t, j);
    }
  }

  /**
   * A needle does not occur where each occurrence of one of its characters
   * comes too late for the rest of the needle to fit.
   */
  lemma {:induction false} NotContainsLateChar(s: string, t: string, j: nat)
    requires j < |t|
    requires forall k :: 0 <= k < |s| && s[k] == t[j] ==> k + |t| - j > |s|
    ensures !Contains(s, t)
  {
    assert j < |s| && s[j] == t[j] ==> |t| > |s|;
    if s != [] {
      forall k | 0 <= k < |s[1..]| && s[1..][k] == t[j]
        ensures k + |t| - j > |s[1..]|
      {
        assert s[k + 1] == t[j];
      }
      NotContainsLateChar(s[1..], t, j);
    }
  }

  // ---------------------------------------------------------------- case

  function LowerChar(c: char): char
  {
    if 'A' <= c <= 'Z' then (c as int - 'A' as int + 'a' as int) as char else c
  }

  /** ASCII lower-casing, character by character. */
  function Lower(s: string): (r: string)
    ensures |r| == |s|
  {
    seq(|s|, i requires 0 <= i < |s| => LowerChar(s[i]))
  }

  lemma {:induction false} LowerPreservesContains(s: string, t: string)
    requires Contains(s, t)
    ensures Contains(Lower(s), Lower(t))
  {
    if t <= s {
      assert Lower(t) == Lower(s)[..|t|];
    } else {
      LowerPreservesContains(s[1..], t);
      assert Lower(s)[1..] == Lower(s[1..]);
    }
  }

  // ---------------------------------------------------------------- join

  /** `parts.join(sep)`: the parts with `sep` between neighbours. */
  function Join(parts: seq<string>, sep: string): string
  {
    if |parts| == 0 then ""
    else if |parts| == 1 then parts[0]
    else parts[0] + sep + Join(parts[1..], sep)
  }

  lemma JoinStartsWithFirst(parts: seq<string>, sep: string)
    ensures |parts| > 0 ==> parts[0] <= Join(parts, sep)
  {
  }

  lemma {:induction false} JoinContainsPart(parts: seq<string>, sep: string, k: nat)
    requires k < |parts|
    ensures Contains(Join(parts, sep), parts[k])
  {
    if |parts| > 1 {
      if k == 0 {
        assert Contains(parts[0], parts[0]);
        ContainsAppendRight(parts[0], sep + Join(parts[1..], sep), parts[0]);
        assert parts[0] + sep + Join(parts[1..], sep) == parts[0] + (sep + Join(parts[1..], sep));
      } else {
        JoinContainsPart(parts[1..], sep, k - 1);
        ContainsAppendLeft(parts[0] + sep, Join(parts[1..], sep), parts[k]);
      }
    } else {
      assert parts[k] <= Join(parts, sep);
    }
  }
}
