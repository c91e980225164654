/** The JavaScript string built-ins the repository leans on, written out:
    `String(n)` for integers, the two-character `padStart(2, "0")` helper that
    several files define as `pad`, `toLowerCase`, and `split`/`join`. */
module Strings {

  predicate IsDigit(c: char) {
    '0' <= c <= '9'
  }

  predicate AllDigits(s: string) {
    forall i :: 0 <= i < |s| ==> IsDigit(s[i])
  }

  function DigitChar(d: nat): (c: char)
    requires d < 10
    ensures IsDigit(c) && c as int - '0' as int == d
  {
    (d + '0' as int) as char
  }

  /** The value of a string of decimal digits (the inverse of NatToString). */
  function DigitsValue(s: string): nat
    requires AllDigits(s)
  {
    if s == [] then 0 else DigitsValue(s[..|s| - 1]) * 10 + (s[|s| - 1] as int - '0' as int)
  }

  /** `String(n)` for a non-negative integer: its decimal digits, without leading zeros. */
  function NatToString(n: nat): (s: string)
    ensures 1 <= |s| && AllDigits(s)
    ensures |s| == 1 <==> n < 10
    ensures |s| > 1 ==> s[0] != '0'
    decreases n
  {
    if n < 10 then [DigitChar(n)] else NatToString(n / 10) + [DigitChar(n % 10)]
  }

  lemma {:induction false} NatToStringRoundTrip(n: nat)
    ensures DigitsValue(NatToString(n)) == n
  {
    if n >= 10 {
      NatToStringRoundTrip(n / 10);
      var s := NatToString(n);
      assert s[..|s| - 1] == NatToString(n / 10);
    }
  }

  /** `String(n)` for an integer: a minus sign for negative values, then the digits. */
  function IntToString(n: int): (s: string)
    ensures 1 <= |s|
    ensures n >= 0 <==> AllDigits(s)
    ensures n < 0 ==> s[0] == '-' && s[1..] == NatToString(-n)
  {
    if n < 0 then
      var s := "-" + NatToString(-n);
      assert !IsDigit(s[0]);
      s
    else NatToString(n)
  }

  /** Distinct integers print differently. */
  lemma IntToStringInjective(a: int, b: int)
    requires IntToString(a) == IntToString(b)
    ensures a == b
  {
    if a < 0 {
      NatToStringRoundTrip(-a);
      NatToStringRoundTrip(-b);
    } else {
      NatToStringRoundTrip(a);
      NatToStringRoundTrip(b);
    }
  }

  /** `String(2018)`, the year of the repository's examples. */
  lemma PrintedYearExample()
    ensures IntToString(2018) == "2018"
  {
    assert NatToString(2) == "2";
    assert NatToString(20) == "20";
    assert NatToString(201) == "201";
  }

  /** `s.padStart(2, "0")`. */
  function PadStart2(s: string): (r: string)
    ensures |s| >= 2 ==> r == s
    ensures |s| < 2 ==> |r| == 2 && r[2 - |s|..] == s && forall i :: 0 <= i < 2 - |s| ==> r[i] == '0'
  {
    if |s| >= 2 then s else if |s| == 1 then "0" + s else "00"
  }

  /** `String(value).padStart(2, "0")`, the `pad` helper of the repository. */
  function Pad2(value: int): string {
    PadStart2(IntToString(value))
  }

  /** A single digit prints as itself. */
  lemma OneDigit(d: nat)
    requires d < 10
    ensures NatToString(d) == [DigitChar(d)]
  {
  }

  /** A number from 10 to 99 prints as its tens digit then its units digit. */
  lemma TwoDigits(v: nat)
    requires 10 <= v < 100
    ensures NatToString(v) == [DigitChar(v / 10), DigitChar(v % 10)]
  {
    OneDigit(v / 10);
  }

  /** Two digits read back as tens and units. */
  lemma DigitsValueTwo(hi: char, lo: char)
    requires IsDigit(hi) && IsDigit(lo)
    ensures AllDigits([hi, lo])
    ensures DigitsValue([hi, lo]) == (hi as int - '0' as int) * 10 + (lo as int - '0' as int)
  {
    assert [hi, lo][..1] == [hi];
    assert [hi][..0] == [];
    assert DigitsValue([hi]) == hi as int - '0' as int;
    assert DigitsValue([hi, lo]) == DigitsValue([hi]) * 10 + (lo as int - '0' as int);
  }

  /** For 0..99 the pad is exactly two digits, tens then units (a leading "0" below 10). */
  lemma Pad2TwoDigits(v: int)
    requires 0 <= v < 100
    ensures Pad2(v) == [DigitChar(v / 10), DigitChar(v % 10)]
    ensures AllDigits(Pad2(v)) && DigitsValue(Pad2(v)) == v
  {
    var hi, lo := DigitChar(v / 10), DigitChar(v % 10);
    if v < 10 {
      OneDigit(v);
      assert IntToString(v) == [lo];
      assert hi == '0';
    } else {
      TwoDigits(v);
    }
    assert Pad2(v) == [hi, lo];
    DigitsValueTwo(hi, lo);
  }

  /** Values from 100 up print with three or more characters: `pad` adds nothing. */
  lemma Pad2Wide(v: int)
    requires v >= 100
    ensures Pad2(v) == IntToString(v) && |Pad2(v)| >= 3
  {
    assert NatToString(v) == NatToString(v / 10) + [DigitChar(v % 10)];
  }

  predicate IsUpper(c: char) {
    'A' <= c <= 'Z'
  }

  function LowerChar(c: char): (d: char)
    ensures !IsUpper(d)
    ensures IsUpper(c) ==> d as int == c as int + 32
    ensures !IsUpper(c) ==> d == c
  {
    if IsUpper(c) then (c as int + 32) as char else c
  }

  /** `s.toLowerCase()`, restricted to the ASCII letters: each character on its own. */
  function ToLower(s: string): (r: string)
    ensures |r| == |s|
  {
    seq(|s|, i requires 0 <= i < |s| => LowerChar(s[i]))
  }

  lemma ToLowerAt(s: string, i: nat)
    requires i < |s|
    ensures ToLower(s)[i] == LowerChar(s[i])
  {
  }

  /** The result holds no upper-case letter. */
  lemma ToLowerNoUpper(s: string)
    ensures forall i :: 0 <= i < |s| ==> !IsUpper(ToLower(s)[i])
  {
  }

  /** Lower-casing works character by character, so it distributes over concatenation. */
  lemma ToLowerAppend(a: string, b: string)
    ensures ToLower(a + b) == ToLower(a) + ToLower(b)
  {
    forall k | 0 <= k < |a| + |b| ensures ToLower(a + b)[k] == (ToLower(a) + ToLower(b))[k] {
      if k < |a| {
        assert (a + b)[k] == a[k];
      } else {
        assert (a + b)[k] == b[k - |a|];
      }
    }
  }

  /** Lower-casing an already lower-cased string changes nothing. */
  lemma ToLowerIdempotent(s: string)
    ensures ToLower(ToLower(s)) == ToLower(s)
  {
  }

  /** A string without upper-case letters is its own lower case. */
  lemma ToLowerUnchanged(s: string)
    requires forall i :: 0 <= i < |s| ==> !IsUpper(s[i])
    ensures ToLower(s) == s
  {
  }

  /** Printed integers and their pads hold only digits and '-', which lower-casing keeps. */
  lemma IntToStringLower(n: int)
    ensures ToLower(IntToString(n)) == IntToString(n)
    ensures ToLower(Pad2(n)) == Pad2(n)
  {
    var s := IntToString(n);
    forall i | 0 <= i < |s| ensures !IsUpper(s[i]) {
      if n < 0 && i > 0 {
        assert s[i] == s[1..][i - 1];
      }
    }
    ToLowerUnchanged(s);
    var p := Pad2(n);
    forall i | 0 <= i < |p| ensures !IsUpper(p[i]) {
      if |s| < 2 && i >= 2 - |s| {
        assert p[i] == p[2 - |s|..][i - (2 - |s|)];
      }
    }
    ToLowerUnchanged(p);
  }

  /** Regrouping a concatenation, for proofs that would otherwise compare long chains. */
  /** A slice inside the left operand of a concatenation. */
  lemma SliceOfAppend(p: string, q: string, a: int, b: int)
    requires 0 <= a <= b <= |p|
    ensures (p + q)[a..b] == p[a..b]
  {
    assert forall k :: 0 <= k < b - a ==> (p + q)[a..b][k] == p[a..b][k];
  }

  /** The right operand of a concatenation sits right after the left one. */
  lemma AppendedSlice(p: string, q: string)
    ensures (p + q)[|p|..|p| + |q|] == q
  {
    assert forall k :: 0 <= k < |q| ==> (p + q)[|p|..|p| + |q|][k] == q[k];
  }

  /** A slice inside the right operand of a concatenation. */
  lemma SliceOfAppendRight(p: string, q: string, a: int, b: int)
    requires 0 <= a <= b <= |q|
    ensures (p + q)[|p| + a..|p| + b] == q[a..b]
  {
    assert forall k :: 0 <= k < b - a ==> (p + q)[|p| + a..|p| + b][k] == q[a..b][k];
  }

  lemma AppendAssoc(a: string, b: string, c: string)
    ensures (a + b) + c == a + (b + c)
  {
  }

  /** `xs.join(sep)`. */
  function Join(xs: seq<string>, sep: string): string
  {
    if |xs| == 0 then "" else if |xs| == 1 then xs[0] else xs[0] + sep + Join(xs[1..], sep)
  }

  /** The first piece, the separator, then the rest joined. */
  lemma JoinCons(x: string, xs: seq<string>, sep: string)
    requires |xs| >= 1
    ensures Join([x] + xs, sep) == x + sep + Join(xs, sep)
  {
    assert ([x] + xs)[1..] == xs;
  }

  /** Three joined pieces, the last one ending in `tail`. */
  lemma JoinThree(a: string, b: string, c: string, tail: string, sep: string)
    ensures Join([a, b, c + tail], sep) == a + sep + b + sep + c + tail
  {
    var xs := [a, b, c + tail];
    assert xs[1..] == [b, c + tail] && xs[1..][1..] == [c + tail];
    assert Join(xs[1..], sep) == b + sep + (c + tail);
  }

  /** `s.split(sep)` for a non-empty separator: the pieces between non-overlapping
      occurrences of `sep`, found from left to right. */
  function Split(s: string, sep: string): (pieces: seq<string>)
    requires |sep| > 0
    ensures |pieces| >= 1
    decreases |s|
  {
    if |s| < |sep| then [s]
    else if s[..|sep|] == sep then [""] + Split(s[|sep|..], sep)
    else
      var rest := Split(s[1..], sep);
      [[s[0]] + rest[0]] + rest[1..]
  }

  /** Replaces every non-overlapping occurrence of `pat`, scanning from left to right. */
  function ReplaceAll(s: string, pat: string, rep: string): string
    requires |pat| > 0
    decreases |s|
  {
    if |s| < |pat| then s
    else if s[..|pat|] == pat then rep + ReplaceAll(s[|pat|..], pat, rep)
    else [s[0]] + ReplaceAll(s[1..], pat, rep)
  }

  /** Growing the first piece at its front grows the joined string at its front. */
  lemma JoinPrepend(p: string, xs: seq<string>, sep: string)
    requires |xs| >= 1
    ensures Join([p + xs[0]] + xs[1..], sep) == p + Join(xs, sep)
  {
    var ys := [p + xs[0]] + xs[1..];
    assert ys[0] == p + xs[0] && ys[1..] == xs[1..] && |ys| == |xs|;
    if |xs| > 1 {
      assert Join(ys, sep) == (p + xs[0]) + sep + Join(xs[1..], sep);
      assert Join(xs, sep) == xs[0] + sep + Join(xs[1..], sep);
    }
  }

  /** `s.split(pat).join(rep)` is a replace-all. */
  lemma {:induction false} JoinSplit(s: string, pat: string, rep: string)
    requires |pat| > 0
    ensures Join(Split(s, pat), rep) == ReplaceAll(s, pat, rep)
    decreases |s|
  {
    if |s| < |pat| {
    } else if s[..|pat|] == pat {
      var rest := Split(s[|pat|..], pat);
      assert Split(s, pat) == [""] + rest;
      assert ReplaceAll(s, pat, rep) == rep + ReplaceAll(s[|pat|..], pat, rep);
      JoinSplit(s[|pat|..], pat, rep);
      JoinCons("", rest, rep);
      assert "" + rep + Join(rest, rep) == rep + Join(rest, rep);
    } else {
      var rest := Split(s[1..], pat);
      assert Split(s, pat) == [[s[0]] + rest[0]] + rest[1..];
      assert ReplaceAll(s, pat, rep) == [s[0]] + ReplaceAll(s[1..], pat, rep);
      JoinSplit(s[1..], pat, rep);
      JoinPrepend([s[0]], rest, rep);
    }
  }

  /** `pat` occurs in `s` starting at index `i`. */
  predicate OccursAt(s: string, pat: string, i: nat) {
    i + |pat| <= |s| && s[i..i + |pat|] == pat
  }

  /** Where `pat` does not occur, nothing is replaced. */
  lemma {:induction false} ReplaceAllAbsent(s: string, pat: string, rep: string)
    requires |pat| > 0
    requires forall i :: 0 <= i < |s| ==> !OccursAt(s, pat, i)
    ensures ReplaceAll(s, pat, rep) == s
    decreases |s|
  {
    if |s| >= |pat| {
      assert !OccursAt(s, pat, 0);
      forall i | 0 <= i < |s[1..]| ensures !OccursAt(s[1..], pat, i) {
        assert !OccursAt(s, pat, i + 1);
        if i + |pat| <= |s[1..]| {
          assert s[1..][i..i + |pat|] == s[i + 1..i + 1 + |pat|];
        }
      }
      ReplaceAllAbsent(s[1..], pat, rep);
    }
  }

  /** Replacing a one-character pattern maps each character on its own. */
  lemma {:induction false} ReplaceCharAppend(a: string, b: string, c: char, rep: string)
    ensures ReplaceAll(a + b, [c], rep) == ReplaceAll(a, [c], rep) + ReplaceAll(b, [c], rep)
  {
    if a == [] {
      assert a + b == b;
    } else {
      assert (a + b)[1..] == a[1..] + b;
      assert (a + b)[..1] == a[..1];
      ReplaceCharAppend(a[1..], b, c, rep);
      if a[..1] == [c] {
        assert ReplaceAll(a, [c], rep) == rep + ReplaceAll(a[1..], [c], rep);
      } else {
        assert ReplaceAll(a, [c], rep) == [a[0]] + ReplaceAll(a[1..], [c], rep);
      }
    }
  }

  /** A field free of the separator character is recovered from `field + [sep] + rest`. */
  lemma SeparatedInjective(a1: string, b1: string, a2: string, b2: string, sep: char)
    requires forall k :: 0 <= k < |a1| ==> a1[k] != sep
    requires forall k :: 0 <= k < |a2| ==> a2[k] != sep
    requires a1 + [sep] + b1 == a2 + [sep] + b2
    ensures a1 == a2 && b1 == b2
  {
    var s := a1 + [sep] + b1;
    var t := a2 + [sep] + b2;
    assert s[|a1|] == sep && t[|a2|] == sep;
    assert forall k :: 0 <= k < |a1| ==> s[k] == a1[k];
    assert forall k :: 0 <= k < |a2| ==> t[k] == a2[k];
    assert |a1| == |a2|;
    assert a1 == s[..|a1|] == a2;
    assert b1 == s[|a1| + 1..] == b2;
  }

  /** Behind a common prefix, a piece free of the separator's first character, then the
      separator, the pieces are read back uniquely. */
  lemma PrefixedSeparatedInjective(prefix: string, a1: string, mid: string, b1: string, a2: string, b2: string)
    requires |mid| > 0
    requires forall k :: 0 <= k < |a1| ==> a1[k] != mid[0]
    requires forall k :: 0 <= k < |a2| ==> a2[k] != mid[0]
    requires prefix + a1 + mid + b1 == prefix + a2 + mid + b2
    ensures a1 == a2 && b1 == b2
  {
    var c, r1, r2 := mid[0], mid[1..] + b1, mid[1..] + b2;
    AppendAssoc(prefix + a1, mid, b1);
    AppendAssoc(prefix, a1, mid + b1);
    AppendAssoc(prefix + a2, mid, b2);
    AppendAssoc(prefix, a2, mid + b2);
    var x1, x2 := a1 + (mid + b1), a2 + (mid + b2);
    AppendedSlice(prefix, x1);
    AppendedSlice(prefix, x2);
    assert x1 == x2;
    assert mid == [c] + mid[1..];
    AppendAssoc([c], mid[1..], b1);
    AppendAssoc([c], mid[1..], b2);
    AppendAssoc(a1, [c], r1);
    AppendAssoc(a2, [c], r2);
    SeparatedInjective(a1, r1, a2, r2, c);
    AppendedSlice(mid[1..], b1);
    AppendedSlice(mid[1..], b2);
  }
}
