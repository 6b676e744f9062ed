/** The JavaScript string operations the application relies on: `trim`, `toLowerCase`
    (ASCII letters only), `indexOf` / `includes`, `replace` with a string pattern,
    `join`, `Number.prototype.toString` for integers and `parseInt`. */
module Text {
  import opened Wrappers

  /** JavaScript's white space and line terminators: the characters `trim` strips and
      the regular-expression class `\s` matches. */
  predicate IsSpace(c: char) {
    || c == '\t' || c == '\n' || c == '\U{000B}' || c == '\U{000C}' || c == '\r' || c == ' '
    || c == '\U{00A0}' || c == '\U{1680}' || ('\U{2000}' <= c <= '\U{200A}')
    || c == '\U{2028}' || c == '\U{2029}' || c == '\U{202F}' || c == '\U{205F}'
    || c == '\U{3000}' || c == '\U{FEFF}'
  }

  ghost predicate AllSpace(s: string) {
    forall i :: 0 <= i < |s| ==> IsSpace(s[i])
  }

  /** No white space at either end. */
  predicate Tight(s: string) {
    s == [] || (!IsSpace(s[0]) && !IsSpace(s[|s| - 1]))
  }

  /** The index of the first character at or after `k` that is not white space
      (`|s|` when there is none). */
  function SkipSpace(s: string, k: nat): (i: nat)
    requires k <= |s|
    ensures k <= i <= |s|
    ensures forall m :: k <= m < i ==> IsSpace(s[m])
    ensures i < |s| ==> !IsSpace(s[i])
    decreases |s| - k
  {
    if k < |s| && IsSpace(s[k]) then SkipSpace(s, k + 1) else k
  }

  /** Going back from `j` but not below `lo`: one past the last character that is
      not white space. */
  function SkipSpaceBack(s: string, lo: nat, j: nat): (e: nat)
    requires lo <= j <= |s|
    ensures lo <= e <= j
    ensures forall m :: e <= m < j ==> IsSpace(s[m])
    ensures e > lo ==> !IsSpace(s[e - 1])
    decreases j
  {
    if j > lo && IsSpace(s[j - 1]) then SkipSpaceBack(s, lo, j - 1) else j
  }

  /** Drops leading white space. */
  function TrimStart(s: string): (r: string)
    ensures r == [] || !IsSpace(r[0])
    ensures |r| <= |s| && r == s[|s| - |r|..]
  {
    s[SkipSpace(s, 0)..]
  }

  /** `String.prototype.trim`: the result is the part of `s` between a white-space
      prefix and a white-space suffix, and has no white space at its ends. */
  function Trim(s: string): (r: string)
    ensures Tight(r)
    ensures exists i, j :: 0 <= i <= j <= |s| && r == s[i..j] && AllSpace(s[..i]) && AllSpace(s[j..])
    ensures Tight(s) ==> r == s
    ensures r == [] <==> AllSpace(s)
  {
    var i := SkipSpace(s, 0);
    var j := SkipSpaceBack(s, i, |s|);
    assert AllSpace(s[..i]) by {
      forall m | 0 <= m < i
        ensures IsSpace(s[..i][m])
      {
        assert s[..i][m] == s[m];
      }
    }
    assert AllSpace(s[j..]) by {
      forall m | 0 <= m < |s| - j
        ensures IsSpace(s[j..][m])
      {
        assert s[j..][m] == s[j + m];
      }
    }
    assert AllSpace(s) ==> i == |s|;
    s[i..j]
  }

  /** ASCII `toLowerCase` of one character. */
  function LowerChar(c: char): char {
    if 'A' <= c <= 'Z' then (c as int + 32) as char else c
  }

  /** `String.prototype.toLowerCase`, restricted to ASCII letters. */
  function Lower(s: string): string {
    seq(|s|, i requires 0 <= i < |s| => LowerChar(s[i]))
  }

  /** `pat` occurs in `s` starting at index `i`. */
  ghost predicate OccursAt(s: string, pat: string, i: int) {
    0 <= i && i + |pat| <= |s| && s[i..i + |pat|] == pat
  }

  /** `pat` occurs somewhere in `s`. */
  ghost predicate Contains(s: string, pat: string) {
    exists i :: OccursAt(s, pat, i)
  }

  /** `s.indexOf(pat, from)`: the least index at or after `from` where `pat` occurs. */
  function IndexOfFrom(s: string, pat: string, from: nat): (r: Option<nat>)
    decreases |s| - from
    ensures r.Some? ==> from <= r.value && OccursAt(s, pat, r.value)
    ensures r.Some? ==> forall k :: from <= k < r.value ==> !OccursAt(s, pat, k)
    ensures r.None? ==> forall k :: from <= k ==> !OccursAt(s, pat, k)
  {
    if from + |pat| > |s| then None
    else if s[from..from + |pat|] == pat then Some(from)
    else IndexOfFrom(s, pat, from + 1)
  }

  /** `s.indexOf(pat)`. */
  function IndexOf(s: string, pat: string): Option<nat> {
    IndexOfFrom(s, pat, 0)
  }

  /** `s.includes(pat)`. */
  predicate Includes(s: string, pat: string) {
    IndexOf(s, pat).Some?
  }

  lemma IncludesIffContains(s: string, pat: string)
    ensures Includes(s, pat) <==> Contains(s, pat)
  {
    if Contains(s, pat) {
      var i :| OccursAt(s, pat, i);
      assert IndexOf(s, pat).Some?;
    }
  }

  /** Every string includes the empty string. */
  lemma IncludesEmpty(s: string)
    ensures Includes(s, "")
  {
    assert OccursAt(s, "", 0);
    IncludesIffContains(s, "");
  }

  /** `s.replace(pat, rep)` with a string pattern: only the first occurrence of `pat`
      is replaced, and a string without `pat` comes back unchanged. */
  function ReplaceFirst(s: string, pat: string, rep: string): (r: string)
    ensures !Contains(s, pat) ==> r == s
    ensures forall i {:trigger OccursAt(s, pat, i)} :: OccursAt(s, pat, i) && (forall k :: 0 <= k < i ==> !OccursAt(s, pat, k))
              ==> r == s[..i] + rep + s[i + |pat|..]
  {
    match IndexOf(s, pat)
    case None => s
    case Some(i) => s[..i] + rep + s[i + |pat|..]
  }

  /** Removing the first occurrence of `pat` from `pat + t` gives back `t`. */
  lemma ReplaceFirstPrefix(pat: string, t: string)
    ensures ReplaceFirst(pat + t, pat, "") == t
  {
    var s := pat + t;
    assert s[0..|pat|] == pat;
    assert OccursAt(s, pat, 0);
    assert s[|pat|..] == t;
  }

  /** `Array.prototype.join` for strings. */
  function Join(xs: seq<string>, sep: string): string
    decreases |xs|
  {
    if |xs| == 0 then ""
    else if |xs| == 1 then xs[0]
    else xs[0] + sep + Join(xs[1..], sep)
  }

  // ---------------------------------------------------------------------------
  // Numbers as text

  /** A JavaScript number as `parseInt` returns it: an integer or `NaN`. */
  datatype Num = Num(value: int) | NaN

  predicate IsDecimalDigit(c: char) {
    '0' <= c <= '9'
  }

  function DigitChar(d: nat): (c: char)
    requires d < 10
    ensures IsDecimalDigit(c)
  {
    ('0' as int + d) as char
  }

  /** `Number.prototype.toString` of a natural number: its decimal digits, most
      significant first. */
  function NatToString(n: nat): (r: string)
    ensures |r| >= 1
    ensures forall i :: 0 <= i < |r| ==> IsDecimalDigit(r[i])
    ensures r[0] == '0' ==> n == 0
  {
    if n < 10 then [DigitChar(n)] else NatToString(n / 10) + [DigitChar(n % 10)]
  }

  /** `Number.prototype.toString` of an integer. */
  function IntToString(n: int): string {
    if n < 0 then "-" + NatToString(-n) else NatToString(n)
  }

  /** The value of `c` as a digit of base `radix` (10 or 16), if it is one. */
  function DigitValue(c: char, radix: nat): (r: Option<nat>)
    ensures r.Some? ==> r.value < radix
  {
    if '0' <= c <= '9' && (c as int - '0' as int) < radix then Some(c as int - '0' as int)
    else if radix == 16 && 'a' <= c <= 'f' then Some(c as int - 'a' as int + 10)
    else if radix == 16 && 'A' <= c <= 'F' then Some(c as int - 'A' as int + 10)
    else None
  }

  predicate AllDigits(s: string, radix: nat) {
    forall i :: 0 <= i < |s| ==> DigitValue(s[i], radix).Some?
  }

  /** The length of the longest prefix of `s` made of base-`radix` digits. */
  function DigitRun(s: string, radix: nat): (n: nat)
    ensures n <= |s|
    ensures AllDigits(s[..n], radix)
    ensures n == |s| || DigitValue(s[n], radix).None?
  {
    if s != [] && DigitValue(s[0], radix).Some? then
      var n := 1 + DigitRun(s[1..], radix);
      assert s[..n] == [s[0]] + s[1..][..n - 1];
      n
    else 0
  }

  /** The number a string of base-`radix` digits denotes. */
  function ValueOf(s: string, radix: nat): nat
    requires AllDigits(s, radix)
  {
    if s == [] then 0
    else ValueOf(s[..|s| - 1], radix) * radix + DigitValue(s[|s| - 1], radix).value
  }

  /** Global `parseInt` with no radix argument: skip leading white space, read an
      optional sign, switch to base 16 after a `0x`/`0X` prefix, then read the longest
      run of digits; no digits at all gives `NaN`. */
  function ParseInt(s: string): (r: Num)
    ensures (forall i :: 0 <= i < |s| ==> !IsDecimalDigit(s[i])) ==> r == NaN
    ensures var t := TrimStart(s);
      r.Num? ==> t != [] && (IsDecimalDigit(t[0]) || t[0] == '-' || t[0] == '+')
  {
    var t := TrimStart(s);
    var u := if |t| > 0 && (t[0] == '-' || t[0] == '+') then t[1..] else t;
    assert u == s[|s| - |u|..];
    if ParseMagnitude(u).Num? then MagnitudeHasDigit(u); ParseSigned(t) else ParseSigned(t)
  }

  /** An optional sign, then the magnitude. */
  function ParseSigned(t: string): Num {
    var negative := |t| > 0 && t[0] == '-';
    var u := if |t| > 0 && (t[0] == '-' || t[0] == '+') then t[1..] else t;
    match ParseMagnitude(u)
    case NaN => NaN
    case Num(m) => Num(if negative then -m else m)
  }

  /** The digits after the sign: base 16 after `0x` or `0X`, else base 10. */
  function ParseMagnitude(u: string): Num {
    var hex := |u| >= 2 && u[0] == '0' && (u[1] == 'x' || u[1] == 'X');
    var radix := if hex then 16 else 10;
    var digits := if hex then u[2..] else u;
    var n := DigitRun(digits, radix);
    if n == 0 then NaN else Num(ValueOf(digits[..n], radix))
  }

  /** A number read by `ParseMagnitude` starts with a decimal digit: the digits
      themselves, or the `0` of `0x`. */
  lemma MagnitudeHasDigit(u: string)
    requires ParseMagnitude(u).Num?
    ensures u != [] && IsDecimalDigit(u[0])
  {
    var hex := |u| >= 2 && u[0] == '0' && (u[1] == 'x' || u[1] == 'X');
    if !hex {
      assert DigitRun(u, 10) > 0;
      assert u[..DigitRun(u, 10)][0] == u[0];
    }
  }

  /** `SkipSpace` is determined by its contract: the first index at or after `k` that
      is not white space. */
  lemma SkipSpaceUnique(s: string, k: nat, i: nat)
    requires k <= i <= |s|
    requires forall m :: k <= m < i ==> IsSpace(s[m])
    requires i < |s| ==> !IsSpace(s[i])
    ensures SkipSpace(s, k) == i
  {
  }

  /** `DigitRun` is determined by its contract: the end of the leading run of digits. */
  lemma DigitRunUnique(s: string, radix: nat, n: nat)
    requires n <= |s| && AllDigits(s[..n], radix)
    requires n == |s| || DigitValue(s[n], radix).None?
    ensures DigitRun(s, radix) == n
  {
  }

  /** Leading white space does not change what `parseInt` reads. */
  lemma ParseIntSkipsSpace(ws: string, s: string)
    requires AllSpace(ws)
    ensures ParseInt(ws + s) == ParseInt(s)
  {
    TrimStartSkipsSpace(ws, s);
  }

  lemma TrimStartSkipsSpace(ws: string, s: string)
    requires AllSpace(ws)
    ensures TrimStart(ws + s) == TrimStart(s)
  {
    var t := ws + s;
    var i := SkipSpace(s, 0);
    forall m | 0 <= m < |ws| + i
      ensures IsSpace(t[m])
    {
      if m < |ws| {
        assert t[m] == ws[m];
      } else {
        assert t[m] == s[m - |ws|];
      }
    }
    assert |ws| + i < |t| ==> t[|ws| + i] == s[i];
    SkipSpaceUnique(t, 0, |ws| + i);
    assert t[|ws| + i..] == s[i..];
  }

  /** A `+` sign is skipped, as long as what follows starts with neither white space
      nor another sign. */
  lemma ParseIntPlus(u: string)
    requires u == [] || (!IsSpace(u[0]) && u[0] != '-' && u[0] != '+')
    ensures ParseInt("+" + u) == ParseInt(u)
  {
    UnsignedStart(u);
    ParseIntNoSpace("+" + u);
    SignedAfterSign('+', u);
  }

  /** A `-` sign negates what follows, as long as that starts with neither white
      space nor another sign. */
  lemma ParseIntMinus(u: string)
    requires u == [] || (!IsSpace(u[0]) && u[0] != '-' && u[0] != '+')
    ensures ParseInt("-" + u) == match ParseInt(u) case NaN => NaN case Num(v) => Num(-v)
  {
    UnsignedStart(u);
    ParseIntNoSpace("-" + u);
    SignedAfterSign('-', u);
  }

  lemma UnsignedStart(u: string)
    requires u == [] || (!IsSpace(u[0]) && u[0] != '-' && u[0] != '+')
    ensures ParseInt(u) == ParseMagnitude(u)
  {
    ParseIntNoSpace(u);
    SignedAfterSign('+', u);
  }

  lemma SignedAfterSign(c: char, u: string)
    requires c == '-' || c == '+'
    requires u == [] || (u[0] != '-' && u[0] != '+')
    ensures ParseSigned(u) == ParseMagnitude(u)
    ensures ParseMagnitude(u).NaN? ==> ParseSigned([c] + u) == NaN
    ensures ParseMagnitude(u).Num? ==>
      ParseSigned([c] + u) == Num(if c == '-' then -ParseMagnitude(u).value else ParseMagnitude(u).value)
  {
    assert ([c] + u)[1..] == u;
  }

  /** With no leading white space, `parseInt` goes straight to the sign. */
  lemma ParseIntNoSpace(t: string)
    requires t == [] || !IsSpace(t[0])
    ensures ParseInt(t) == ParseSigned(t)
  {
    assert SkipSpace(t, 0) == 0;
  }

  /** White space or a second sign after the sign gives `NaN`. */
  lemma ParseIntSignThenNonDigit(sign: char, u: string)
    requires sign == '-' || sign == '+'
    requires u != [] && (IsSpace(u[0]) || u[0] == '-' || u[0] == '+')
    ensures ParseInt([sign] + u) == NaN
  {
    TrimStartNoSpace([sign] + u);
    assert ([sign] + u)[1..] == u;
    assert DigitRun(u, 10) == 0;
  }

  /** After `0x` or `0X`, the longest run of hexadecimal digits is read in base 16,
      and a run of none gives `NaN`. */
  lemma ParseIntHex(x: char, digits: string, rest: string)
    requires x == 'x' || x == 'X'
    requires AllDigits(digits, 16)
    requires rest == [] || DigitValue(rest[0], 16).None?
    ensures ParseInt("0" + [x] + digits + rest) == if digits == [] then NaN else Num(ValueOf(digits, 16))
  {
    var s := "0" + [x] + digits + rest;
    assert ParseInt(s) == ParseMagnitude(s) by {
      ParseIntNoSpace(s);
      SignedAfterSign('+', s);
    }
    HexMagnitude(x, digits, rest);
  }

  lemma HexMagnitude(x: char, digits: string, rest: string)
    requires x == 'x' || x == 'X'
    requires AllDigits(digits, 16)
    requires rest == [] || DigitValue(rest[0], 16).None?
    ensures ParseMagnitude("0" + [x] + digits + rest) == if digits == [] then NaN else Num(ValueOf(digits, 16))
  {
    var s := "0" + [x] + digits + rest;
    assert s[2..] == digits + rest;
    assert (digits + rest)[..|digits|] == digits;
    DigitRunUnique(digits + rest, 16, |digits|);
  }

  /** Decimal digits are read up to the first character that is not one; only a lone
      `0` followed by `x` or `X` switches to base 16 instead. */
  lemma ParseIntStopsAtNonDigit(digits: string, rest: string)
    requires |digits| >= 1 && AllDigits(digits, 10)
    requires rest == [] || DigitValue(rest[0], 10).None?
    requires !(digits == "0" && rest != [] && (rest[0] == 'x' || rest[0] == 'X'))
    ensures ParseInt(digits + rest) == Num(ValueOf(digits, 10))
  {
    var u := digits + rest;
    MagnitudeOfDecimalPrefix(digits, rest);
    assert u[0] == digits[0] && DigitValue(digits[0], 10).Some?;
    DigitLed(u);
  }

  /** A string that starts with a decimal digit is read by `ParseMagnitude` alone. */
  lemma DigitLed(u: string)
    requires u != [] && '0' <= u[0] <= '9'
    ensures ParseInt(u) == ParseMagnitude(u)
  {
    ParseIntNoSpace(u);
    SignedAfterSign('-', u);
  }

  lemma MagnitudeOfDecimalPrefix(digits: string, rest: string)
    requires |digits| >= 1 && AllDigits(digits, 10)
    requires rest == [] || DigitValue(rest[0], 10).None?
    requires !(digits == "0" && rest != [] && (rest[0] == 'x' || rest[0] == 'X'))
    ensures ParseMagnitude(digits + rest) == Num(ValueOf(digits, 10))
  {
    var u := digits + rest;
    assert !(|u| >= 2 && u[0] == '0' && (u[1] == 'x' || u[1] == 'X')) by {
      if |u| >= 2 && |digits| >= 2 {
        assert DigitValue(digits[1], 10).Some?;
      } else if |u| >= 2 && u[0] == '0' {
        assert digits == "0" && u[1] == rest[0];
      }
    }
    assert u[..|digits|] == digits;
    DigitRunUnique(u, 10, |digits|);
  }

  lemma {:induction false} ValueOfNatToString(n: nat)
    ensures AllDigits(NatToString(n), 10)
    ensures ValueOf(NatToString(n), 10) == n
  {
    var s := NatToString(n);
    if n >= 10 {
      ValueOfNatToString(n / 10);
      assert s[..|s| - 1] == NatToString(n / 10);
    }
  }

  lemma {:induction false} DigitRunAll(s: string, radix: nat)
    requires AllDigits(s, radix)
    ensures DigitRun(s, radix) == |s|
  {
    if s != [] {
      DigitRunAll(s[1..], radix);
    }
  }

  /** `parseInt` reads back what `toString` wrote, for every integer. */
  lemma ParseIntToString(n: int)
    ensures ParseInt(IntToString(n)) == Num(n)
  {
    var m: nat := if n < 0 then -n else n;
    ValueOfNatToString(m);
    ParseDecimal(IntToString(n), n < 0, NatToString(m));
  }

  /** `parseInt` of an optional minus sign followed by decimal digits. */
  lemma ParseDecimal(s: string, negative: bool, digits: string)
    requires |digits| >= 1 && AllDigits(digits, 10)
    requires s == (if negative then "-" else "") + digits
    ensures var v: int := ValueOf(digits, 10);
      ParseInt(s) == Num(if negative then -v else v)
  {
    assert DigitValue(digits[0], 10).Some?;
    assert s[0] == '-' || '0' <= s[0] <= '9';
    TrimStartNoSpace(s);
    assert negative ==> s[1..] == digits;
    MagnitudeOfDecimal(digits);
  }

  lemma TrimStartNoSpace(s: string)
    requires s != [] && !IsSpace(s[0])
    ensures TrimStart(s) == s
  {
    assert SkipSpace(s, 0) == 0;
  }

  /** Decimal digits with no `0x` prefix read as their value. */
  lemma MagnitudeOfDecimal(u: string)
    requires |u| >= 1 && AllDigits(u, 10)
    ensures ParseMagnitude(u) == Num(ValueOf(u, 10))
  {
    assert |u| >= 2 ==> DigitValue(u[1], 10).Some? && u[1] != 'x' && u[1] != 'X';
    DigitRunAll(u, 10);
    assert u[..|u|] == u;
  }
}
