/**
 * Number text used by the scalar's string conversion: the decimal rendering
 * of the integer formats, and the in-place trimming of trailing zeros that is
 * applied to the fixed-point rendering of floats and doubles.
 */
module NumText {

  const NUL: char := '\0'

  predicate IsDigit(c: char) {
    '0' <= c <= '9'
  }

  predicate AllDigits(s: string) {
    forall i | 0 <= i < |s| :: IsDigit(s[i])
  }

  function DigitChar(d: nat): (c: char)
    requires d < 10
    ensures IsDigit(c) && c as int - '0' as int == d
  {
    ['0', '1', '2', '3', '4', '5', '6', '7', '8', '9'][d]
  }

  function DigitValue(c: char): (d: nat)
    requires IsDigit(c)
    ensures d < 10 && DigitChar(d) == c
  {
    c as int - '0' as int
  }

  // ---------------------------------------------------------------------------
  // Decimal rendering (the "%d", "%u", "%lld" and "%llu" conversions)
  // ---------------------------------------------------------------------------

  /** The shortest decimal numeral of `n`. */
  function NatToDecimal(n: nat): (s: string)
    ensures |s| >= 1 && AllDigits(s)
    ensures s[0] == '0' ==> n == 0 && |s| == 1
    decreases n
  {
    if n < 10 then [DigitChar(n)] else NatToDecimal(n / 10) + [DigitChar(n % 10)]
  }

  /** A leading minus sign for negative values, then the digits of the magnitude. */
  function IntToDecimal(i: int): (s: string)
    ensures |s| >= 1
    ensures s[0] == '-' <==> i < 0
  {
    if i < 0 then "-" + NatToDecimal(-i) else NatToDecimal(i)
  }

  /** The value of a string of digits (the reference reading of a numeral). */
  function ParseNat(s: string): nat
    requires AllDigits(s)
    decreases |s|
  {
    if s == [] then 0 else ParseNat(s[..|s| - 1]) * 10 + DigitValue(s[|s| - 1])
  }

  function ParseInt(s: string): int
    requires |s| >= 1
    requires s[0] == '-' ==> AllDigits(s[1..])
    requires s[0] != '-' ==> AllDigits(s)
  {
    if s[0] == '-' then -(ParseNat(s[1..]) as int) else ParseNat(s)
  }

  lemma {:induction false} ParseNatToDecimal(n: nat)
    ensures ParseNat(NatToDecimal(n)) == n
    decreases n
  {
    if n >= 10 {
      var s := NatToDecimal(n);
      assert s[..|s| - 1] == NatToDecimal(n / 10);
      ParseNatToDecimal(n / 10);
    }
  }

  /** Reading back a rendered integer gives the integer. */
  lemma IntToDecimalRoundTrip(i: int)
    ensures var s := IntToDecimal(i);
      (s[0] == '-' ==> AllDigits(s[1..])) && (s[0] != '-' ==> AllDigits(s))
      && ParseInt(s) == i
  {
    if i < 0 {
      NegativeRoundTrip(-i);
    } else {
      ParseNatToDecimal(i);
    }
  }

  lemma NegativeRoundTrip(n: nat)
    ensures var s := "-" + NatToDecimal(n);
      s[0] == '-' && AllDigits(s[1..]) && ParseInt(s) == -(n as int)
  {
    var d := NatToDecimal(n);
    assert ("-" + d)[1..] == d;
    ParseNatToDecimal(n);
  }

  /** Distinct integers render differently. */
  lemma IntToDecimalInjective(i: int, j: int)
    requires IntToDecimal(i) == IntToDecimal(j)
    ensures i == j
  {
    IntToDecimalRoundTrip(i);
    IntToDecimalRoundTrip(j);
  }

  // ---------------------------------------------------------------------------
  // Trimming trailing zeros (dtl_sv_ztrim)
  // ---------------------------------------------------------------------------

  /** The index of the first character that is not a digit, or |s|. */
  function FirstNonDigit(s: string): (k: nat)
    ensures k <= |s| && AllDigits(s[..k])
    ensures k < |s| ==> !IsDigit(s[k])
    decreases |s|
  {
    if s == [] || !IsDigit(s[0]) then 0
    else
      var k := 1 + FirstNonDigit(s[1..]);
      assert s[..k] == [s[0]] + s[1..][..k - 1];
      k
  }

  /** The length of the run of '0' characters that ends `s`. */
  function TrailingZeros(s: string): (z: nat)
    ensures z <= |s|
    ensures forall j | |s| - z <= j < |s| :: s[j] == '0'
    ensures z < |s| ==> s[|s| - z - 1] != '0'
    decreases |s|
  {
    if s == [] || s[|s| - 1] != '0' then 0 else 1 + TrailingZeros(s[..|s| - 1])
  }

  lemma {:induction false} TrailingZerosAt(s: string, q: nat)
    requires q <= |s|
    requires forall j | q <= j < |s| :: s[j] == '0'
    requires q == 0 || s[q - 1] != '0'
    ensures TrailingZeros(s) == |s| - q
    decreases |s|
  {
    if q < |s| {
      TrailingZerosAt(s[..|s| - 1], q);
    }
  }

  /**
   * How much of the C string `s` dtl_sv_ztrim keeps.  A string that has a
   * character other than a digit before its first '.' is kept whole.  Otherwise
   * the zeros that end the part after the first '.' are cut, together with the
   * '.' when nothing would remain after it.
   */
  function Kept(s: string): (c: nat)
    ensures c <= |s|
  {
    var k := FirstNonDigit(s);
    if k < |s| && s[k] != '.' then |s|
    else if k == |s| then |s|
    else
      var z := TrailingZeros(s[k + 1..]);
      if z == 0 then |s| else if |s| - z == k + 1 then k else |s| - z
  }

  /** What dtl_sv_ztrim leaves of the C string `s`; a string left empty becomes "0". */
  function Ztrim(s: string): (r: string)
    ensures r != []
    ensures NUL !in s ==> NUL !in r
    ensures r == "0" || r <= s
  {
    if Kept(s) == 0 then "0" else s[..Kept(s)]
  }

  /** Trimming only ever drops zeros, and at most the one '.' in front of them. */
  lemma ZtrimDropsOnlyZeros(s: string)
    ensures var c := Kept(s);
      forall j | c <= j < |s| :: s[j] == '0' || (j == c && s[j] == '.')
  {
  }

  /** A string that is not a number (a sign, "inf", "nan") is left as it is. */
  lemma ZtrimLeavesNonNumbers(s: string)
    requires FirstNonDigit(s) < |s| && s[FirstNonDigit(s)] != '.'
    ensures Ztrim(s) == s
  {
  }

  /** Trimming twice trims no more than trimming once. */
  lemma ZtrimIdempotent(s: string)
    ensures Ztrim(Ztrim(s)) == Ztrim(s)
  {
    var k := FirstNonDigit(s);
    var c := Kept(s);
    var r := Ztrim(s);
    if c == 0 {
      assert r == "0";
      assert FirstNonDigit(r) == 1;
    } else if c == |s| {
      assert r == s;
    } else {
      assert r == s[..c];
      var tail := s[k + 1..];
      var z := TrailingZeros(tail);
      if c == k {
        assert FirstNonDigit(r) == |r|;
      } else {
        assert r[..k] == s[..k];
        FirstNonDigitAt(r, k);
        assert r[k + 1..] == tail[..|tail| - z];
        assert r[|r| - 1] != '0';
        assert TrailingZeros(r[k + 1..]) == 0;
      }
    }
  }

  /** The digits of a fraction without the zeros that end it. */
  function StripZeros(frac: string): (r: string)
    ensures r <= frac && (r == [] || r[|r| - 1] != '0')
  {
    frac[..|frac| - TrailingZeros(frac)]
  }

  /**
   * On the fixed-point rendering of a non-negative number, trimming keeps the
   * integer part and only the significant digits of the fraction.
   */
  lemma ZtrimFixed(ip: nat, frac: string)
    requires |frac| >= 1 && AllDigits(frac)
    ensures Ztrim(NatToDecimal(ip) + "." + frac)
      == NatToDecimal(ip) + (if StripZeros(frac) == [] then "" else "." + StripZeros(frac))
  {
    ZtrimPointed(NatToDecimal(ip), frac);
  }

  lemma ZtrimPointed(d: string, frac: string)
    requires |d| >= 1 && AllDigits(d) && |frac| >= 1 && AllDigits(frac)
    ensures Ztrim(d + "." + frac) == d + (if StripZeros(frac) == [] then "" else "." + StripZeros(frac))
  {
    var s := d + "." + frac;
    var k := |d|;
    assert s[..k] == d;
    assert s[k + 1..] == frac;
    FirstNonDigitAt(s, k);
    ZtrimAtPoint(s, k);
    var f := StripZeros(frac);
    assert d + ("." + f) == d + "." + f;
    assert d + "" == d;
  }

  /** Trimming a numeral whose first '.' is at `k` keeps the integer part and the significant fraction. */
  lemma ZtrimAtPoint(s: string, k: nat)
    requires 1 <= k < |s| - 1 && FirstNonDigit(s) == k && s[k] == '.'
    ensures var f := StripZeros(s[k + 1..]);
      Ztrim(s) == if f == [] then s[..k] else s[..k] + "." + f
  {
    var z := TrailingZeros(s[k + 1..]);
    if z == 0 {
      PointKeepsAll(s, k);
    } else if z < |s| - k - 1 {
      PointCutsZeros(s, k);
    } else {
      PointDropsFraction(s, k);
    }
  }

  lemma PointKeepsAll(s: string, k: nat)
    requires 1 <= k < |s| - 1 && FirstNonDigit(s) == k && s[k] == '.'
    requires TrailingZeros(s[k + 1..]) == 0
    ensures var f := StripZeros(s[k + 1..]);
      f != [] && Ztrim(s) == s[..k] + "." + f
  {
    var tail := s[k + 1..];
    assert StripZeros(tail) == tail;
    KeptAtPoint(s, k);
    CutAtPoint(s, k, |s|);
    assert tail[..|s| - k - 1] == tail;
    assert Ztrim(s) == s[..|s|];
  }

  lemma PointCutsZeros(s: string, k: nat)
    requires 1 <= k < |s| - 1 && FirstNonDigit(s) == k && s[k] == '.'
    requires 0 < TrailingZeros(s[k + 1..]) < |s| - k - 1
    ensures var f := StripZeros(s[k + 1..]);
      f != [] && Ztrim(s) == s[..k] + "." + f
  {
    var z := TrailingZeros(s[k + 1..]);
    KeptAtPoint(s, k);
    assert Kept(s) == |s| - z;
    CutStrip(s, k, z);
  }

  lemma CutStrip(s: string, k: nat, z: nat)
    requires k < |s| && s[k] == '.' && z == TrailingZeros(s[k + 1..]) && z < |s| - k - 1
    ensures s[..|s| - z] == s[..k] + "." + StripZeros(s[k + 1..])
  {
    CutAtPoint(s, k, |s| - z);
  }

  lemma PointDropsFraction(s: string, k: nat)
    requires 1 <= k < |s| - 1 && FirstNonDigit(s) == k && s[k] == '.'
    requires TrailingZeros(s[k + 1..]) == |s| - k - 1
    ensures StripZeros(s[k + 1..]) == [] && Ztrim(s) == s[..k]
  {
    KeptAtPoint(s, k);
  }

  lemma CutAtPoint(s: string, k: nat, c: nat)
    requires k < c <= |s| && s[k] == '.'
    ensures s[..c] == s[..k] + "." + s[k + 1..][..c - k - 1]
  {
  }

  lemma KeptAtPoint(s: string, k: nat)
    requires k < |s| && FirstNonDigit(s) == k && s[k] == '.'
    ensures var z := TrailingZeros(s[k + 1..]);
      Kept(s) == if z == 0 then |s| else if |s| - z == k + 1 then k else |s| - z
  {
  }

  lemma FirstNonDigitAt(s: string, k: nat)
    requires k < |s| && AllDigits(s[..k]) && !IsDigit(s[k])
    ensures FirstNonDigit(s) == k
  {
    var f := FirstNonDigit(s);
    assert forall j | 0 <= j < f :: IsDigit(s[j]) by {
      forall j | 0 <= j < f ensures IsDigit(s[j]) {
        assert s[..f][j] == s[j];
      }
    }
    assert forall j | 0 <= j < k :: IsDigit(s[j]) by {
      forall j | 0 <= j < k ensures IsDigit(s[j]) {
        assert s[..k][j] == s[j];
      }
    }
  }

  /** A negative rendering is never trimmed: "-1.500000" stays as it is. */
  lemma ZtrimKeepsNegative(ip: nat, frac: string)
    ensures Ztrim("-" + NatToDecimal(ip) + "." + frac) == "-" + NatToDecimal(ip) + "." + frac
  {
    var s := "-" + NatToDecimal(ip) + "." + frac;
    assert FirstNonDigit(s) == 0;
  }

  /** The trimming with a leading minus sign skipped, as the non-negative case shows it is meant. */
  function ZtrimSigned(s: string): (r: string)
    ensures r != []
    ensures NUL !in s ==> NUL !in r
  {
    if |s| > 0 && s[0] == '-' then "-" + Ztrim(s[1..]) else Ztrim(s)
  }

  /** A negative rendering is trimmed exactly like its magnitude. */
  lemma ZtrimSignedNegative(ip: nat, frac: string)
    requires |frac| >= 1 && AllDigits(frac)
    ensures ZtrimSigned("-" + (NatToDecimal(ip) + "." + frac))
      == "-" + (NatToDecimal(ip) + (if StripZeros(frac) == [] then "" else "." + StripZeros(frac)))
  {
    ZtrimFixed(ip, frac);
    ZtrimSignedMinus(NatToDecimal(ip) + "." + frac);
  }

  /**
   * A negative rendering with trailing zeros: Ztrim leaves it as it is, while
   * the corrected trimming drops the zeros.
   */
  lemma NegativeTrimDiffers(ip: nat, frac: string)
    requires |frac| >= 1 && AllDigits(frac) && TrailingZeros(frac) > 0
    ensures var s := "-" + (NatToDecimal(ip) + "." + frac);
      && Ztrim(s) == s
      && ZtrimSigned(s) == "-" + (NatToDecimal(ip) + (if StripZeros(frac) == [] then "" else "." + StripZeros(frac)))
      && ZtrimSigned(s) != Ztrim(s)
  {
    NegativeUntrimmed(ip, frac);
    ZtrimSignedNegative(ip, frac);
    TrimShortens(NatToDecimal(ip), frac);
  }

  lemma NegativeUntrimmed(ip: nat, frac: string)
    ensures Ztrim("-" + (NatToDecimal(ip) + "." + frac)) == "-" + (NatToDecimal(ip) + "." + frac)
  {
    ZtrimKeepsNegative(ip, frac);
    assert "-" + NatToDecimal(ip) + "." + frac == "-" + (NatToDecimal(ip) + "." + frac);
  }

  lemma TrimShortens(d: string, frac: string)
    requires TrailingZeros(frac) > 0
    ensures |d + (if StripZeros(frac) == [] then "" else "." + StripZeros(frac))| < |d + "." + frac|
  {
  }

  /** Without a leading minus sign the corrected trimming is the original one. */
  lemma ZtrimSignedUnsigned(s: string)
    requires s == [] || s[0] != '-'
    ensures ZtrimSigned(s) == Ztrim(s)
  {
  }

  lemma ZtrimSignedMinus(t: string)
    ensures ZtrimSigned("-" + t) == "-" + Ztrim(t)
  {
    assert ("-" + t)[1..] == t;
  }

  /** Where the scan back from the end, stopped at `p`, puts the terminator. */
  function ScanCut(s: string, k: nat, p: nat): (c: nat)
    requires k <= p < |s|
    ensures c <= |s|
  {
    if p == |s| - 1 then |s| else if p == k then k else p + 1
  }

  /** The scan back over the zeros after the '.' at `k` cuts where Kept does. */
  lemma ZerosScanned(s: string, k: nat, p: nat)
    requires k <= p < |s| && FirstNonDigit(s) == k && s[k] == '.'
    requires forall j | p < j < |s| :: s[j] == '0'
    requires p == k || s[p] != '0'
    ensures Kept(s) == ScanCut(s, k, p)
  {
    KeptAtPoint(s, k);
    TailZeros(s, k, p);
  }

  /** The zeros after position `p` are exactly the trailing zeros of the text after `k`. */
  lemma TailZeros(s: string, k: nat, p: nat)
    requires k <= p < |s|
    requires forall j | p < j < |s| :: s[j] == '0'
    requires p == k || s[p] != '0'
    ensures TrailingZeros(s[k + 1..]) == |s| - 1 - p
  {
    var tail := s[k + 1..];
    forall i | p - k <= i < |tail|
      ensures tail[i] == '0'
    {
      assert tail[i] == s[k + 1 + i];
    }
    TrailingZerosAt(tail, p - k);
  }

  /**
   * dtl_sv_ztrim on a NUL-terminated character buffer holding the C string
   * buf[..len]: it trims in place and leaves the trimmed string NUL-terminated.
   */
  method ZtrimInPlace(buf: array<char>, len: nat)
    requires 2 <= buf.Length && len < buf.Length
    requires buf[len] == NUL && NUL !in buf[..len]
    modifies buf
    ensures var r := Ztrim(old(buf[..len]));
      |r| < buf.Length && buf[..|r|] == r && buf[|r|] == NUL
  {
    ghost var s := buf[..len];
    // scan for the decimal point; a is -1 while none has been seen
    var p: int := 0;
    var a: int := -1;
    while p < len
      invariant 0 <= p <= len && a == -1
      invariant forall j | 0 <= j < p :: IsDigit(buf[j])
    {
      if !IsDigit(buf[p]) {
        if buf[p] == '.' {
          a := p;
          break;
        } else {
          FirstNonDigitAt(s, p);
          return;
        }
      }
      p := p + 1;
    }
    ghost var k := if a == -1 then len else a;
    assert FirstNonDigit(s) == k by {
      if a == -1 {
        assert s[..len] == s;
      } else {
        FirstNonDigitAt(s, a);
      }
    }
    // scan back over the zeros that end the string; b is -1 while none has been seen
    p := len - 1;
    var b: int := -1;
    while p > a
      invariant a <= p < len
      invariant b == (if p == len - 1 then -1 else p + 1)
      invariant forall j | p < j < len :: buf[j] == '0'
    {
      if buf[p] == '0' {
        b := p;
      } else {
        break;
      }
      p := p - 1;
    }
    ghost var cut := if a == -1 then len else ScanCut(s, a, p);
    assert Kept(s) == cut by {
      if a != -1 {
        ZerosScanned(s, a, p);
      }
    }
    if a != -1 && b != -1 {
      if b - 1 == a {
        b := b - 1;
      }
      buf[b] := NUL;
    }
    assert buf[..cut] == s[..cut] && buf[cut] == NUL;
    if buf[0] == NUL {
      buf[0] := '0';
      buf[1] := NUL;
    }
  }
}
