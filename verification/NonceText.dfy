/** Nonces as text on the JavaScript side: what counts as a valid nonce of a job, and why its check
    of leading digits is the native side's check of protected bits.
 */
module NonceText {
  import opened Basics
  import opened NonceBytes
  import opened NonceSpace
  import opened Sequences
  import opened Words

  function DigitOf(c: char): (d: nat)
    requires HexDigit(c)
    ensures d < 16
  {
    if c <= '9' then (c - '0') as nat else if c <= 'F' then (c - 'A') as nat + 10 else (c - 'a') as nat + 10
  }

  /** The number that hexadecimal text stands for. */
  function Value(s: string): (v: nat)
    requires HexText(s)
    ensures v < Pow2(4 * |s|)
  {
    if |s| == 0 then 0 else
      FourMore(|s| - 1);
      16 * Value(s[..|s| - 1]) + DigitOf(s[|s| - 1])
  }

  lemma FourMore(n: nat)
    ensures Pow2(4 * (n + 1)) == 16 * Pow2(4 * n)
  {
    assert Pow2(4) == 16;
    Pow2Add(4, 4 * n);
  }

  predicate StartsWith(s: string, prefix: string) {
    |prefix| <= |s| && s[..|prefix|] == prefix
  }

  function Cut(s: string, width: nat): (r: string)
    ensures |r| <= width
  {
    if |s| <= width then s else s[..width]
  }

  /** The padded text begins with as much of the prefix as there is room for, in either case. */
  predicate HasPrefix(text: string, bytes: nat, prefix: string) {
    StartsWith(Lower(PadStart(text, 2 * bytes)), Lower(Cut(prefix, 2 * bytes)))
  }

  /** Hexadecimal text of the job's size that begins with the prefix. */
  predicate ValidNonce(text: string, bytes: nat, prefix: string, nonzero: bool) {
    && (bytes == 4 || bytes == 8)
    && 1 <= |text| <= 2 * bytes && HexText(text)
    && (nonzero ==> exists i :: 0 <= i < |text| && text[i] != '0')
    && HasPrefix(text, bytes, prefix)
  }

  // ---------- digits and bits ----------

  lemma FourShifts(v: nat, n: nat)
    ensures Shifted(v, n + 4) == 16 * Shifted(v, n)
  {
    assert Shifted(v, n + 4) == 2 * Shifted(v, n + 3) && Shifted(v, n + 2) == 2 * Shifted(v, n + 1);
  }

  lemma {:induction false} ValueConcat(a: string, b: string)
    requires HexText(a) && HexText(b)
    ensures HexText(a + b) && Value(a + b) == Shifted(Value(a), 4 * |b|) + Value(b)
  {
    if |b| == 0 {
      assert a + b == a;
    } else {
      var c := b[..|b| - 1];
      ValueConcat(a, c);
      FourShifts(Value(a), 4 * |c|);
      assert (a + b)[..|a + b| - 1] == a + c;
    }
  }

  lemma {:induction false} ValueOfZeroes(n: nat)
    ensures HexText(Zeroes(n)) && Value(Zeroes(n)) == 0
  {
    if n > 0 {
      ValueOfZeroes(n - 1);
      assert Zeroes(n)[..n - 1] == Zeroes(n - 1);
    }
  }

  lemma {:induction false} ShiftedZero(n: nat)
    ensures Shifted(0, n) == 0
  {
    if n > 0 {
      ShiftedZero(n - 1);
    }
  }

  lemma PaddedValue(s: string, n: nat)
    requires HexText(s) && |s| <= n
    ensures HexText(PadStart(s, n)) && |PadStart(s, n)| == n && Value(PadStart(s, n)) == Value(s)
  {
    ValueOfZeroes(n - |s|);
    ValueConcat(Zeroes(n - |s|), s);
    ShiftedZero(4 * |s|);
    assert Zeroes(0) + s == s;
  }

  lemma LowerKeepsDigit(c: char, d: char)
    requires HexDigit(c) && HexDigit(d)
    ensures DigitOf(c) == DigitOf(d) <==> LowerChar(c) == LowerChar(d)
  {
  }

  lemma LowerSnoc(s: string, c: char)
    ensures Lower(s + [c]) == Lower(s) + [LowerChar(c)]
  {
  }

  lemma SnocEqual(x: string, c: char, y: string, d: char)
    ensures x + [c] == y + [d] <==> x == y && c == d
  {
    if x + [c] == y + [d] {
      assert |x| == |y|;
      assert x == (x + [c])[..|x|] && y == (y + [d])[..|y|];
      assert c == (x + [c])[|x|] && d == (y + [d])[|y|];
    }
  }

  /** Texts of one length stand for the same number exactly when they differ in case only. */
  lemma {:induction false} SameValueIffSameText(a: string, b: string)
    requires HexText(a) && HexText(b) && |a| == |b|
    ensures Value(a) == Value(b) <==> Lower(a) == Lower(b)
  {
    if |a| > 0 {
      var n := |a| - 1;
      SameValueIffSameText(a[..n], b[..n]);
      LowerKeepsDigit(a[n], b[n]);
      assert a[..n] + [a[n]] == a && b[..n] + [b[n]] == b;
      LowerSnoc(a[..n], a[n]);
      LowerSnoc(b[..n], b[n]);
      SnocEqual(Lower(a[..n]), LowerChar(a[n]), Lower(b[..n]), LowerChar(b[n]));
    }
  }

  lemma DigitWorth(d: nat)
    requires d < 16
    ensures HexDigit(Digit(d)) && DigitOf(Digit(d)) == d
  {
  }

  lemma ByteValue(b: Byte)
    ensures HexText(Hex([b])) && |Hex([b])| == 2 && Value(Hex([b])) == b
  {
    var s := Hex([b]);
    assert s == [Digit(b / 16), Digit(b % 16)];
    DigitWorth(b / 16);
    DigitWorth(b % 16);
    assert s[..1] == [Digit(b / 16)] && s[..1][..0] == "";
    assert Value(s[..1]) == b / 16;
  }

  lemma OneMoreByte(bs: seq<Byte>, b: Byte)
    ensures HexText(Hex(bs)) && HexText(Hex(bs + [b])) && Value(Hex(bs + [b])) == 256 * Value(Hex(bs)) + b
  {
    HexConcat(bs, [b]);
    HexIsText(bs);
    ByteValue(b);
    ValueConcat(Hex(bs), Hex([b]));
    EightShifts(Value(Hex(bs)));
  }

  lemma EightShifts(v: nat)
    ensures Shifted(v, 8) == 256 * v
  {
    FourShifts(v, 4);
    FourShifts(v, 0);
  }

  lemma ReverseTail(bs: seq<Byte>)
    requires |bs| > 0
    ensures Reverse(bs)[0] == bs[|bs| - 1] && Reverse(bs)[1..] == Reverse(bs[..|bs| - 1])
  {
  }

  /** The text of bytes, highest first, stands for the number that they make. */
  lemma {:induction false} TextOfBytes(bs: seq<Byte>)
    ensures HexText(Hex(bs)) && Value(Hex(bs)) == FromLittleEndian(Reverse(bs))
  {
    if |bs| > 0 {
      var rest, b := bs[..|bs| - 1], bs[|bs| - 1];
      assert bs == rest + [b];
      TextOfBytes(rest);
      OneMoreByte(rest, b);
      ReverseTail(bs);
    }
  }

  /** The check for a digit other than zero is the check for a number other than zero. */
  lemma {:induction false} ZeroIffAllZeroes(text: string)
    requires HexText(text)
    ensures Value(text) != 0 <==> exists i :: 0 <= i < |text| && text[i] != '0'
  {
    if |text| > 0 {
      var n := |text| - 1;
      ZeroIffAllZeroes(text[..n]);
      DigitIsZero(text[n]);
      if i :| 0 <= i < n && text[i] != '0' {
        assert text[..n][i] != '0';
      }
      if i :| 0 <= i < n && text[..n][i] != '0' {
        assert text[i] != '0';
      }
    }
  }

  lemma DigitIsZero(c: char)
    requires HexDigit(c)
    ensures DigitOf(c) == 0 <==> c == '0'
  {
  }

  lemma NonzeroNonce(text: string, bytes: nat, prefix: string)
    ensures ValidNonce(text, bytes, prefix, true) <==> ValidNonce(text, bytes, prefix, false) && Value(text) != 0
  {
    if ValidNonce(text, bytes, prefix, false) {
      ZeroIffAllZeroes(text);
    }
  }

  // ---------- the mask of a pool prefix ----------

  function Effs(n: nat): (s: string)
    ensures |s| == n && forall i :: 0 <= i < n ==> s[i] == 'f'
  {
    seq(n, _ => 'f')
  }

  lemma {:induction false} ValueOfEffs(n: nat)
    ensures HexText(Effs(n)) && Value(Effs(n)) == Pow2(4 * n) - 1
  {
    if n > 0 {
      ValueOfEffs(n - 1);
      FourMore(n - 1);
      assert Effs(n)[..n - 1] == Effs(n - 1);
    }
  }

  /** The mask that a job gets with a prefix: all digits of the prefix, none of the counter. */
  function MaskText(bytes: nat, prefix: string): string {
    var m := |Cut(prefix, 2 * bytes)|;
    Effs(m) + Zeroes(2 * bytes - m)
  }

  /** The low bits that a prefix leaves to the counter. */
  function FreeBits(bytes: nat, prefix: string): (k: nat)
    ensures k <= 8 * bytes
  {
    8 * bytes - 4 * |Cut(prefix, 2 * bytes)|
  }

  lemma {:induction false} ShiftedOnes(m: nat, k: nat)
    ensures Shifted(Pow2(m) - 1, k) == Pow2(m + k) - Pow2(k)
  {
    if k > 0 {
      ShiftedOnes(m, k - 1);
    }
  }

  /** As a number the mask covers exactly the high bits of the prefix. */
  lemma MaskTextIsPrefixMask(bytes: nat, prefix: string)
    ensures HexText(MaskText(bytes, prefix))
    ensures Value(MaskText(bytes, prefix)) == PrefixMask(8 * bytes, FreeBits(bytes, prefix))
  {
    var m := |Cut(prefix, 2 * bytes)|;
    var rest := 2 * bytes - m;
    ValueOfEffs(m);
    ValueOfZeroes(rest);
    ValueConcat(Effs(m), Zeroes(rest));
    ShiftedOnes(4 * m, 4 * rest);
  }

  /** The high digits of a padded text are its value's high bits. */
  lemma HighDigits(text: string, n: nat, m: nat)
    requires HexText(text) && |text| <= n && m <= n
    ensures HexText(PadStart(text, n)[..m])
    ensures Value(text) < Pow2(4 * n) && Value(text) / Pow2(4 * (n - m)) == Value(PadStart(text, n)[..m])
  {
    PaddedValue(text, n);
    var t := PadStart(text, n);
    ValueConcat(t[..m], t[m..]);
    assert t[..m] + t[m..] == t;
    JoinedQuotient(Value(t[m..]), Value(t[..m]), 4 * (n - m));
  }

  /** Under a mask of whole digits, equal bits are equal leading digits. */
  lemma BitsAreDigits(x: string, y: string, n: nat, m: nat)
    requires HexText(x) && HexText(y) && |x| <= n && |y| <= n && m <= n
    ensures SamePrefix(Value(x), Value(y), PrefixMask(4 * n, 4 * (n - m))) <==>
      Lower(PadStart(x, n)[..m]) == Lower(PadStart(y, n)[..m])
  {
    HighDigits(x, n, m);
    HighDigits(y, n, m);
    Pow2Order(4 * (n - m), 4 * n);
    HighMaskComparesQuotients(Value(x), Value(y), 4 * n, 4 * (n - m));
    SameValueIffSameText(PadStart(x, n)[..m], PadStart(y, n)[..m]);
  }

  lemma LowerPrefix(s: string, c: string)
    requires |c| <= |s|
    ensures StartsWith(Lower(s), Lower(c)) <==> Lower(s[..|c|]) == Lower(c)
  {
    assert Lower(s)[..|c|] == Lower(s[..|c|]);
  }

  /** The text has the bits that the mask protects in common with a nonce that the job can start
      from: the prefix and any suffix. */
  predicate KeepsProtectedBits(text: string, bytes: nat, prefix: string, suffix: string)
    requires HexText(text) && HexText(prefix) && HexText(suffix)
  {
    && HexText(Cut(prefix, 2 * bytes) + suffix) && HexText(MaskText(bytes, prefix))
    && SamePrefix(Value(Cut(prefix, 2 * bytes) + suffix), Value(text), Value(MaskText(bytes, prefix)))
  }

  /** For text of the job's size, beginning with the prefix is keeping the protected bits. */
  lemma PrefixIffProtectedBits(text: string, bytes: nat, prefix: string, suffix: string)
    requires 1 <= |text| <= 2 * bytes && HexText(text) && HexText(prefix) && HexText(suffix)
    requires |Cut(prefix, 2 * bytes)| + |suffix| == 2 * bytes
    ensures HasPrefix(text, bytes, prefix) <==> KeepsProtectedBits(text, bytes, prefix, suffix)
  {
    var n, c := 2 * bytes, Cut(prefix, 2 * bytes);
    MaskTextIsPrefixMask(bytes, prefix);
    JoinedText(c, suffix);
    assert 4 * n == 8 * bytes && 4 * (n - |c|) == FreeBits(bytes, prefix);
    BitsAreDigits(c + suffix, text, n, |c|);
    LowerPrefix(PadStart(text, n), c);
  }

  lemma JoinedText(c: string, suffix: string)
    requires HexText(c) && HexText(suffix)
    ensures HexText(c + suffix) && PadStart(c + suffix, |c| + |suffix|)[..|c|] == c
  {
  }
}
