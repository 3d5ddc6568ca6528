/** Nonces as bytes in a header and as hexadecimal text: the native side stores a counter in the
    header, and the submission rebuilds the same bytes from the text of the counter.
 */
module NonceBytes {
  import opened Basics
  import opened Sequences
  import opened Words

  type Byte = x: int | 0 <= x < 256

  // ---------- numbers as bytes ----------

  function LittleEndian(v: nat, n: nat): (bs: seq<Byte>)
    ensures |bs| == n
  {
    if n == 0 then [] else [v % 256] + LittleEndian(v / 256, n - 1)
  }

  function FromLittleEndian(bs: seq<Byte>): (v: nat)
    ensures v < Pow2(8 * |bs|)
  {
    if |bs| == 0 then 0 else
      EightMore(|bs| - 1);
      bs[0] + 256 * FromLittleEndian(bs[1..])
  }

  lemma EightMore(n: nat)
    ensures Pow2(8 * (n + 1)) == 256 * Pow2(8 * n)
  {
    Pow16();
    Pow2Add(8, 8 * n);
  }

  lemma {:induction false} BytesRoundTrip(v: nat, n: nat)
    requires v < Pow2(8 * n)
    ensures FromLittleEndian(LittleEndian(v, n)) == v
  {
    if n > 0 {
      EightMore(n - 1);
      BytesRoundTrip(v / 256, n - 1);
      assert LittleEndian(v, n)[1..] == LittleEndian(v / 256, n - 1);
    }
  }

  /** Byte i is what a shift by 8 i bits brings down. */
  lemma {:induction false} ByteAt(v: nat, n: nat, i: nat)
    requires i < n
    ensures LittleEndian(v, n)[i] == v / Pow2(8 * i) % 256
  {
    if i > 0 {
      ByteAt(v / 256, n - 1, i - 1);
      EightMore(i - 1);
      TwoQuotients(v, 256, Pow2(8 * (i - 1)));
    }
  }

  lemma TwoQuotients(v: nat, a: nat, b: nat)
    requires a > 0 && b > 0
    ensures a * b > 0 && v / a / b == v / (a * b)
  {
    MulOrder(a, 1, b);
    var q, r := v / a, v % a;
    var q', r' := q / b, q % b;
    assert v == q * a + r && q == q' * b + r';
    assert q * a == q' * (a * b) + r' * a;
    Positive(b - 1 - r', a);
    NonNegative(r', a);
    assert (b - 1 - r') * a == a * b - a - r' * a;
    DivMod(v, a * b, q', r' * a + r);
  }

  function EncodeNonce(v: nat, n: nat, bigEndian: bool): seq<Byte> {
    if bigEndian then Reverse(LittleEndian(v, n)) else LittleEndian(v, n)
  }

  /** The bytes of `data` with n bytes from `at` on replaced. */
  function Patched(data: seq<Byte>, at: nat, bs: seq<Byte>): seq<Byte>
    requires at + |bs| <= |data|
  {
    data[..at] + bs + data[at + |bs|..]
  }

  method StoreNonce(data: array<Byte>, at: nat, value: nat, n: nat, bigEndian: bool)
    requires at + n <= data.Length
    modifies data
    ensures data[..] == Patched(old(data[..]), at, EncodeNonce(value, n, bigEndian))
  {
    ghost var was := data[..];
    var i := 0;
    while i < n
      invariant i <= n
      invariant forall k :: 0 <= k < i ==> data[at + k] == EncodeNonce(value, n, bigEndian)[k]
      invariant forall k :: 0 <= k < data.Length && !(at <= k < at + i) ==> data[k] == was[k]
    {
      var shift := if bigEndian then n - 1 - i else i;
      ByteAt(value, n, shift);
      data[at + i] := value / Pow2(8 * shift) % 256;
      i := i + 1;
    }
  }

  lemma {:induction false} TakeOneMore(bs: seq<Byte>, i: nat)
    requires i < |bs|
    ensures FromLittleEndian(bs[..i + 1]) == FromLittleEndian(bs[..i]) + Pow2(8 * i) * bs[i]
  {
    if i == 0 {
      assert bs[..1][1..] == [];
    } else {
      TakeOneMore(bs[1..], i - 1);
      assert bs[..i + 1][1..] == bs[1..][..i] && bs[..i][1..] == bs[1..][..i - 1];
      EightMore(i - 1);
      Regroup(Pow2(8 * (i - 1)), bs[i]);
    }
  }

  lemma Regroup(p: nat, b: nat)
    ensures 256 * (p * b) == 256 * p * b
  {
  }

  lemma ShiftOneIn(bs: seq<Byte>, i: nat)
    requires i < |bs|
    ensures Or(256 * FromLittleEndian(Reverse(bs[..i])), bs[i]) == FromLittleEndian(Reverse(bs[..i + 1]))
  {
    OrByte(bs[i], FromLittleEndian(Reverse(bs[..i])));
    assert Reverse(bs[..i + 1]) == [bs[i]] + Reverse(bs[..i]);
    assert ([bs[i]] + Reverse(bs[..i]))[1..] == Reverse(bs[..i]);
  }

  lemma OrOneIn(bs: seq<Byte>, i: nat)
    requires i < |bs|
    ensures Pow2(8 * i) * bs[i] >= 0
    ensures Or(FromLittleEndian(bs[..i]), Pow2(8 * i) * bs[i]) == FromLittleEndian(bs[..i + 1])
  {
    NonNegative(Pow2(8 * i), bs[i]);
    TakeOneMore(bs, i);
    OrDisjoint(FromLittleEndian(bs[..i]), bs[i], 8 * i);
  }

  lemma OrByte(b: Byte, v: nat)
    ensures Or(256 * v, b) == b + 256 * v
  {
    Pow16();
    OrDisjoint(b, v, 8);
  }

  /** Little-endian bytes are or-ed in at their places; big-endian ones are shifted in. */
  method LoadNonce(data: array<Byte>, at: nat, n: nat, bigEndian: bool) returns (value: nat)
    requires at + n <= data.Length
    ensures value == FromLittleEndian(if bigEndian then Reverse(data[at..at + n]) else data[at..at + n])
  {
    ghost var bs := data[at..at + n];
    assert bs[..n] == bs;
    value := 0;
    var i := 0;
    if bigEndian {
      while i < n
        invariant i <= n && value == FromLittleEndian(Reverse(bs[..i]))
      {
        ShiftOneIn(bs, i);
        assert data[at + i] == bs[i];
        value := Or(256 * value, data[at + i]);
        i := i + 1;
      }
      return;
    }
    while i < n
      invariant i <= n && value == FromLittleEndian(bs[..i])
    {
      OrOneIn(bs, i);
      assert data[at + i] == bs[i];
      value := Or(value, Pow2(8 * i) * data[at + i]);
      i := i + 1;
    }
  }

  /** A stored nonce is read back, in either byte order. */
  lemma StoreLoadRoundTrip(v: nat, n: nat, bigEndian: bool)
    requires v < Pow2(8 * n)
    ensures FromLittleEndian(if bigEndian then Reverse(EncodeNonce(v, n, true)) else EncodeNonce(v, n, false)) == v
  {
    BytesRoundTrip(v, n);
    assert Reverse(Reverse(LittleEndian(v, n))) == LittleEndian(v, n);
  }

  // ---------- bytes as text ----------

  function Digit(d: nat): char
    requires d < 16
  {
    "0123456789abcdef"[d]
  }

  function HexByte(b: Byte): string {
    [Digit(b / 16), Digit(b % 16)]
  }

  function Hex(bs: seq<Byte>): (s: string)
    ensures |s| == 2 * |bs|
  {
    if |bs| == 0 then "" else HexByte(bs[0]) + Hex(bs[1..])
  }

  lemma TextConcat(x: string, y: string, z: string)
    ensures x + (y + z) == x + y + z
  {
  }

  lemma {:induction false} HexConcat(a: seq<Byte>, b: seq<Byte>)
    ensures Hex(a + b) == Hex(a) + Hex(b)
  {
    if |a| == 0 {
      assert a + b == b;
    } else {
      HexConcat(a[1..], b);
      assert (a + b)[1..] == a[1..] + b;
      TextConcat(HexByte(a[0]), Hex(a[1..]), Hex(b));
    }
  }

  lemma {:induction false} HexDrop(bs: seq<Byte>, n: nat)
    requires n <= |bs|
    ensures Hex(bs)[2 * n..] == Hex(bs[n..])
  {
    if n == 0 {
      assert bs[0..] == bs;
    } else {
      HexDrop(bs[1..], n - 1);
      DropText(HexByte(bs[0]), Hex(bs[1..]), 2 * (n - 1));
      assert bs[1..][n - 1..] == bs[n..];
    }
  }

  lemma DropText(x: string, y: string, k: nat)
    requires k <= |y|
    ensures (x + y)[|x| + k..] == y[k..]
  {
  }

  /** Two-character groups in reverse. */
  function ReverseHexBytes(s: string): (r: string)
    requires |s| % 2 == 0
    ensures |r| == |s|
  {
    if |s| == 0 then "" else ReverseHexBytes(s[2..]) + s[..2]
  }

  lemma {:induction false} ReverseHexIsHexReversed(bs: seq<Byte>)
    ensures ReverseHexBytes(Hex(bs)) == Hex(Reverse(bs))
  {
    if |bs| > 0 {
      ReverseHexIsHexReversed(bs[1..]);
      assert Hex(bs)[2..] == Hex(bs[1..]) && Hex(bs)[..2] == HexByte(bs[0]);
      assert Reverse(bs) == Reverse(bs[1..]) + [bs[0]];
      HexConcat(Reverse(bs[1..]), [bs[0]]);
      assert Hex([bs[0]]) == HexByte(bs[0]) + "";
    } else {
      assert Reverse(bs) == [];
    }
  }

  lemma {:induction false} HexOfZeroes(n: nat)
    ensures Hex(seq(n, _ => 0)) == Zeroes(2 * n)
  {
    if n > 0 {
      HexOfZeroes(n - 1);
      assert seq(n, _ => 0)[1..] == seq(n - 1, _ => 0);
    }
  }

  // ---------- the ZelHash nonce ----------

  /** The text of a counter as the native side prints it. */
  function NonceToHex(counter: U64): string {
    Hex(Reverse(LittleEndian(counter, 8)))
  }

  /** The second part of the nonce in a submission: the counter in the byte order of the header, and
      what the job delivered behind it. */
  function ZelhashNonce2(blob: string, prefixLen: nat, nonceHex: string): (r: Result<string>)
    ensures r.Ok? <==> prefixLen <= 24 && |blob| == 280 && HexText(blob) && 1 <= |nonceHex| <= 16 && HexText(nonceHex)
    ensures r.Ok? ==> |r.value| == 64 - 2 * prefixLen
  {
    if prefixLen > 24 then Refused("Invalid ZelHash nonce prefix length")
    else if |blob| != 280 || !HexText(blob) then Refused("Invalid ZelHash job blob")
    else if |nonceHex| < 1 || |nonceHex| > 16 || !HexText(nonceHex) then Refused("Invalid nonce")
    else
      var fullNonce := blob[|blob| - 64..];
      var counter := ReverseHexBytes(PadStart(nonceHex, 16));
      var tail := fullNonce[2 * prefixLen + 16..];
      Ok(PadEnd(counter + tail, 64 - 2 * prefixLen))
  }

  /** A job from its header and the pool's prefix: the nonce field is the prefix and zeroes. */
  function NotifyBlob(header: seq<Byte>, prefix: string): string
    requires |header| == 108
  {
    Hex(header) + (prefix + Zeroes(64))[..64]
  }

  lemma {:induction false} HexIsText(bs: seq<Byte>)
    ensures HexText(Hex(bs))
  {
    if |bs| > 0 {
      HexIsText(bs[1..]);
    }
  }

  /** The blob is the text of the header bytes that the native side starts from. */
  lemma BlobIsHeader(header: seq<Byte>, prefix: seq<Byte>)
    requires |header| == 108 && |prefix| <= 8
    ensures NotifyBlob(header, Hex(prefix)) == Hex(header + prefix + seq(32 - |prefix|, _ => 0))
  {
    var zeroes: seq<Byte> := seq(32 - |prefix|, _ => 0);
    HexOfZeroes(32 - |prefix|);
    HexConcat(header + prefix, zeroes);
    HexConcat(header, prefix);
    assert (Hex(prefix) + Zeroes(64))[..64] == Hex(prefix) + Zeroes(64 - 2 * |prefix|);
    assert NotifyBlob(header, Hex(prefix)) == Hex(header) + (Hex(prefix) + Zeroes(64 - 2 * |prefix|));
  }

  /** For every pool prefix and every counter, the prefix and the submitted second part are the text
      of the nonce field that the native side hashed: its 32 bytes after the counter was stored,
      little-endian, behind the prefix. */
  lemma SubmittedNonceIsHashedNonce(header: seq<Byte>, prefix: seq<Byte>, counter: U64)
    requires |header| == 108 && |prefix| <= 8
    ensures var bytes := header + prefix + seq(32 - |prefix|, _ => 0);
      var stored := Patched(bytes, 108 + |prefix|, EncodeNonce(counter, 8, false));
      var nonce2 := ZelhashNonce2(NotifyBlob(header, Hex(prefix)), |prefix|, NonceToHex(counter));
      nonce2.Ok? && Hex(prefix) + nonce2.value == Hex(stored[108..])
  {
    var n := |prefix|;
    var zeroes: seq<Byte> := seq(32 - n, _ => 0);
    var bytes := header + prefix + zeroes;
    var le: seq<Byte> := LittleEndian(counter, 8);
    BlobIsHeader(header, prefix);
    Nonce2OfBytes(bytes, n, le);
    PatchedNonce(header, prefix, zeroes, le);
    var tail := bytes[108..][n + 8..];
    HexConcat(prefix + le, tail);
    HexConcat(prefix, le);
    TextConcat(Hex(prefix), Hex(le), Hex(tail));
  }

  lemma PatchedNonce(header: seq<Byte>, prefix: seq<Byte>, zeroes: seq<Byte>, le: seq<Byte>)
    requires |header| == 108 && |prefix| <= 8 && |zeroes| == 32 - |prefix| && |le| == 8
    ensures var bytes := header + prefix + zeroes;
      Patched(bytes, 108 + |prefix|, le)[108..] == prefix + le + bytes[108..][|prefix| + 8..]
  {
  }

  /** The second part is the counter's bytes and the header's bytes behind them. */
  lemma Nonce2OfBytes(bytes: seq<Byte>, n: nat, le: seq<Byte>)
    requires |bytes| == 140 && n <= 24 && |le| == 8
    ensures ZelhashNonce2(Hex(bytes), n, Hex(Reverse(le))) == Ok(Hex(le) + Hex(bytes[108..][n + 8..]))
  {
    HexIsText(bytes);
    HexIsText(Reverse(le));
    ReverseHexIsHexReversed(Reverse(le));
    assert Reverse(Reverse(le)) == le;
    HexDrop(bytes, 108);
    HexDrop(bytes[108..], n + 8);
    Nonce2OfText(Hex(bytes), n, Hex(Reverse(le)));
  }

  lemma Nonce2OfText(blob: string, n: nat, nonce: string)
    requires |blob| == 280 && HexText(blob) && n <= 24 && |nonce| == 16 && HexText(nonce)
    ensures ZelhashNonce2(blob, n, nonce) == Ok(ReverseHexBytes(nonce) + blob[216..][2 * (n + 8)..])
  {
  }
}
