/**
 * The hex codec for serialised group elements: `elementToStringG1/G2`,
 * `elementToHexStr` and `canonicalElementToHex` print every byte as two
 * lower-case, zero-padded hex digits; `hexToBytes` reads the text back two
 * characters at a time with `strtol(.., 16)` cast to `unsigned char`.
 */
module Hex {
  import opened Outcome
  import opened CType

  type byte = x: int | 0 <= x < 256

  /** The digit `std::hex` prints for a value below 16: lower case. */
  function LowerHexDigit(d: nat): (c: char)
    requires d < 16
    ensures IsHexDigit(c) && HexDigitValue(c) == d
    ensures '0' <= c <= '9' || 'a' <= c <= 'f'
  {
    "0123456789abcdef"[d]
  }

  /** Lower-case hex text: what the encoders can print. */
  predicate IsLowerHex(s: string) {
    forall i :: 0 <= i < |s| ==> '0' <= s[i] <= '9' || 'a' <= s[i] <= 'f'
  }

  /** `setw(2) << setfill('0') << std::hex << (int)b`. */
  function HexByte(b: byte): (s: string)
    ensures |s| == 2 && IsLowerHex(s)
    ensures HexDigitValue(s[0]) * 16 + HexDigitValue(s[1]) == b
  {
    [LowerHexDigit(b / 16), LowerHexDigit(b % 16)]
  }

  /** The encoder loop over the serialised bytes. */
  function HexEncode(bs: seq<byte>): (s: string)
    ensures |s| == 2 * |bs| && IsLowerHex(s)
    decreases |bs|
  {
    if |bs| == 0 then "" else HexByte(bs[0]) + HexEncode(bs[1..])
  }

  /** The leading hex digits of `t` and the rest. */
  function SpanHex(t: string): (r: (string, string))
    ensures r.0 + r.1 == t
    ensures forall i :: 0 <= i < |r.0| ==> IsHexDigit(r.0[i])
    ensures |r.1| == 0 || !IsHexDigit(r.1[0])
  {
    if |t| > 0 && IsHexDigit(t[0]) then
      var (d, rest) := SpanHex(t[1..]);
      ([t[0]] + d, rest)
    else
      ([], t)
  }

  /** The value of a run of hex digits, most significant first. */
  function HexValue(ds: string): nat
    requires forall i :: 0 <= i < |ds| ==> IsHexDigit(ds[i])
  {
    if |ds| == 0 then 0 else HexValue(ds[..|ds| - 1]) * 16 + HexDigitValue(ds[|ds| - 1])
  }

  /**
   * `strtol(s, NULL, 16)`: white space, an optional sign, an optional "0x"
   * or "0X" in front of a hex digit, then the longest run of hex digits; no
   * digit gives 0.
   */
  function Strtol16(s: string): int {
    var t := SpanCSpace(s).1;
    var neg := |t| > 0 && t[0] == '-';
    var u := if |t| > 0 && (t[0] == '-' || t[0] == '+') then t[1..] else t;
    var w := if |u| >= 3 && u[0] == '0' && (u[1] == 'x' || u[1] == 'X') && IsHexDigit(u[2])
             then u[2..] else u;
    var m: int := HexValue(SpanHex(w).0);
    if neg then -m else m
  }

  /** `(unsigned char)strtol(pair, NULL, 16)`: the conversion keeps the value mod 256. */
  function PairByte(pair: string): byte {
    Strtol16(pair) % 256
  }

  /**
   * `hexToBytes`: byte `i` is read from characters `2i` and `2i+1`, so there
   * is one byte per complete pair and a last odd character is dropped.
   */
  function HexToBytes(h: string): (bs: seq<byte>)
    ensures |bs| == |h| / 2
  {
    seq(|h| / 2, i requires 0 <= i < |h| / 2 => PairByte(h[2 * i..2 * i + 2]))
  }

  /** Characters `2i` and `2i+1` of the encoder's output are the digits of byte `i`. */
  lemma {:induction false} HexEncodeCharsAt(bs: seq<byte>, i: nat)
    requires i < |bs|
    ensures HexEncode(bs)[2 * i] == HexByte(bs[i])[0]
    ensures HexEncode(bs)[2 * i + 1] == HexByte(bs[i])[1]
    decreases i
  {
    var h, t := HexEncode(bs), HexEncode(bs[1..]);
    var b0 := HexByte(bs[0]);
    assert h == b0 + t;
    if i > 0 {
      HexEncodeCharsAt(bs[1..], i - 1);
      assert bs[1..][i - 1] == bs[i];
      IndexAfterPair(b0, t, 2 * i);
      IndexAfterPair(b0, t, 2 * i + 1);
    }
  }

  /** Past a two-character prefix, indexing skips the prefix. */
  lemma IndexAfterPair(x: string, t: string, k: nat)
    requires |x| == 2 && 2 <= k < 2 + |t|
    ensures (x + t)[k] == t[k - 2]
  {
  }

  /** The two characters the encoder prints for byte `i`. */
  lemma HexEncodeAt(bs: seq<byte>, i: nat)
    requires i < |bs|
    ensures HexEncode(bs)[2 * i..2 * i + 2] == HexByte(bs[i])
  {
    HexEncodeCharsAt(bs, i);
    SliceOfTwo(HexEncode(bs), 2 * i, HexByte(bs[i]));
  }

  /** Two characters of `s` at `j` that agree with `x` form the slice `x`. */
  lemma SliceOfTwo(s: string, j: nat, x: string)
    requires |x| == 2 && j + 2 <= |s| && s[j] == x[0] && s[j + 1] == x[1]
    ensures s[j..j + 2] == x
  {
  }

  // ---------------------------------------------------------------------------
  // Round trips.

  /** Two hex digits read back as the byte they spell. */
  lemma PairOfDigits(pair: string)
    requires |pair| == 2 && IsHexDigit(pair[0]) && IsHexDigit(pair[1])
    ensures Strtol16(pair) == HexDigitValue(pair[0]) * 16 + HexDigitValue(pair[1])
    ensures PairByte(pair) == HexDigitValue(pair[0]) * 16 + HexDigitValue(pair[1])
  {
    assert SpanCSpace(pair).1 == pair;
    assert SpanHex(pair[1..][1..]) == ([], []);
    assert SpanHex(pair[1..]).0 == pair[1..];
    assert SpanHex(pair).0 == pair;
    assert pair[..1] == [pair[0]];
    assert pair[..1][..0] == [];
    assert HexValue(pair[..1]) == HexDigitValue(pair[0]);
  }

  /** A printed byte reads back as itself. */
  lemma ByteRoundTrip(b: byte)
    ensures PairByte(HexByte(b)) == b
  {
    PairOfDigits(HexByte(b));
  }

  /** Decoding what the encoder printed gives back the bytes. */
  lemma DecodeEncode(bs: seq<byte>)
    ensures HexToBytes(HexEncode(bs)) == bs
  {
    var out := HexToBytes(HexEncode(bs));
    forall i | 0 <= i < |bs| ensures out[i] == bs[i] {
      DecodeEncodeAt(bs, i);
    }
  }

  /** Byte `i` decodes from the two characters printed for it. */
  lemma DecodeEncodeAt(bs: seq<byte>, i: nat)
    requires i < |bs|
    ensures HexToBytes(HexEncode(bs))[i] == bs[i]
  {
    var pair := HexEncode(bs)[2 * i..2 * i + 2];
    HexEncodeAt(bs, i);
    ByteRoundTrip(bs[i]);
    assert HexToBytes(HexEncode(bs))[i] == PairByte(pair);
  }

  /** Re-encoding byte `i` of lower-case hex text prints characters `2i` and `2i+1` again. */
  lemma ReencodeAt(h: string, i: nat)
    requires IsLowerHex(h) && i < |h| / 2
    ensures HexEncode(HexToBytes(h))[2 * i..2 * i + 2] == h[2 * i..2 * i + 2]
  {
    var pair := h[2 * i..2 * i + 2];
    assert pair[0] == h[2 * i] && pair[1] == h[2 * i + 1];
    PairHexByte(pair);
    HexEncodeAt(HexToBytes(h), i);
  }

  /** Encoding the bytes of even-length lower-case hex text gives back the text. */
  lemma EncodeDecode(h: string)
    requires IsLowerHex(h) && |h| % 2 == 0
    ensures HexEncode(HexToBytes(h)) == h
  {
    var e := HexEncode(HexToBytes(h));
    forall k | 0 <= k < |h| ensures e[k] == h[k] {
      EncodeDecodeAt(h, k);
    }
  }

  /** Character `k` of lower-case hex text is printed again when its byte is re-encoded. */
  lemma EncodeDecodeAt(h: string, k: nat)
    requires IsLowerHex(h) && |h| % 2 == 0 && k < |h|
    ensures HexEncode(HexToBytes(h))[k] == h[k]
  {
    var e := HexEncode(HexToBytes(h));
    var i := k / 2;
    ReencodeAt(h, i);
    assert e[2 * i..2 * i + 2][k - 2 * i] == e[k];
    assert h[2 * i..2 * i + 2][k - 2 * i] == h[k];
  }

  /** A lower-case pair is what its byte prints as. */
  lemma PairHexByte(pair: string)
    requires |pair| == 2 && IsLowerHex(pair)
    ensures HexByte(PairByte(pair)) == pair
  {
    PairOfDigits(pair);
    var hi, lo := HexDigitValue(pair[0]), HexDigitValue(pair[1]);
    var b := PairByte(pair);
    HexByteOfDigits(b, hi, lo);
    LowerDigitOf(pair[0]);
    LowerDigitOf(pair[1]);
  }

  /** The byte with high digit `hi` and low digit `lo` prints as those two digits. */
  lemma HexByteOfDigits(b: byte, hi: nat, lo: nat)
    requires hi < 16 && lo < 16 && b == hi * 16 + lo
    ensures HexByte(b) == [LowerHexDigit(hi), LowerHexDigit(lo)]
  {
    assert b / 16 == hi && b % 16 == lo;
  }

  /** Each lower-case hex digit is the digit its value prints as. */
  lemma LowerDigitOf(c: char)
    requires '0' <= c <= '9' || 'a' <= c <= 'f'
    ensures LowerHexDigit(HexDigitValue(c)) == c
  {
  }

  /** The decoder ignores a trailing odd character. */
  lemma OddCharDropped(h: string, c: char)
    requires |h| % 2 == 0
    ensures HexToBytes(h + [c]) == HexToBytes(h)
  {
    var a, b := HexToBytes(h + [c]), HexToBytes(h);
    forall i | 0 <= i < |a| ensures a[i] == b[i] {
      assert (h + [c])[2 * i..2 * i + 2] == h[2 * i..2 * i + 2];
    }
  }

  /** Printing one more byte appends its two digits. */
  lemma {:induction false} HexEncodeSnoc(bs: seq<byte>, b: byte)
    ensures HexEncode(bs + [b]) == HexEncode(bs) + HexByte(b)
    decreases |bs|
  {
    if |bs| > 0 {
      assert (bs + [b])[1..] == bs[1..] + [b];
      HexEncodeSnoc(bs[1..], b);
    }
  }

  /** Printing two byte strings one after the other prints their concatenation. */
  lemma {:induction false} HexEncodeAppend(a: seq<byte>, b: seq<byte>)
    ensures HexEncode(a + b) == HexEncode(a) + HexEncode(b)
    decreases |b|
  {
    if |b| == 0 {
      assert a + b == a;
    } else {
      var init, last := b[..|b| - 1], b[|b| - 1];
      assert b == init + [last];
      assert a + b == (a + init) + [last];
      HexEncodeAppend(a, init);
      HexEncodeSnoc(a + init, last);
      HexEncodeSnoc(init, last);
    }
  }

  /** One more digit at the end multiplies the value by 16 and adds the digit. */
  lemma HexValueSnoc(ds: string, c: char)
    requires forall i :: 0 <= i < |ds| ==> IsHexDigit(ds[i])
    requires IsHexDigit(c)
    ensures HexValue(ds + [c]) == HexValue(ds) * 16 + HexDigitValue(c)
  {
    assert (ds + [c])[..|ds|] == ds;
  }

  // ---------------------------------------------------------------------------
  // Reading an element back from its hex text.

  /** Why `stringToElement` / `stringToElementG1` throw. */
  datatype ConvertError = EmptyHex | FromBytesFailed

  /**
   * `stringToElement` of the prover and `stringToElementG1` of the verifier:
   * decode the text, refuse an empty byte string, then hand the bytes to the
   * group library, which reports how many bytes it consumed (0 on failure)
   * together with the element it built.
   */
  function StringToElement<E>(str: string, fromBytes: seq<byte> -> (nat, E)): (r: Result<E, ConvertError>)
    ensures r == Failure(EmptyHex) <==> |str| < 2
    ensures r == Failure(FromBytesFailed) <==> |str| >= 2 && fromBytes(HexToBytes(str)).0 == 0
    ensures r.Success? ==> r.value == fromBytes(HexToBytes(str)).1
  {
    var bytes := HexToBytes(str);
    if |bytes| == 0 then Failure(EmptyHex)
    else
      var (read, e) := fromBytes(bytes);
      if read == 0 then Failure(FromBytesFailed) else Success(e)
  }

  /** The text an element was printed as converts back to the element the library builds from its bytes. */
  lemma ElementRoundTrip<E>(bs: seq<byte>, fromBytes: seq<byte> -> (nat, E))
    requires |bs| > 0 && fromBytes(bs).0 > 0
    ensures StringToElement(HexEncode(bs), fromBytes) == Success(fromBytes(bs).1)
  {
    DecodeEncode(bs);
  }
}
