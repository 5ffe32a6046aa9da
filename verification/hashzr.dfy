/**
 * Hashing into Zr: `sha512Hex` prints the 64-byte SHA-512 digest as hex,
 * `mpz_set_str(.., 16)` reads that text as a big-endian number and
 * `mpz_mod` reduces it modulo the group order; `hashVectorToZr` first writes
 * its strings one after another into a string stream. SHA-512 itself is a
 * parameter: only its output length matters here.
 */
module HashZr {
  import opened Outcome
  import opened CType
  import opened Fields
  import opened Hex

  /** `SHA512_DIGEST_LENGTH`. */
  const DigestLength: nat := 64

  /** A SHA-512 digest: always 64 bytes (section 6.4 of FIPS 180-4). */
  type Digest = d: seq<byte> | |d| == DigestLength witness seq(64, _ => 0)

  /** `sha512Hex`: the digest of the text, printed two lower-case digits per byte. */
  function Sha512Hex(sha: string -> Digest, input: string): (s: string)
    ensures |s| == 2 * DigestLength && IsLowerHex(s)
    ensures HexToBytes(s) == sha(input)
  {
    DecodeEncode(sha(input));
    HexEncode(sha(input))
  }

  /** The number whose big-endian base-256 digits are `bs`. */
  function BytesToNat(bs: seq<byte>): nat
    decreases |bs|
  {
    if |bs| == 0 then 0 else BytesToNat(bs[..|bs| - 1]) * 256 + bs[|bs| - 1]
  }

  /** `s` with its white space removed: GMP ignores white space among the digits. */
  function DropSpace(s: string): (r: string)
    ensures forall i :: 0 <= i < |r| ==> !IsCSpace(r[i])
    ensures |r| <= |s|
    decreases |s|
  {
    if |s| == 0 then ""
    else if IsCSpace(s[0]) then DropSpace(s[1..])
    else [s[0]] + DropSpace(s[1..])
  }

  /** Every character is a hex digit of either case. */
  predicate AllHex(s: string) {
    forall i :: 0 <= i < |s| ==> IsHexDigit(s[i])
  }

  /**
   * `mpz_set_str(num, s, 16)`: leading white space and an optional '-', then
   * a hex digit of either case must come first; after it, further hex digits
   * with white space ignored among them. Anything else makes GMP return -1,
   * modelled as `None`.
   */
  function MpzSetStr16(s: string): (r: Option<int>)
    ensures r.Some? <==> (var t := SpanCSpace(s).1;
                          var u := if |t| > 0 && t[0] == '-' then t[1..] else t;
                          |u| > 0 && IsHexDigit(u[0]) && AllHex(DropSpace(u)))
  {
    var t := SpanCSpace(s).1;
    var neg := |t| > 0 && t[0] == '-';
    var u := if neg then t[1..] else t;
    var ds := DropSpace(u);
    if |u| == 0 || !IsHexDigit(u[0]) || !AllHex(ds) then None
    else
      var m: int := HexValue(ds);
      Some(if neg then -m else m)
  }

  /** White space between the sign and the first digit is rejected, as is a sign alone. */
  lemma SignNeedsDigit(c: char, rest: string)
    requires IsCSpace(c)
    ensures MpzSetStr16("-" + [c] + rest) == None
    ensures MpzSetStr16("-") == None
  {
    assert SpanCSpace("-" + [c] + rest).1 == "-" + [c] + rest;
    assert ("-" + [c] + rest)[1..] == [c] + rest;
    assert SpanCSpace("-").1 == "-";
  }

  /** White space after a leading digit is skipped: it does not change what GMP reads. */
  lemma SpaceAmongDigits(d: char, c: char, rest: string)
    requires IsHexDigit(d) && IsCSpace(c)
    ensures MpzSetStr16([d, c] + rest) == MpzSetStr16([d] + rest)
  {
    var x, y := [d, c] + rest, [d] + rest;
    assert SpanCSpace(x).1 == x;
    assert SpanCSpace(y).1 == y;
    assert x[1..] == [c] + rest && ([c] + rest)[1..] == rest && y[1..] == rest;
    assert DropSpace(x) == [d] + DropSpace(rest);
    assert DropSpace(y) == [d] + DropSpace(rest);
  }

  /** Lower-case hex text has no white space to drop. */
  lemma {:induction false} DropSpaceOfHex(s: string)
    requires IsLowerHex(s)
    ensures DropSpace(s) == s
    decreases |s|
  {
    if |s| > 0 {
      assert IsLowerHex(s[1..]) by {
        forall i | 0 <= i < |s[1..]| ensures '0' <= s[1..][i] <= '9' || 'a' <= s[1..][i] <= 'f' {
          assert s[1..][i] == s[i + 1];
        }
      }
      DropSpaceOfHex(s[1..]);
      assert s == [s[0]] + s[1..];
    }
  }

  /** The printed digits of a byte string spell its big-endian value. */
  lemma {:induction false} HexValueOfEncode(bs: seq<byte>)
    ensures HexValue(HexEncode(bs)) == BytesToNat(bs)
    decreases |bs|
  {
    if |bs| > 0 {
      var init, b := bs[..|bs| - 1], bs[|bs| - 1];
      assert bs == init + [b];
      HexEncodeSnoc(init, b);
      var x, pair := HexEncode(init), HexByte(b);
      HexValueOfEncode(init);
      assert x + pair == (x + [pair[0]]) + [pair[1]];
      HexValueSnoc(x, pair[0]);
      HexValueSnoc(x + [pair[0]], pair[1]);
    }
  }

  /** GMP reads the printed digits of a non-empty byte string as its big-endian value. */
  lemma ParseEncoded(bs: seq<byte>)
    requires |bs| > 0
    ensures MpzSetStr16(HexEncode(bs)) == Some(BytesToNat(bs))
  {
    LowerHexAccepted(HexEncode(bs));
    HexValueOfEncode(bs);
  }

  /** GMP reads non-empty lower-case hex text as its value. */
  lemma LowerHexAccepted(s: string)
    requires |s| > 0 && IsLowerHex(s)
    ensures AllHex(s)
    ensures MpzSetStr16(s) == Some(HexValue(s))
  {
    assert !IsCSpace(s[0]) && s[0] != '-' && IsHexDigit(s[0]);
    assert SpanCSpace(s).1 == s;
    DropSpaceOfHex(s);
  }

  /** `hashStringToZr`: the digest read as a number, reduced modulo the group order `r`. */
  function HashStringToZr(sha: string -> Digest, r: nat, input: string): (z: nat)
    requires r > 0
    ensures z < r
  {
    match MpzSetStr16(Sha512Hex(sha, input))
    case Some(n) => n % r
    case None => 0
  }

  /** The hash always lands on the digest's big-endian value modulo `r`. */
  lemma HashIsDigestModR(sha: string -> Digest, r: nat, input: string)
    requires r > 0
    ensures HashStringToZr(sha, r, input) == BytesToNat(sha(input)) % r
  {
    ParseEncoded(sha(input));
  }

  /** `hashVectorToZr`: write the strings into one stream in order, then hash the result. */
  method HashVectorToZr(sha: string -> Digest, r: nat, data: seq<string>) returns (z: nat)
    requires r > 0
    ensures z == HashStringToZr(sha, r, Concat(data))
    ensures z == BytesToNat(sha(Concat(data))) % r
  {
    var ss := "";
    var i := 0;
    while i < |data|
      invariant 0 <= i <= |data|
      invariant ss == Concat(data[..i])
    {
      ConcatSnoc(data[..i], data[i]);
      assert data[..i + 1] == data[..i] + [data[i]];
      ss := ss + data[i];
      i := i + 1;
    }
    assert data[..i] == data;
    z := HashStringToZr(sha, r, ss);
    HashIsDigestModR(sha, r, ss);
  }
}
