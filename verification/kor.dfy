/**
 * The knowledge-of-representation proof: the prover's challenge, responses
 * and proof string, and the verifier's decision. Group elements appear only
 * through their serialised bytes; the group and pairing operations that
 * produce com', k' (prover) and com'', k'' (verifier) are inputs, as are the
 * random exponents r1, r2, r3 and SHA-512.
 */
module Kor {
  import opened Outcome
  import opened Arith
  import opened Fields
  import opened Hex
  import opened HashZr

  /** Each serialised element printed as hex, one after the other. */
  function EncodeAll(parts: seq<seq<byte>>): (r: seq<string>)
    ensures |r| == |parts|
    ensures forall i :: 0 <= i < |parts| ==> r[i] == HexEncode(parts[i])
  {
    seq(|parts|, i requires 0 <= i < |parts| => HexEncode(parts[i]))
  }

  /** The byte strings one after the other. */
  function Flatten(parts: seq<seq<byte>>): seq<byte>
    decreases |parts|
  {
    if |parts| == 0 then [] else parts[0] + Flatten(parts[1..])
  }

  /** Printing the pieces one after another prints the concatenated bytes. */
  lemma {:induction false} ConcatEncodeAll(parts: seq<seq<byte>>)
    ensures Concat(EncodeAll(parts)) == HexEncode(Flatten(parts))
    decreases |parts|
  {
    if |parts| > 0 {
      assert EncodeAll(parts)[1..] == EncodeAll(parts[1..]);
      ConcatEncodeAll(parts[1..]);
      HexEncodeAppend(parts[0], Flatten(parts[1..]));
    }
  }

  /**
   * The text hashed for the challenge: the hex of g1, g2, h, com, com', k and
   * k', in this order. The verifier builds the same text from com'' and k''.
   */
  function ChallengeInput(g1: seq<byte>, g2: seq<byte>, h: seq<byte>, com: seq<byte>,
                          comPrime: seq<byte>, k: seq<byte>, kPrime: seq<byte>): (s: string)
    ensures HexToBytes(s) == g1 + g2 + h + com + comPrime + k + kPrime
  {
    var parts := [g1, g2, h, com, comPrime, k, kPrime];
    ChallengeBytes(parts);
    Concat(EncodeAll(parts))
  }

  /** The seven pieces read back in order. */
  lemma ChallengeBytes(parts: seq<seq<byte>>)
    requires |parts| == 7
    ensures HexToBytes(Concat(EncodeAll(parts)))
            == parts[0] + parts[1] + parts[2] + parts[3] + parts[4] + parts[5] + parts[6]
  {
    ConcatEncodeAll(parts);
    DecodeEncode(Flatten(parts));
    FlattenSeven(parts);
  }

  /** Flattening seven pieces. */
  lemma FlattenSeven(parts: seq<seq<byte>>)
    requires |parts| == 7
    ensures Flatten(parts) == parts[0] + parts[1] + parts[2] + parts[3] + parts[4] + parts[5] + parts[6]
  {
    var q: seq<seq<byte>> := parts;
    assert Flatten(q[6..]) == q[6] by {
      assert |q[6..][1..]| == 0;
    }
    assert Flatten(q[5..]) == q[5] + q[6] by {
      assert q[5..][1..] == q[6..];
    }
    assert Flatten(q[4..]) == q[4] + (q[5] + q[6]) by {
      assert q[4..][1..] == q[5..];
    }
    assert Flatten(q[3..]) == q[3] + (q[4] + (q[5] + q[6])) by {
      assert q[3..][1..] == q[4..];
    }
    assert Flatten(q[2..]) == q[2] + (q[3] + (q[4] + (q[5] + q[6]))) by {
      assert q[2..][1..] == q[3..];
    }
    assert Flatten(q[1..]) == q[1] + (q[2] + (q[3] + (q[4] + (q[5] + q[6])))) by {
      assert q[1..][1..] == q[2..];
    }
  }

  /** Why the prover throws. */
  datatype KorError = HashParseFailed

  /**
   * Step 4 of the prover: hash the challenge text, print the digest as hex,
   * read it back with GMP (a failure throws) and reduce modulo the prime
   * order `p`.
   */
  function Challenge(sha: string -> Digest, p: nat, input: string): (r: Result<nat, KorError>)
    requires p > 0
    ensures r.Failure? <==> MpzSetStr16(Sha512Hex(sha, input)).None?
    ensures r.Success? ==> r.value < p
  {
    match MpzSetStr16(Sha512Hex(sha, input))
    case None => Failure(HashParseFailed)
    case Some(n) => Success(n % p)
  }

  /** The printed digest always parses, so the challenge is the digest's value modulo `p`. */
  lemma ChallengeValue(sha: string -> Digest, p: nat, input: string)
    requires p > 0
    ensures Challenge(sha, p, input) == Success(BytesToNat(sha(input)) % p)
  {
    ParseEncoded(sha(input));
  }

  /**
   * Steps 5-7: the response `ri - c * x` in Zr. Adding `c * x` back opens it
   * to the random exponent `ri`, which is what lets the verifier rebuild the
   * prover's commitments.
   */
  function Response(ri: nat, c: nat, x: nat, p: nat): (s: nat)
    requires p > 0
    ensures s < p
    ensures (s + c * x) % p == ri % p
  {
    var d := ri - c * x;
    ModAddMultiple(ri, -(d / p), p);
    assert d % p + c * x == ri + (-(d / p)) * p by {
      assert d == (d / p) * p + d % p;
    }
    d % p
  }

  /** The proof `(c, s1, s2, s3)` and its printed form. */
  datatype KoRProof = KoRProof(c: nat, s1: nat, s2: nat, s3: nat, proofString: string)

  /** Lower-case hex contains no space. */
  lemma NoSpaceInHex(s: string)
    requires IsLowerHex(s)
    ensures ' ' !in s
  {
    forall i | 0 <= i < |s| ensures s[i] != ' ' {
    }
  }

  /**
   * Step 8: the four Zr elements printed as hex and separated by single
   * spaces. `zrBytes` is the group library's serialisation of a Zr element.
   */
  function ProofString(zrBytes: nat -> seq<byte>, c: nat, s1: nat, s2: nat, s3: nat): (s: string)
    ensures Split(s, " ") == [HexEncode(zrBytes(c)), HexEncode(zrBytes(s1)),
                              HexEncode(zrBytes(s2)), HexEncode(zrBytes(s3))]
  {
    var cells := [HexEncode(zrBytes(c)), HexEncode(zrBytes(s1)),
                  HexEncode(zrBytes(s2)), HexEncode(zrBytes(s3))];
    forall i | 0 <= i < |cells| ensures ' ' !in cells[i] {
      NoSpaceInHex(cells[i]);
    }
    assert Separable(cells, " ", 0);
    SplitJoin(cells, " ", 0);
    Join(cells, " ")
  }

  /** Every field of the proof string reads back as the bytes of its element. */
  lemma ProofStringFields(zrBytes: nat -> seq<byte>, c: nat, s1: nat, s2: nat, s3: nat)
    ensures var f := Split(ProofString(zrBytes, c, s1, s2, s3), " ");
            |f| == 4 && HexToBytes(f[0]) == zrBytes(c) && HexToBytes(f[1]) == zrBytes(s1)
            && HexToBytes(f[2]) == zrBytes(s2) && HexToBytes(f[3]) == zrBytes(s3)
  {
    DecodeEncode(zrBytes(c));
    DecodeEncode(zrBytes(s1));
    DecodeEncode(zrBytes(s2));
    DecodeEncode(zrBytes(s3));
  }

  /**
   * Steps 5-8 of `generateKoRProof` once the challenge `c` is known: the
   * three responses for the secrets `r`, `did` and `o` (the latter two enter
   * Zr reduced mod p) and the printed proof.
   */
  function ProofFor(p: nat, zrBytes: nat -> seq<byte>, c: nat,
                    r: nat, did: nat, o: nat, r1: nat, r2: nat, r3: nat): (proof: KoRProof)
    requires p > 0
    ensures proof.c == c
    ensures proof.s1 < p && proof.s2 < p && proof.s3 < p
    ensures (proof.s1 + c * r) % p == r1 % p
    ensures (proof.s2 + c * (did % p)) % p == r2 % p
    ensures (proof.s3 + c * (o % p)) % p == r3 % p
    ensures Split(proof.proofString, " ")
            == [HexEncode(zrBytes(c)), HexEncode(zrBytes(proof.s1)),
                HexEncode(zrBytes(proof.s2)), HexEncode(zrBytes(proof.s3))]
  {
    var s1 := Response(r1, c, r, p);
    var s2 := Response(r2, c, did % p, p);
    var s3 := Response(r3, c, o % p, p);
    KoRProof(c, s1, s2, s3, ProofString(zrBytes, c, s1, s2, s3))
  }

  /**
   * `generateKoRProof` on the Zr side. `comPrime` and `kPrime` are the
   * serialised commitments the group library builds from r1, r2, r3; the
   * prover throws only if GMP rejects the printed digest.
   */
  function GenerateKoRProof(sha: string -> Digest, p: nat, zrBytes: nat -> seq<byte>,
                            g1: seq<byte>, g2: seq<byte>, h: seq<byte>, com: seq<byte>,
                            comPrime: seq<byte>, k: seq<byte>, kPrime: seq<byte>,
                            r: nat, did: nat, o: nat, r1: nat, r2: nat, r3: nat): (res: Result<KoRProof, KorError>)
    requires p > 0
    ensures res.Failure? <==> Challenge(sha, p, ChallengeInput(g1, g2, h, com, comPrime, k, kPrime)).Failure?
    ensures res.Success? ==>
              res.value == ProofFor(p, zrBytes, Challenge(sha, p, ChallengeInput(g1, g2, h, com, comPrime, k, kPrime)).value,
                                    r, did, o, r1, r2, r3)
  {
    match Challenge(sha, p, ChallengeInput(g1, g2, h, com, comPrime, k, kPrime))
    case Failure(e) => Failure(e)
    case Success(c) => Success(ProofFor(p, zrBytes, c, r, did, o, r1, r2, r3))
  }

  /** The prover never throws: its challenge is the digest of the seven pieces modulo `p`. */
  lemma ProverSucceeds(sha: string -> Digest, p: nat, zrBytes: nat -> seq<byte>,
                       g1: seq<byte>, g2: seq<byte>, h: seq<byte>, com: seq<byte>,
                       comPrime: seq<byte>, k: seq<byte>, kPrime: seq<byte>,
                       r: nat, did: nat, o: nat, r1: nat, r2: nat, r3: nat)
    requires p > 0
    ensures var res := GenerateKoRProof(sha, p, zrBytes, g1, g2, h, com, comPrime, k, kPrime, r, did, o, r1, r2, r3);
            res.Success? && res.value.c == BytesToNat(sha(ChallengeInput(g1, g2, h, com, comPrime, k, kPrime))) % p
  {
    ChallengeValue(sha, p, ChallengeInput(g1, g2, h, com, comPrime, k, kPrime));
  }

  /** `one_minus_c`: `1 - c` in Zr, the element that adds up with `c` to 1. */
  function OneMinus(c: nat, p: nat): (v: nat)
    requires p > 0
    ensures v < p
    ensures (v + c) % p == 1 % p
  {
    var d := 1 - c;
    assert d % p + c == 1 + (-(d / p)) * p by {
      assert d == (d / p) * p + d % p;
    }
    ModAddMultiple(1, -(d / p), p);
    d % p
  }

  /**
   * `checkKoRVerify` on the Zr side: read `com` from its hex text (which
   * throws on empty text or a rejected byte string), hash g1, g2, h, com,
   * com'', k, k'' in the prover's order, and accept iff the digest reduced
   * modulo `p` equals `c`; a digest GMP cannot read gives `false`. `c` is a
   * Zr element (`element_cmp` compares elements), so it is compared as its
   * residue modulo `p`.
   */
  function CheckKoRVerify<E>(sha: string -> Digest, p: nat,
                             fromBytes: seq<byte> -> (nat, E), toBytes: E -> seq<byte>,
                             g1: seq<byte>, g2: seq<byte>, h: seq<byte>, comStr: string,
                             comPP: seq<byte>, k: seq<byte>, kPP: seq<byte>, c: nat): (res: Result<bool, ConvertError>)
    requires p > 0
    ensures res.Failure? <==> StringToElement(comStr, fromBytes).Failure?
    ensures res.Failure? ==> res.error == StringToElement(comStr, fromBytes).error
  {
    match StringToElement(comStr, fromBytes)
    case Failure(e) => Failure(e)
    case Success(com) =>
      var input := ChallengeInput(g1, g2, h, toBytes(com), comPP, k, kPP);
      match MpzSetStr16(Sha512Hex(sha, input))
      case None => Success(false)
      case Some(n) => Success(n % p == c % p)
  }

  /**
   * Once `com` is read, the verifier accepts exactly when the digest of g1,
   * g2, h, com, com'', k, k'' reduced modulo `p` is the proof's `c` in Zr.
   */
  lemma VerifyDecision<E>(sha: string -> Digest, p: nat,
                          fromBytes: seq<byte> -> (nat, E), toBytes: E -> seq<byte>,
                          g1: seq<byte>, g2: seq<byte>, h: seq<byte>, comStr: string,
                          comPP: seq<byte>, k: seq<byte>, kPP: seq<byte>, c: nat)
    requires p > 0 && StringToElement(comStr, fromBytes).Success?
    ensures var com := StringToElement(comStr, fromBytes).value;
            CheckKoRVerify(sha, p, fromBytes, toBytes, g1, g2, h, comStr, comPP, k, kPP, c)
            == Success(BytesToNat(sha(ChallengeInput(g1, g2, h, toBytes(com), comPP, k, kPP))) % p == c % p)
  {
    var com := StringToElement(comStr, fromBytes).value;
    ParseEncoded(sha(ChallengeInput(g1, g2, h, toBytes(com), comPP, k, kPP)));
  }

  /**
   * The verifier's side of an honest run: when com's text is its
   * serialisation, the library reads it back to an element that serialises
   * the same way, and com'' and k'' equal the prover's com' and k', the
   * verifier accepts the challenge the prover computed.
   */
  lemma HonestChallengeAccepted<E>(sha: string -> Digest, p: nat,
                                   fromBytes: seq<byte> -> (nat, E), toBytes: E -> seq<byte>,
                                   g1: seq<byte>, g2: seq<byte>, h: seq<byte>, com: seq<byte>,
                                   comPrime: seq<byte>, k: seq<byte>, kPrime: seq<byte>)
    requires p > 0
    requires |com| > 0 && fromBytes(com).0 > 0 && toBytes(fromBytes(com).1) == com
    ensures CheckKoRVerify(sha, p, fromBytes, toBytes, g1, g2, h, HexEncode(com), comPrime, k, kPrime,
                           BytesToNat(sha(ChallengeInput(g1, g2, h, com, comPrime, k, kPrime))) % p)
            == Success(true)
  {
    var c := BytesToNat(sha(ChallengeInput(g1, g2, h, com, comPrime, k, kPrime))) % p;
    ModSmall(c, p);
    ElementRoundTrip(com, fromBytes);
    VerifyDecision(sha, p, fromBytes, toBytes, g1, g2, h, HexEncode(com), comPrime, k, kPrime, c);
  }

  /**
   * An honest proof passes: the proof the prover prints for com, com', k'
   * is accepted by a verifier whose com'' and k'' equal com' and k' (the
   * group identity behind the scheme, taken as given here).
   */
  lemma HonestProofAccepted<E>(sha: string -> Digest, p: nat, zrBytes: nat -> seq<byte>,
                               fromBytes: seq<byte> -> (nat, E), toBytes: E -> seq<byte>,
                               g1: seq<byte>, g2: seq<byte>, h: seq<byte>, com: seq<byte>,
                               comPrime: seq<byte>, k: seq<byte>, kPrime: seq<byte>,
                               r: nat, did: nat, o: nat, r1: nat, r2: nat, r3: nat)
    requires p > 0
    requires |com| > 0 && fromBytes(com).0 > 0 && toBytes(fromBytes(com).1) == com
    ensures var res := GenerateKoRProof(sha, p, zrBytes, g1, g2, h, com, comPrime, k, kPrime,
                                        r, did, o, r1, r2, r3);
            res.Success? &&
            CheckKoRVerify(sha, p, fromBytes, toBytes, g1, g2, h, HexEncode(com),
                           comPrime, k, kPrime, res.value.c) == Success(true)
  {
    ProverSucceeds(sha, p, zrBytes, g1, g2, h, com, comPrime, k, kPrime, r, did, o, r1, r2, r3);
    HonestChallengeAccepted(sha, p, fromBytes, toBytes, g1, g2, h, com, comPrime, k, kPrime);
  }
}
