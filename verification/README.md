# Threshold e-voting prototype: log pipeline, KoR proof and key generation

This project models three parts of the threshold blind-signature e-voting
prototype:

- **The thread log and its reader.**
  - `logThreadUsage` in `v1.cpp` and `v9.cpp` appends one line to threads.txt per call: `[<ms> ms] <phase>: <msg>`.
  - The signing loops log "sign task started/finished" for every voter/admin pair. The prepare stage logs "prepareBlindSign finished".
  - `parse_threads.py` reads threads.txt back. It searches each line for `BlindSign: Voter\s+(\d+)\s*-\s*Admin\s+(\d+)\s*sign task started`, collects the admins per voter in a `defaultdict(set)` and prints a `" | "`-separated table.
  - Also modelled: the `params.txt` reader (`std::stoi` included) and the admin assignment of both signing programs. v1 builds a flat task list from one shuffle per voter. v9 uses `allAdmins[j % ne]`.
- **The knowledge-of-representation (KoR) proof on the Zr side.**
  - The hex codec (`elementToStringG1/G2`, `elementToHexStr`, `canonicalElementToHex`). `hexToBytes` is modelled with the full `strtol(.., 16)` behaviour on a two-character string, cast to `unsigned char`.
  - `sha512Hex`, and `hashStringToZr` / `hashVectorToZr`, with GMP's `mpz_set_str(.., 16)`.
  - The challenge of `generateKoRProof`: the seven serialised elements in their fixed order, hashed, reduced mod the prime order.
  - The responses `s_i = r_i - c * x_i` and the printed proof string.
  - The verifier's decision in `checkKoRVerify`.
- **Pedersen key generation without complaints.**
  - `evaluatePoly`, the commitment-check exponents `L^j` (both as Zr elements and as a C `long`), the master signing key and every authority's shares.
  - Variants: `keygen.cpp` and `dkg.cpp` use t+1 coefficients, `main.cpp` uses t, and `minimal_dkg.cpp` uses two authorities with degree-1 polynomials.

How the model is built:

- Group elements enter the model as their serialised bytes.
- SHA-512 is a function parameter returning a 64-byte digest. `element_to_bytes` and `element_from_bytes` are parameters too.
- Random coefficients and shuffles are inputs.
- Zr arithmetic is integer arithmetic reduced modulo the group order `r`.

Modules:

| module | file | what it models |
|---|---|---|
| `Outcome` | outcome.dfy | `Option` / `Result` |
| `Decimal` | decimal.dfy | decimal digits, `str(int)` / `std::to_string` |
| `CType` | ctype.dfy | C `isspace`, `isxdigit` |
| `Fields` | fields.dfy | `" ".join` / `str.split`-style separators |
| `Pattern` | pattern.dfy | the regular expression of parse_threads.py |
| `Approvals` | approvals.dfy | the `approvals` index |
| `Report` | report.dfy | the printed table |
| `Logging` | logline.dfy | `logThreadUsage` and the logged messages |
| `RoundTrip` | roundtrip.dfy | the logger composed with the reader |
| `Params` | params.dfy | the params.txt loop and `std::stoi` |
| `Assignment` | assignment.dfy | the sign tasks of v1 and v9 |
| `Hex` | hex.dfy | the hex codec |
| `HashZr` | hashzr.dfy | the hash into Zr |
| `Kor` | kor.dfy | KoR prover and verifier |
| `Arith` | arith.dfy | modular arithmetic facts |
| `Poly` | poly.dfy | polynomial evaluation |
| `Dkg` | dkg.dfy | key generation |

## Model

| member | source | states |
|---|---|---|
| Pattern.SpanSpace | parse_threads.py:12 | `\s+`/`\s*` take the longest run of white space: the run is all space and what follows does not start with space |
| Pattern.ScanSound | parse_threads.py:12 | whatever the deterministic scan accepts at a position is spelled by well-formed pattern pieces that are a prefix of the text there |
| Pattern.ScanComplete | parse_threads.py:12 | any text that starts with a well-formed spelling of the pattern is accepted by the scan, with exactly those pieces |
| Pattern.MatchAtIffPattern | parse_threads.py:12 | a match at position i with voter/admin numbers (v, a) exists iff the text at i spells the pattern with those digit runs |
| Pattern.FindFrom | parse_threads.py:15 | `pattern.search` scans left to right: the position returned matches and no earlier position does |
| Pattern.SearchIsLeftmost | parse_threads.py:15-18 | `search` returns (v, a) iff the pattern occurs with those groups at some position and at no earlier position |
| Pattern.RecognisedIffOccurs | parse_threads.py:15-16 | a line is recognised iff the pattern occurs somewhere in it |
| Decimal.DigitsValueOfNatToString | parse_threads.py:17-18 | `int()` of the printed digits of n is n |
| Decimal.NatToStringInjective | parse_threads.py:35 | distinct ids print as distinct cells |
| Approvals.Step | parse_threads.py:14-19 | one line adds admin a to voter v's set when it matches (v, a) and changes nothing else; a non-matching line leaves the index unchanged |
| Approvals.LookupStep | parse_threads.py:19 | after one line, a is in v's set iff it was before or the line matched (v, a) |
| Approvals.BuildIndex | parse_threads.py:9-19 | every voter key of the index holds a non-empty set |
| Approvals.BuildIndexMeaning | parse_threads.py:9-19 | a is in `approvals[v]` iff some line matched (v, a); v is a key iff some line matched with voter v |
| Approvals.IndexExtensional | parse_threads.py:9 | two indexes without empty sets that agree on every lookup are equal |
| Approvals.SameLinesSameIndex | parse_threads.py:14-19 | the index depends only on which lines occur, not on their order or repetition |
| Approvals.BuildIndexIdempotent | parse_threads.py:14-19 | reading the log twice gives the same index as reading it once |
| Report.SetMax | parse_threads.py:22-23 | `max` of a non-empty set is a member bounding all members |
| Report.MaxVoter | parse_threads.py:22 | `max_voter` is a voter key that bounds every voter key |
| Report.MaxAdmin | parse_threads.py:23 | `max_admin` bounds every recorded admin id and is itself recorded for some voter |
| Report.Report | parse_threads.py:22-41 | the script fails (ValueError from `max`) iff the index is empty; otherwise it prints max_voter + 1 lines |
| Report.ReportFailsIffNoMatch | parse_threads.py:14-22 | the script fails iff no line of the log matches the pattern |
| Report.ReportRows | parse_threads.py:22-33 | the table has one row per voter id from 1 to the largest voter id any line matched; that id was matched, and every matched voter id fits in the table |
| Report.ReportHeader | parse_threads.py:23-30 | the header, split at the column separator, is "Voter" then "Admin a" for a = 1..max_admin, where max_admin was matched and bounds every matched admin id |
| Report.ReportCell | parse_threads.py:33-41 | row v has as many cells as the header, starts with v, and holds "Yes" in column a iff some line matched (v, a), "-" otherwise |
| Fields.SplitJoin | parse_threads.py:30 | joining cells that contain no separator character and splitting again gives the cells back |
| Logging.LogLine | v1.cpp:30-35 | every log line ends with a newline |
| Logging.LogLineIsLine | v1.cpp:30-35 | a log line whose phase and message have no newline is exactly one line |
| Logging.RenderIsLine | v1.cpp:236-315 | every prepare, started and finished message is logged as exactly one line |
| Logging.ReadLines | parse_threads.py:5-6 | `readlines` splits the file into pieces that concatenate back to it, each ending at its only newline (the last may lack one) |
| Logging.ReadLinesOfLog | parse_threads.py:5-6 | reading back a file written as single lines gives those lines |
| RoundTrip.StartLineRecognised | v1.cpp:290-295 | a "sign task started" line for 0-based voter vId and admin aId is recognised as (vId+1, aId+1) |
| RoundTrip.FinishLineIgnored | v1.cpp:310-315 | a "sign task finished" line matches nothing |
| RoundTrip.PipelineLineIgnored | v1.cpp:236-240 | a "prepareBlindSign finished" line matches nothing |
| RoundTrip.SearchRender | v1.cpp:290-315 | for every logged event, the reader recognises it iff it is a start, and then with the 1-based ids |
| RoundTrip.ReadLog | v1.cpp:30-35 | reading back the whole log gives the rendered events in order |
| RoundTrip.LogIndexMeaning | parse_threads.py:14-19 | after the log round trip, a is in `approvals[v]` iff some admin a-1 started a sign task for voter v-1 |
| Params.Stoi | v1.cpp:71-75 | `std::stoi` only ever returns a value within the range of a 32-bit `int` |
| Params.StoiSkipsSpace | v1.cpp:71-75 | leading white space does not change the value `stoi` reads |
| Params.StoiRoundTrip | v1.cpp:71-75 | `stoi` of `to_string(i)` followed by non-digits is i, for every 32-bit i |
| Params.StoiOutOfRange | v1.cpp:71-75 | the printed form of an integer outside `int` throws `out_of_range` |
| Params.StoiNoDigits | v1.cpp:71-75 | a text with no digit throws `invalid_argument` |
| Params.KeyOf | v1.cpp:70-75 | a line is keyed iff it starts with "ea=", "threshold=" or "votercount=" |
| Params.Put | v1.cpp:70-75 | setting one parameter changes that parameter and no other |
| Params.LastSetter | v1.cpp:69-76 | the last line that sets a key: it sets the key, and no later line does |
| Params.FirstBad | v1.cpp:69-76 | the first keyed line whose number `stoi` rejects; every keyed line before it is accepted |
| Params.ReadParamsMeaning | v9.cpp:73-89 | a missing file is an error. Otherwise the read fails with the first rejected line's exception. If nothing is rejected, each key holds the value on the last line setting it, or 0 |
| Assignment.BuildTasks | v1.cpp:246-277 | the task loop produces, in order, t tasks per voter with the first t admins of that voter's shuffle |
| Assignment.ScheduleLength | v1.cpp:263-277 | there are voterCount * t tasks |
| Assignment.ScheduleAtSlot | v1.cpp:270-276 | task i*t+j is voter i's j-th signature with admin `perm_i[j]` |
| Assignment.TaskAt | v1.cpp:263-277 | task k belongs to voter k / t, slot k % t |
| Assignment.SlotsUnique | v1.cpp:263-277 | no (voter, slot) pair is scheduled twice |
| Assignment.VoterAdminsDistinct | v1.cpp:263-277 | a voter's t tasks go to t distinct admins, each a valid admin index |
| Assignment.ChooseAdmins | v9.cpp:292-298 | signature j of a voter goes to `allAdmins[j % ne]` |
| Assignment.AdminFor | v9.cpp:298 | the chosen admin is a valid admin index |
| Assignment.ChosenDistinct | v9.cpp:292-298 | when t <= ne the chosen admins of one voter are pairwise distinct |
| Assignment.ChosenCyclic | v9.cpp:298 | when t > ne the choice repeats with period ne |
| Hex.LowerHexDigit | common_utils.h:20 | `std::hex` prints a value below 16 as a lower-case digit denoting it |
| Hex.HexByte | common_utils.h:19-21 | each byte prints as two lower-case hex digits, zero-padded, whose value is the byte |
| Hex.HexEncode | kor.cpp:10-25 | the printed text has two lower-case hex digits per byte |
| Hex.HexEncodeAt | kor.cpp:10-25 | characters 2i and 2i+1 of the text print byte i |
| Hex.HexEncodeAppend | checkkorverify.cpp:50-66 | printing concatenated byte strings is concatenating their prints |
| Hex.HexToBytes | kor.cpp:44-55 | `hexToBytes` yields one byte per complete pair of characters |
| Hex.PairOfDigits | kor.cpp:50 | `strtol(.., 16)` of two hex digits is their value |
| Hex.DecodeEncode | checkkorverify.cpp:36-66 | decoding the printed bytes gives the bytes back |
| Hex.EncodeDecode | kor.cpp:44-55 | re-encoding a decoded even-length lower-case hex text gives the text back |
| Hex.OddCharDropped | kor.cpp:48 | a trailing odd character is ignored by `hexToBytes` |
| Hex.StringToElement | kor.cpp:58-82 | the conversion throws on empty bytes iff the text is shorter than 2, and throws on a rejected byte string iff the library reads 0 bytes; otherwise it is the element the library built |
| Hex.ElementRoundTrip | checkkorverify.cpp:71-80 | the printed text of bytes the library accepts converts back to the library's element for those bytes |
| HashZr.Sha512Hex | common_utils.h:33-41 | the printed digest has 128 lower-case hex digits and decodes to the digest |
| HashZr.MpzSetStr16 | checkkorverify.cpp:209 | GMP accepts the text iff, after leading white space and an optional '-', the next character is a hex digit and everything after it, white space dropped, is hex digits |
| HashZr.SignNeedsDigit | checkkorverify.cpp:209 | white space right after the '-' sign, or a sign with nothing after it, makes GMP return -1 |
| HashZr.SpaceAmongDigits | checkkorverify.cpp:209 | white space right after a leading hex digit does not change what GMP reads |
| HashZr.LowerHexAccepted | common_utils.h:48 | GMP reads non-empty lower-case hex text as its value |
| HashZr.ParseEncoded | common_utils.h:48 | GMP reads a printed non-empty byte string as its big-endian value |
| HashZr.HashStringToZr | common_utils.h:44-52 | the hash lies in Zr |
| HashZr.HashIsDigestModR | common_utils.h:44-52 | the hash is the digest's big-endian value modulo r |
| HashZr.HashVectorToZr | common_utils.h:55-60 | hashing a vector of strings is hashing their concatenation |
| Kor.EncodeAll | kor.cpp:195-202 | each piece is printed with the hex codec, in order |
| Kor.ConcatEncodeAll | kor.cpp:195-203 | the hashed text is the print of the concatenated pieces |
| Kor.ChallengeInput | kor.cpp:194-203 | the hashed text decodes to g1, g2, h, com, com', k, k' concatenated in this order |
| Kor.Challenge | kor.cpp:205-224 | the prover throws iff GMP rejects the printed digest; the challenge lies in Zr |
| Kor.ChallengeValue | kor.cpp:205-224 | GMP never rejects it: the challenge is the digest's value modulo the prime order |
| Kor.Response | kor.cpp:228-251 | each response s lies in Zr and s + c*x = r_i in Zr |
| Kor.ProofString | kor.cpp:258-266 | the proof string splits at spaces into exactly the prints of c, s1, s2, s3 |
| Kor.ProofStringFields | kor.cpp:258-266 | each of the four fields decodes to the bytes of its element |
| Kor.ProofFor | kor.cpp:228-266 | the proof carries the challenge and three responses that open to r1, r2, r3 with the secrets r, DID, o, and the printed tuple |
| Kor.GenerateKoRProof | kor.cpp:194-266 | the prover fails iff its challenge fails; otherwise it returns the proof for that challenge |
| Kor.ProverSucceeds | kor.cpp:215-224 | the prover never throws, and its challenge is the digest of the seven pieces modulo p |
| Kor.OneMinus | checkkorverify.cpp:116-122 | `one_minus_c` is the Zr element that adds up with c to 1 |
| Kor.CheckKoRVerify | checkkorverify.cpp:112-114 | the verifier throws iff reading com from its text throws, with the same error |
| Kor.VerifyDecision | checkkorverify.cpp:181-232 | once com is read, the verifier accepts iff the digest of g1, g2, h, com, com'', k, k'' modulo p equals c as an element of Zr (c modulo p) |
| Kor.HonestChallengeAccepted | checkkorverify.cpp:181-257 | with an honest com text, and com'' and k'' equal to the prover's com' and k', the verifier accepts the prover's challenge |
| Kor.HonestProofAccepted | kor.cpp:194-266 | an honest proof passes the verifier |
| Poly.EvaluatePoly | keygen.cpp:35-57 | `evaluatePoly` returns the polynomial's value at X modulo r, accumulated in Zr; 0 for no coefficients |
| Poly.EvaluateLinear | minimal_dkg.cpp:108-125 | `c0 + c1*l` in Zr is the degree-1 polynomial's value at l modulo r |
| Poly.LinearValue | minimal_dkg.cpp:108-125 | a two-coefficient polynomial's value is c0 + c1*x |
| Poly.CommitmentExponents | keygen.cpp:141-150 | the exponents `powL`, multiplied by L in Zr once per step, are L^j modulo r for j = 0..t |
| Poly.IntExponents | dkg.cpp:198-201 | the `long powInt` exponents are L^j exactly, as long as they fit in a `long` |
| Poly.CommitmentCheckHolds | keygen.cpp:139-154 | the exponent of the product of commitments, Σ a_j * L^j in Zr, equals F(L) in Zr, so the check holds for honest coefficients |
| Dkg.MasterSum | keygen.cpp:215-225 | the master signing key is the sum of the constant terms modulo r |
| Dkg.Share | keygen.cpp:227-244 | an authority's share is Σ_l F_l(X) modulo r |
| Dkg.KeyGen | keygen.cpp:109-115 | each authority keeps its constant terms; the master key is the sum of constant terms; share i is Σ_l F_l(i+1), all in Zr |
| Dkg.PolyValueAdd | keygen.cpp:227-244 | evaluating the coefficient-wise sum of two polynomials is adding their values |
| Dkg.SharesOnOnePolynomial | keygen.cpp:215-244 | all shares lie on the summed polynomial, whose constant term is the master key |
| Dkg.ThresholdKeyGen | dkg.cpp:164-297 | with t+1 coefficients per authority, share i is the degree-t sum polynomial at i+1 and the master key is its value at 0 |
| Dkg.MainKeyGen | main.cpp:65-131 | with t coefficients per authority, the same holds for a sum polynomial of t coefficients |
| Dkg.MinimalShare | minimal_dkg.cpp:288-306 | one share of the two-authority variant is Σ_l F_l(X) modulo r |
| Dkg.MinimalKeyGen | minimal_dkg.cpp:150-306 | for two authorities with degree-1 polynomials, 2*share_1 - share_2 recovers the master key in Zr |
| Dkg.MinimalRecovery | minimal_dkg.cpp:280-306 | Lagrange interpolation at 0 from shares at 1 and 2 gives the sum of constant terms modulo r |
| Dkg.Bn256KeyGen | dkg.cpp:12-297 | with the BN-256 order r of dkg.cpp's pairing parameters, the shares at i+1 and the master key at 0 lie on the joint polynomial of degree at most t, modulo that order |
| Dkg.TypeAKeyGen | minimal_dkg.cpp:14-306 | with the "type a" order r, the master key is the sum of constant terms modulo that order and 2*share_1 - share_2 recovers it |

## Left out

- Group and pairing operations are not modelled: G1/G2 exponentiation, `element_mul`, pairings. Neither are the commitments `Vx`, `Vy`, `Vyprime` and `mvk`. The group elements com', k', com'' and k'' enter as their serialised bytes.
- The group identity behind the KoR proof is taken as given. Concretely, that com'' and k'' rebuilt from the responses equal com' and k'.
- SHA-512 is a parameter constrained only to produce 64 bytes.
- `element_to_bytes` and `element_from_bytes` are parameters.
- Randomness is an input: `element_random` coefficients, `std::shuffle` results (any permutation), thread ids and clock readings.
- Concurrency is not modelled: TBB flow graphs, `parallel_for`, the log mutex. The log is taken as a sequence of whole lines, which is what the mutex guarantees.
- Timing output, stdout messages and the remaining pipeline are not modelled: prepare/blind/unblind/aggregate/prove/verify credentials.
- HashZr.MpzSetStr16: GMP reads a C string and stops at the first `'\0'`; the model treats `'\0'` as an ordinary non-digit and rejects such text. The program only passes printed digests, which contain no `'\0'`.
- Decimal.IsDigit: `\d` is restricted to ASCII digits. Python's `\d` also matches other Unicode decimal digits, which the logger never writes.
- Logging.ReadLines: only `\n` ends a line. Universal newlines (`\r`, `\r\n`) are not modelled.
- Hex.Strtol16: the `LONG_MIN`/`LONG_MAX` clamping of `strtol` is not modelled. It cannot occur on a two-character input.
- Params.ReadParams: a negative or zero admin count, threshold or voter count is read as given. What the rest of the program does with such values is not modelled.
- Assignment.BuildTasks requires t <= ne and a permutation per voter. With t > ne, v1 reads past the end of `adminIndices` (undefined behaviour).
- Assignment.ChooseAdmins requires t == 0 or ne > 0. With ne == 0 and t > 0, v9's `j % ne` divides by zero (undefined behaviour).
- Poly.IntExponents requires every `L^j` to fit in a 64-bit `long`. Signed overflow of `powInt` in dkg.cpp is undefined behaviour.
- Dkg.MainKeyGen requires t >= 1. With t = 0, main.cpp reads `F_coeffs[i][0]` of an empty vector.
- Report.RowCells: reading `approvals[voter_id]` for a missing voter inserts an empty set into the `defaultdict`. That side effect is not modelled, because nothing reads the index afterwards.
- Dkg.ThresholdKeyGen: dkg.cpp's `evaluatePoly(coeffs, t, ...)` walks the t+1 coefficients of one array. It is modelled as evaluating that coefficient list.
- Voter id 0 is recorded when a line says `Voter 0`, but the table's rows start at voter 1, so such an entry never shows. The logger prints ids from 1, so it never writes such a line.
