/**
 * The params.txt reader shared by v1.cpp and v9.cpp: every line starting with
 * "ea=", "threshold=" or "votercount=" sets the admin count, the threshold or
 * the voter count to `std::stoi` of the rest of the line.
 */
module Params {
  import opened Outcome
  import opened Decimal
  import opened CType

  /** The two exceptions `std::stoi` throws. */
  datatype StoiError = InvalidArgument | OutOfRange

  /** Why the programs stop before signing anything. */
  datatype ParamsError =
    | CannotOpen                   // params.txt missing: error message, exit status 1
    | StoiFailed(error: StoiError) // uncaught exception from std::stoi

  /** The range of a 32-bit `int`. */
  const IntMin: int := -0x8000_0000
  const IntMax: int := 0x7fff_ffff

  /**
   * `std::stoi(s)`: optional white space, an optional sign, then the longest
   * run of decimal digits; anything after it is ignored. No digit at all throws
   * `invalid_argument`; a value outside `int` throws `out_of_range`.
   */
  function Stoi(s: string): (r: Result<int, StoiError>)
    ensures r.Success? ==> IntMin <= r.value <= IntMax
  {
    ReadSigned(SpanCSpace(s).1)
  }

  /** The optional sign. */
  function ReadSigned(t: string): Result<int, StoiError> {
    if |t| > 0 && t[0] == '-' then ReadMagnitude(true, t[1..])
    else if |t| > 0 && t[0] == '+' then ReadMagnitude(false, t[1..])
    else ReadMagnitude(false, t)
  }

  /** The digit run and the range check. */
  function ReadMagnitude(neg: bool, u: string): (r: Result<int, StoiError>)
    ensures r.Success? ==> IntMin <= r.value <= IntMax
  {
    var digits := SpanDigits(u).0;
    if digits == [] then Failure(InvalidArgument)
    else
      var m: int := DigitsValue(digits);
      var v := if neg then -m else m;
      if v < IntMin || v > IntMax then Failure(OutOfRange) else Success(v)
  }

  /** The three recognised keys. */
  datatype Key = Ea | Threshold | VoterCount

  function Prefix(k: Key): string {
    match k
    case Ea => "ea="
    case Threshold => "threshold="
    case VoterCount => "votercount="
  }

  /** The key a line sets, tried in the program's order; `None` for any other line. */
  function KeyOf(line: string): (r: Option<Key>)
    ensures r.Some? ==> Prefix(r.value) <= line
    ensures r.None? ==> forall k :: !(Prefix(k) <= line)
  {
    if Prefix(Ea) <= line then Some(Ea)
    else if Prefix(Threshold) <= line then Some(Threshold)
    else if Prefix(VoterCount) <= line then Some(VoterCount)
    else None
  }

  /** `std::stoi(line.substr(<prefix length>))` for a keyed line. */
  function ValueOf(line: string, k: Key): Result<int, StoiError>
    requires Prefix(k) <= line
  {
    Stoi(line[|Prefix(k)|..])
  }

  /** `ne`, `t` and `voterCount`. */
  datatype Settings = Settings(ne: int, t: int, voterCount: int)

  /** All three start at 0. */
  const Defaults := Settings(0, 0, 0)

  function Get(p: Settings, k: Key): int {
    match k
    case Ea => p.ne
    case Threshold => p.t
    case VoterCount => p.voterCount
  }

  function Put(p: Settings, k: Key, v: int): (r: Settings)
    ensures Get(r, k) == v
    ensures forall k' :: k' != k ==> Get(r, k') == Get(p, k')
  {
    match k
    case Ea => p.(ne := v)
    case Threshold => p.(t := v)
    case VoterCount => p.(voterCount := v)
  }

  /** The `getline` loop from settings `p` on: the first failing `stoi` ends it. */
  function ParseLines(p: Settings, lines: seq<string>): Result<Settings, StoiError>
    decreases |lines|
  {
    if |lines| == 0 then Success(p)
    else
      match KeyOf(lines[0])
      case None => ParseLines(p, lines[1..])
      case Some(k) =>
        match ValueOf(lines[0], k)
        case Failure(e) => Failure(e)
        case Success(v) => ParseLines(Put(p, k, v), lines[1..])
  }

  /** The whole block: `None` stands for a params.txt that cannot be opened. */
  function ReadParams(file: Option<seq<string>>): Result<Settings, ParamsError> {
    match file
    case None => Failure(CannotOpen)
    case Some(lines) =>
      match ParseLines(Defaults, lines)
      case Failure(e) => Failure(StoiFailed(e))
      case Success(p) => Success(p)
  }

  // ---------------------------------------------------------------------------
  // Reference readings of the loop.

  /** The index of the last line that sets key `k`. */
  function LastSetter(lines: seq<string>, k: Key): (r: Option<nat>)
    ensures r.Some? ==> r.value < |lines| && KeyOf(lines[r.value]) == Some(k)
                        && forall j :: r.value < j < |lines| ==> KeyOf(lines[j]) != Some(k)
    ensures r.None? ==> forall j :: 0 <= j < |lines| ==> KeyOf(lines[j]) != Some(k)
    decreases |lines|
  {
    if |lines| == 0 then None
    else
      match LastSetter(lines[1..], k)
      case Some(j) => Some(j + 1)
      case None => if KeyOf(lines[0]) == Some(k) then Some(0) else None
  }

  /** The index of the first keyed line whose number `stoi` rejects. */
  function FirstBad(lines: seq<string>): (r: Option<nat>)
    ensures r.Some? ==> r.value < |lines| && KeyOf(lines[r.value]).Some?
                        && ValueOf(lines[r.value], KeyOf(lines[r.value]).value).Failure?
    ensures forall j :: 0 <= j < |lines| && (r.None? || j < r.value) && KeyOf(lines[j]).Some?
                        ==> ValueOf(lines[j], KeyOf(lines[j]).value).Success?
    decreases |lines|
  {
    if |lines| == 0 then None
    else if KeyOf(lines[0]).Some? && ValueOf(lines[0], KeyOf(lines[0]).value).Failure? then Some(0)
    else
      match FirstBad(lines[1..])
      case Some(j) => Some(j + 1)
      case None => None
  }

  /** The value the loop leaves in key `k` when no number is rejected. */
  lemma {:induction false} ParseLinesSettles(p: Settings, lines: seq<string>, k: Key)
    requires FirstBad(lines).None?
    ensures ParseLines(p, lines).Success?
    ensures Get(ParseLines(p, lines).value, k)
            == match LastSetter(lines, k)
               case None => Get(p, k)
               case Some(i) => ValueOf(lines[i], k).value
    decreases |lines|
  {
    if |lines| > 0 {
      assert FirstBad(lines[1..]).None?;
      match KeyOf(lines[0])
      case None =>
        ParseLinesSettles(p, lines[1..], k);
      case Some(k0) =>
        ParseLinesSettles(Put(p, k0, ValueOf(lines[0], k0).value), lines[1..], k);
    }
  }

  /** The loop stops at the first rejected number, with that number's error. */
  lemma {:induction false} ParseLinesFails(p: Settings, lines: seq<string>)
    requires FirstBad(lines).Some?
    ensures ParseLines(p, lines)
            == Failure(ValueOf(lines[FirstBad(lines).value], KeyOf(lines[FirstBad(lines).value]).value).error)
    decreases |lines|
  {
    if !(KeyOf(lines[0]).Some? && ValueOf(lines[0], KeyOf(lines[0]).value).Failure?) {
      var j := FirstBad(lines[1..]).value;
      assert lines[1..][j] == lines[j + 1];
      match KeyOf(lines[0])
      case None =>
        ParseLinesFails(p, lines[1..]);
      case Some(k0) =>
        ParseLinesFails(Put(p, k0, ValueOf(lines[0], k0).value), lines[1..]);
    }
  }

  /**
   * params.txt read in full: each key holds the number on the last line that
   * sets it, or 0 if no line does; other lines change nothing. The read fails
   * exactly when a keyed line's number is rejected, with the first such error,
   * or when the file cannot be opened.
   */
  lemma ReadParamsMeaning(file: Option<seq<string>>, k: Key)
    ensures file.None? ==> ReadParams(file) == Failure(CannotOpen)
    ensures file.Some? && FirstBad(file.value).Some? ==>
      var i := FirstBad(file.value).value;
      ReadParams(file) == Failure(StoiFailed(ValueOf(file.value[i], KeyOf(file.value[i]).value).error))
    ensures file.Some? && FirstBad(file.value).None? ==>
      && ReadParams(file).Success?
      && Get(ReadParams(file).value, k)
         == match LastSetter(file.value, k)
            case None => 0
            case Some(i) => ValueOf(file.value[i], k).value
  {
    if file.Some? {
      if FirstBad(file.value).Some? {
        ParseLinesFails(Defaults, file.value);
      } else {
        ParseLinesSettles(Defaults, file.value, k);
      }
    }
  }

  // ---------------------------------------------------------------------------
  // `std::stoi` against `std::to_string`.

  /** Leading white space does not change what `stoi` reads. */
  lemma StoiSkipsSpace(c: char, s: string)
    requires IsCSpace(c)
    ensures Stoi([c] + s) == Stoi(s)
  {
    assert ([c] + s)[1..] == s;
  }

  /** Without leading white space `stoi` goes straight to the sign. */
  lemma StoiAtSign(s: string)
    requires |s| > 0 && !IsCSpace(s[0])
    ensures Stoi(s) == ReadSigned(s)
  {
  }

  /** What `stoi` reads from a digit run ending at a non-digit. */
  lemma StoiReadsPlain(d: string, rest: string)
    requires AllDigits(d) && |d| > 0
    requires |rest| == 0 || !IsDigit(rest[0])
    ensures Stoi(d + rest) == ReadMagnitude(false, d + rest)
  {
    assert (d + rest)[0] == d[0];
    StoiAtSign(d + rest);
  }

  /** What `stoi` reads from '-' and a digit run ending at a non-digit. */
  lemma StoiReadsMinus(d: string, rest: string)
    requires AllDigits(d) && |d| > 0
    requires |rest| == 0 || !IsDigit(rest[0])
    ensures Stoi("-" + (d + rest)) == ReadMagnitude(true, d + rest)
  {
    StoiAtSign("-" + (d + rest));
    assert ("-" + (d + rest))[1..] == d + rest;
  }

  /** The magnitude read from a printed number, with the sign applied. */
  lemma MagnitudeOfNumber(neg: bool, n: nat, rest: string)
    requires |rest| == 0 || !IsDigit(rest[0])
    ensures var v: int := if neg then -(n as int) else n;
      ReadMagnitude(neg, NatToString(n) + rest)
      == if v < IntMin || v > IntMax then Failure(OutOfRange) else Success(v)
  {
    SpanDigitsOf(NatToString(n), rest);
    DigitsValueOfNatToString(n);
  }

  /** `stoi` reads a printed non-negative number back. */
  lemma StoiReadsPositive(n: nat, rest: string)
    requires n <= IntMax
    requires |rest| == 0 || !IsDigit(rest[0])
    ensures Stoi(NatToString(n) + rest) == Success(n)
  {
    StoiReadsPlain(NatToString(n), rest);
    MagnitudeOfNumber(false, n, rest);
  }

  /** `stoi` reads a printed negative number back. */
  lemma StoiReadsNegative(n: nat, rest: string)
    requires 0 < n <= -IntMin
    requires |rest| == 0 || !IsDigit(rest[0])
    ensures Stoi("-" + (NatToString(n) + rest)) == Success(-(n as int))
  {
    StoiReadsMinus(NatToString(n), rest);
    MagnitudeOfNumber(true, n, rest);
  }

  /** `stoi` reads back any `int` that `to_string` printed, whatever follows a non-digit. */
  lemma StoiRoundTrip(i: int, rest: string)
    requires IntMin <= i <= IntMax
    requires |rest| == 0 || !IsDigit(rest[0])
    ensures Stoi(IntToString(i) + rest) == Success(i)
  {
    if i < 0 {
      StoiReadsNegative(-i, rest);
      NegativeText(i, rest);
    } else {
      StoiReadsPositive(i, rest);
    }
  }

  /** The printed form of a negative number, followed by `rest`, regrouped after its sign. */
  lemma NegativeText(i: int, rest: string)
    requires i < 0
    ensures IntToString(i) + rest == "-" + (NatToString(-i) + rest)
  {
  }

  /** A printed number outside `int` makes `stoi` throw `out_of_range`. */
  lemma StoiOutOfRange(i: int)
    requires i < IntMin || IntMax < i
    ensures Stoi(IntToString(i)) == Failure(OutOfRange)
  {
    var e: string := [];
    if i < 0 {
      StoiReadsMinus(NatToString(-i), e);
      MagnitudeOfNumber(true, -i, e);
      assert IntToString(i) == "-" + (NatToString(-i) + e);
    } else {
      StoiReadsPlain(NatToString(i), e);
      MagnitudeOfNumber(false, i, e);
      assert IntToString(i) == NatToString(i) + e;
    }
  }

  /** Text without any digit makes `stoi` throw `invalid_argument`. */
  lemma StoiNoDigits(s: string)
    requires forall i :: 0 <= i < |s| ==> !IsDigit(s[i])
    ensures Stoi(s) == Failure(InvalidArgument)
  {
    var t := SpanCSpace(s).1;
    assert s == SpanCSpace(s).0 + t;
    var u := if |t| > 0 && (t[0] == '-' || t[0] == '+') then t[1..] else t;
    if |u| > 0 {
      assert u[0] in s;
    }
  }
}
