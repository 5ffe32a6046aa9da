/**
 * The line pattern of the thread-log reporter,
 *   BlindSign: Voter\s+(\d+)\s*-\s*Admin\s+(\d+)\s*sign task started
 * applied with `search`, i.e. at the leftmost index where it matches.
 *
 * Every piece of the pattern is followed by a character the piece itself cannot
 * contain, so at a fixed index the regex has at most one way to match; `ScanHere`
 * finds it by greedy spans. `Spell` gives the declarative reading (literal tags
 * glued to whitespace and digit runs) and the two are proved to agree both ways.
 */
module Pattern {
  import opened Outcome
  import opened Decimal

  /** Python's `str.isspace`, the class `\s` stands for in a str pattern. */
  predicate IsSpace(c: char) {
    || c == ' '
    || ('\t' <= c <= '\r')
    || ('\U{1C}' <= c <= '\U{1F}')
    || c == '\U{85}' || c == '\U{A0}' || c == '\U{1680}'
    || ('\U{2000}' <= c <= '\U{200A}')
    || c == '\U{2028}' || c == '\U{2029}' || c == '\U{202F}' || c == '\U{205F}' || c == '\U{3000}'
  }

  predicate AllSpace(s: string) {
    forall k :: 0 <= k < |s| ==> IsSpace(s[k])
  }

  const VoterTag: string := "BlindSign: Voter"
  const AdminTag: string := "Admin"
  const StartedTag: string := "sign task started"

  /** The two captured groups, converted with `int()`. */
  datatype Approval = Approval(voter: nat, admin: nat)

  /** Greedy `\s*`: splits `t` into its leading whitespace and the rest. */
  function SpanSpace(t: string): (r: (string, string))
    ensures r.0 + r.1 == t && AllSpace(r.0)
    ensures |r.1| == 0 || !IsSpace(r.1[0])
  {
    if |t| > 0 && IsSpace(t[0]) then
      var (w, rest) := SpanSpace(t[1..]);
      ([t[0]] + w, rest)
    else
      ([], t)
  }

  /** The variable parts of one match: the whitespace runs and the two digit groups. */
  datatype Pieces = Pieces(ws1: string, d1: string, ws2: string, ws3: string,
                           ws4: string, d2: string, ws5: string)

  /** What each `\s+`, `\s*` and `\d+` of the pattern admits. */
  predicate WellFormed(p: Pieces) {
    && AllSpace(p.ws1) && |p.ws1| > 0
    && AllDigits(p.d1) && |p.d1| > 0
    && AllSpace(p.ws2)
    && AllSpace(p.ws3)
    && AllSpace(p.ws4) && |p.ws4| > 0
    && AllDigits(p.d2) && |p.d2| > 0
    && AllSpace(p.ws5)
  }

  /** `\s+(\d+)\s*` followed by the literal `lit`. */
  function NumberText(lead: string, digits: string, trail: string, lit: string): string {
    lead + digits + trail + lit
  }

  /** `\s*` followed by the literal `lit`. */
  function GapText(space: string, lit: string): string {
    space + lit
  }

  /** The matched text, spelled out piece by piece. */
  function Spell(p: Pieces): string {
    VoterTag + NumberText(p.ws1, p.d1, p.ws2, "-") + GapText(p.ws3, AdminTag)
    + NumberText(p.ws4, p.d2, p.ws5, StartedTag)
  }

  /** A `\s+(\d+)\s*lit` segment as scanned, and the text after it. */
  datatype NumberSeg = NumberSeg(lead: string, digits: string, trail: string, rest: string)

  /** A `\s*lit` segment as scanned, and the text after it. */
  datatype GapSeg = GapSeg(space: string, rest: string)

  function ScanNumber(t: string, lit: string): (r: Option<NumberSeg>)
    ensures r.Some? ==> AllSpace(r.value.lead) && |r.value.lead| > 0 && AllSpace(r.value.trail)
                        && AllDigits(r.value.digits) && |r.value.digits| > 0
  {
    var (lead, t1) := SpanSpace(t);
    if lead == [] then None else
    var (digits, t2) := SpanDigits(t1);
    if digits == [] then None else
    var (trail, t3) := SpanSpace(t2);
    if !(lit <= t3) then None else
    Some(NumberSeg(lead, digits, trail, t3[|lit|..]))
  }

  function ScanGap(t: string, lit: string): (r: Option<GapSeg>)
    ensures r.Some? ==> AllSpace(r.value.space)
  {
    var (space, t1) := SpanSpace(t);
    if !(lit <= t1) then None else
    Some(GapSeg(space, t1[|lit|..]))
  }

  /** The regex tried at the start of `t`: the one way it can match there, if any. */
  function ScanHere(t: string): (r: Option<Pieces>)
    ensures r.Some? ==> WellFormed(r.value)
  {
    if !(VoterTag <= t) then None else
    match ScanNumber(t[|VoterTag|..], "-")
    case None => None
    case Some(n1) =>
      match ScanGap(n1.rest, AdminTag)
      case None => None
      case Some(g) =>
        match ScanNumber(g.rest, StartedTag)
        case None => None
        case Some(n2) => Some(Pieces(n1.lead, n1.digits, n1.trail, g.space, n2.lead, n2.digits, n2.trail))
  }

  /** The captured ids of a match at index `i`: `int(match.group(1))`, `int(match.group(2))`. */
  function MatchAt(s: string, i: nat): Option<Approval>
    requires i <= |s|
  {
    match ScanHere(s[i..])
    case None => None
    case Some(p) => Some(Approval(DigitsValue(p.d1), DigitsValue(p.d2)))
  }

  /** The first index from `i` on where the regex matches, as `search` scans. */
  function FindFrom(s: string, i: nat): (r: Option<nat>)
    requires i <= |s|
    ensures r.Some? ==> i <= r.value <= |s| && MatchAt(s, r.value).Some?
    ensures forall k :: i <= k <= |s| && (r.None? || k < r.value) ==> MatchAt(s, k).None?
    decreases |s| - i
  {
    if MatchAt(s, i).Some? then Some(i)
    else if i == |s| then None
    else FindFrom(s, i + 1)
  }

  /** `pattern.search(line)`, reduced to the two captured ids. */
  function Search(s: string): Option<Approval> {
    match FindFrom(s, 0)
    case None => None
    case Some(i) => MatchAt(s, i)
  }

  /** The declarative reading: the pattern's text starts at index `i` and carries these ids. */
  ghost predicate PatternAt(s: string, i: nat, a: Approval) {
    i <= |s| &&
    exists p :: WellFormed(p) && Spell(p) <= s[i..]
                && a == Approval(DigitsValue(p.d1), DigitsValue(p.d2))
  }

  // ---------------------------------------------------------------------------
  // The scanner agrees with the declarative reading.

  /** A greedy span stops exactly at the end of a whitespace prefix followed by a non-space. */
  lemma {:induction false} SpanSpaceOf(w: string, x: string)
    requires AllSpace(w)
    requires |x| == 0 || !IsSpace(x[0])
    ensures SpanSpace(w + x) == (w, x)
    decreases |w|
  {
    if |w| > 0 {
      assert (w + x)[1..] == w[1..] + x;
      SpanSpaceOf(w[1..], x);
      assert [w[0]] + w[1..] == w;
    } else {
      assert w + x == x;
    }
  }

  lemma ScanNumberSound(t: string, lit: string)
    requires ScanNumber(t, lit).Some?
    ensures var n := ScanNumber(t, lit).value; t == NumberText(n.lead, n.digits, n.trail, lit) + n.rest
  {
    var (lead, t1) := SpanSpace(t);
    var (digits, t2) := SpanDigits(t1);
    var (trail, t3) := SpanSpace(t2);
    assert t3 == lit + t3[|lit|..];
  }

  lemma ScanGapSound(t: string, lit: string)
    requires ScanGap(t, lit).Some?
    ensures var g := ScanGap(t, lit).value; t == GapText(g.space, lit) + g.rest
  {
    var (space, t1) := SpanSpace(t);
    assert t1 == lit + t1[|lit|..];
  }

  /** Regrouping five pieces of text. */
  lemma Regroup(a: string, b: string, c: string, d: string, e: string)
    ensures a + (b + (c + (d + e))) == (a + b + c + d) + e
  {
  }

  /** What the scanner returns is spelled at the start of the text it scanned. */
  lemma ScanSound(t: string)
    requires ScanHere(t).Some?
    ensures Spell(ScanHere(t).value) <= t
  {
    var u := t[|VoterTag|..];
    assert t == VoterTag + u;
    var n1 := ScanNumber(u, "-").value;
    ScanNumberSound(u, "-");
    var g := ScanGap(n1.rest, AdminTag).value;
    ScanGapSound(n1.rest, AdminTag);
    var n2 := ScanNumber(g.rest, StartedTag).value;
    ScanNumberSound(g.rest, StartedTag);
    var p := ScanHere(t).value;
    assert p == Pieces(n1.lead, n1.digits, n1.trail, g.space, n2.lead, n2.digits, n2.trail);
    var b := NumberText(p.ws1, p.d1, p.ws2, "-");
    var c := GapText(p.ws3, AdminTag);
    var d := NumberText(p.ws4, p.d2, p.ws5, StartedTag);
    Regroup(VoterTag, b, c, d, n2.rest);
    assert t == Spell(p) + n2.rest;
  }

  lemma ScanNumberComplete(lead: string, digits: string, trail: string, lit: string, rest: string)
    requires AllSpace(lead) && |lead| > 0 && AllDigits(digits) && |digits| > 0 && AllSpace(trail)
    requires |lit| > 0 && !IsSpace(lit[0]) && !IsDigit(lit[0])
    ensures ScanNumber(NumberText(lead, digits, trail, lit) + rest, lit)
            == Some(NumberSeg(lead, digits, trail, rest))
  {
    var t := NumberText(lead, digits, trail, lit) + rest;
    var r3 := lit + rest;
    var r2 := trail + r3;
    var r1 := digits + r2;
    assert t == lead + r1;
    SpanSpaceOf(lead, r1);
    if |trail| > 0 { assert r2[0] == trail[0]; } else { assert r2[0] == lit[0]; }
    SpanDigitsOf(digits, r2);
    SpanSpaceOf(trail, r3);
    assert r3[|lit|..] == rest;
  }

  lemma ScanGapComplete(space: string, lit: string, rest: string)
    requires AllSpace(space)
    requires |lit| > 0 && !IsSpace(lit[0])
    ensures ScanGap(GapText(space, lit) + rest, lit) == Some(GapSeg(space, rest))
  {
    var r1 := lit + rest;
    assert GapText(space, lit) + rest == space + r1;
    SpanSpaceOf(space, r1);
    assert r1[|lit|..] == rest;
  }

  /** Any well-formed spelling at the start of `t` is exactly what the scanner finds. */
  lemma ScanComplete(t: string, p: Pieces)
    requires WellFormed(p) && Spell(p) <= t
    ensures ScanHere(t) == Some(p)
  {
    var post := t[|Spell(p)|..];
    var rest2 := NumberText(p.ws4, p.d2, p.ws5, StartedTag) + post;
    var rest1 := GapText(p.ws3, AdminTag) + rest2;
    var u := NumberText(p.ws1, p.d1, p.ws2, "-") + rest1;
    assert t == Spell(p) + post;
    Regroup(VoterTag, NumberText(p.ws1, p.d1, p.ws2, "-"), GapText(p.ws3, AdminTag),
            NumberText(p.ws4, p.d2, p.ws5, StartedTag), post);
    assert t[|VoterTag|..] == u;
    ScanNumberComplete(p.ws1, p.d1, p.ws2, "-", rest1);
    ScanGapComplete(p.ws3, AdminTag, rest2);
    ScanNumberComplete(p.ws4, p.d2, p.ws5, StartedTag, post);
  }

  /** At a fixed index the scanner and the declarative reading agree, both ways. */
  lemma MatchAtIffPattern(s: string, i: nat, a: Approval)
    requires i <= |s|
    ensures MatchAt(s, i) == Some(a) <==> PatternAt(s, i, a)
  {
    if MatchAt(s, i) == Some(a) {
      ScanSound(s[i..]);
    }
    if PatternAt(s, i, a) {
      var p :| WellFormed(p) && Spell(p) <= s[i..]
                && a == Approval(DigitsValue(p.d1), DigitsValue(p.d2));
      ScanComplete(s[i..], p);
    }
  }

  /** The pattern's text starts at `i` with ids `a`, and at no index further left. */
  ghost predicate LeftmostAt(s: string, i: nat, a: Approval) {
    i <= |s| && PatternAt(s, i, a) && forall j, b :: 0 <= j < i ==> !PatternAt(s, j, b)
  }

  /** What `search` returns is the leftmost occurrence. */
  lemma SearchLeftmostSound(s: string, a: Approval)
    requires Search(s) == Some(a)
    ensures LeftmostAt(s, FindFrom(s, 0).value, a)
  {
    var i := FindFrom(s, 0).value;
    MatchAtIffPattern(s, i, a);
    forall j, b | 0 <= j < i ensures !PatternAt(s, j, b) {
      MatchAtIffPattern(s, j, b);
    }
  }

  /** The leftmost occurrence is what `search` returns. */
  lemma SearchLeftmostComplete(s: string, i: nat, a: Approval)
    requires LeftmostAt(s, i, a)
    ensures Search(s) == Some(a)
  {
    MatchAtIffPattern(s, i, a);
    var f := FindFrom(s, 0);
    assert f.Some? && f.value <= i;
    var k := f.value;
    var b := MatchAt(s, k).value;
    MatchAtIffPattern(s, k, b);
    assert k == i;
  }

  /**
   * `search` returns the ids of the leftmost occurrence of the pattern's text;
   * no occurrence starts further left.
   */
  lemma SearchIsLeftmost(s: string, a: Approval)
    ensures Search(s) == Some(a) <==> exists i :: LeftmostAt(s, i, a)
  {
    if Search(s) == Some(a) {
      SearchLeftmostSound(s, a);
    }
    if exists i :: LeftmostAt(s, i, a) {
      var i :| LeftmostAt(s, i, a);
      SearchLeftmostComplete(s, i, a);
    }
  }

  /** A line is recognised at all exactly when the pattern's text occurs somewhere in it. */
  lemma RecognisedIffOccurs(s: string)
    ensures Search(s).Some? <==> exists i, a :: 0 <= i <= |s| && PatternAt(s, i, a)
  {
    if Search(s).Some? {
      SearchIsLeftmost(s, Search(s).value);
    }
    if exists i, a :: 0 <= i <= |s| && PatternAt(s, i, a) {
      var i, a :| 0 <= i <= |s| && PatternAt(s, i, a);
      MatchAtIffPattern(s, i, a);
    }
  }
}
