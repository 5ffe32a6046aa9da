/**
 * The thread log of v1.cpp and v9.cpp: `logThreadUsage` writes one
 * "[<ms> ms] <phase>: <msg>" line per call to threads.txt, and the sign and
 * prepare stages pass it the messages below. The clock reading and the hashed
 * thread id are parameters.
 */
module Logging {
  import opened Outcome
  import opened Decimal
  import opened Fields

  /** `logThreadUsage(phase, msg)` at clock reading `ms`: the text appended to the log. */
  function LogLine(ms: int, phase: string, msg: string): (r: string)
    ensures |r| > 0 && r[|r| - 1] == '\n'
  {
    "[" + IntToString(ms) + " ms] " + phase + ": " + msg + "\n"
  }

  /** The sign-task message for the 0-based voter and admin ids; ids are printed 1-based. */
  function SignMessage(vId: nat, aId: nat, word: string, tid: nat): string {
    "Voter " + NatToString(vId + 1) + " - Admin " + NatToString(aId + 1)
    + " sign task " + word + " on thread " + NatToString(tid)
  }

  /** Logged under phase "BlindSign" before a blind signature is computed. */
  function StartMessage(vId: nat, aId: nat, tid: nat): string {
    SignMessage(vId, aId, "started", tid)
  }

  /** Logged under phase "BlindSign" after a blind signature is computed. */
  function FinishMessage(vId: nat, aId: nat, tid: nat): string {
    SignMessage(vId, aId, "finished", tid)
  }

  /** Logged under phase "Pipeline" by v1.cpp and v9.cpp once a voter's blind-sign request is prepared. */
  function PrepareMessage(vId: nat, tid: nat): string {
    "Voter " + NatToString(vId + 1) + " prepareBlindSign finished on thread " + NatToString(tid)
  }

  /** One call of `logThreadUsage` made by the signing programs. */
  datatype Event =
    | Started(ms: int, vId: nat, aId: nat, tid: nat)
    | Finished(ms: int, vId: nat, aId: nat, tid: nat)
    | Prepared(ms: int, vId: nat, tid: nat)

  /** The log line an event writes. */
  function Render(e: Event): string {
    match e
    case Started(ms, v, a, tid) => LogLine(ms, "BlindSign", StartMessage(v, a, tid))
    case Finished(ms, v, a, tid) => LogLine(ms, "BlindSign", FinishMessage(v, a, tid))
    case Prepared(ms, v, tid) => LogLine(ms, "Pipeline", PrepareMessage(v, tid))
  }

  /** The first '\n' at or after `i`. */
  function FirstNewline(s: string, i: nat): (r: Option<nat>)
    requires i <= |s|
    ensures r.Some? ==> i <= r.value < |s| && s[r.value] == '\n' && '\n' !in s[i..r.value]
    ensures r.None? ==> '\n' !in s[i..]
    decreases |s| - i
  {
    if i == |s| then None
    else if s[i] == '\n' then Some(i)
    else
      var r := FirstNewline(s, i + 1);
      assert r.Some? ==> s[i..r.value] == [s[i]] + s[i + 1..r.value];
      assert s[i..] == [s[i]] + s[i + 1..];
      r
  }

  /**
   * `f.readlines()`: the text cut after every '\n', each piece keeping its
   * newline; a last piece without one is kept as it is.
   */
  function ReadLines(s: string): (r: seq<string>)
    ensures Concat(r) == s
    ensures forall k :: 0 <= k < |r| ==> |r[k]| > 0 && '\n' !in r[k][..|r[k]| - 1]
    ensures forall k :: 0 <= k < |r| - 1 ==> r[k][|r[k]| - 1] == '\n'
    decreases |s|
  {
    if |s| == 0 then []
    else
      match FirstNewline(s, 0)
      case None =>
        assert s[..|s| - 1] <= s[0..];
        [s]
      case Some(j) =>
        var head := s[..j + 1];
        var tail := ReadLines(s[j + 1..]);
        assert head[..|head| - 1] == s[0..j];
        assert s == head + s[j + 1..];
        [head] + tail
  }

  /** A written line: non-empty, ending in its only '\n'. */
  predicate IsLine(l: string) {
    |l| > 0 && l[|l| - 1] == '\n' && '\n' !in l[..|l| - 1]
  }

  /** Reading the log back gives exactly the lines that were written, in order. */
  lemma {:induction false} ReadLinesOfLog(lines: seq<string>)
    requires forall k :: 0 <= k < |lines| ==> IsLine(lines[k])
    ensures ReadLines(Concat(lines)) == lines
    decreases |lines|
  {
    if |lines| > 0 {
      var l := lines[0];
      var s := Concat(lines);
      var rest := Concat(lines[1..]);
      assert s == l + rest;
      var j := |l| - 1;
      assert s[0..j] == l[..j];
      assert s[j] == '\n';
      assert s[0..][j] == '\n';
      assert '\n' !in s[0..j];
      assert s[..j + 1] == l;
      assert s[j + 1..] == rest;
      ReadLinesOfLog(lines[1..]);
      assert lines == [l] + lines[1..];
    }
  }

  /** Decimal renderings never contain a newline. */
  lemma NoNewlineInNumber(n: nat)
    ensures '\n' !in NatToString(n)
  {
    var s := NatToString(n);
    forall k | 0 <= k < |s| ensures s[k] != '\n' {
      assert IsDigit(s[k]);
    }
  }

  lemma SignMessageOneLine(vId: nat, aId: nat, word: string, tid: nat)
    requires '\n' !in word
    ensures '\n' !in SignMessage(vId, aId, word, tid)
  {
    NoNewlineInNumber(vId + 1);
    NoNewlineInNumber(aId + 1);
    NoNewlineInNumber(tid);
    assert '\n' !in "Voter " && '\n' !in " - Admin " && '\n' !in " sign task " && '\n' !in " on thread ";
  }

  lemma PrepareMessageOneLine(vId: nat, tid: nat)
    ensures '\n' !in PrepareMessage(vId, tid)
  {
    NoNewlineInNumber(vId + 1);
    NoNewlineInNumber(tid);
    assert '\n' !in "Voter " && '\n' !in " prepareBlindSign finished on thread ";
  }

  /** Decimal renderings of signed numbers never contain a newline. */
  lemma NoNewlineInInt(i: int)
    ensures '\n' !in IntToString(i)
  {
    var s := IntToString(i);
    forall k | 0 <= k < |s| ensures s[k] != '\n' {
      if k > 0 || i >= 0 {
        assert IsDigit(s[k]) by {
          if i < 0 {
            assert s[k] == s[1..][k - 1];
          }
        }
      }
    }
  }

  /** A phase and a message without newlines make one line: its only '\n' is the last character. */
  lemma LogLineIsLine(ms: int, phase: string, msg: string)
    requires '\n' !in phase && '\n' !in msg
    ensures IsLine(LogLine(ms, phase, msg))
  {
    var body := "[" + IntToString(ms) + " ms] " + phase + ": " + msg;
    NoNewlineInInt(ms);
    assert LogLine(ms, phase, msg) == body + "\n";
    assert (body + "\n")[..|body|] == body;
  }

  /** Every event writes exactly one line. */
  lemma RenderIsLine(e: Event)
    ensures IsLine(Render(e))
  {
    match e
    case Started(ms, v, a, tid) =>
      SignMessageOneLine(v, a, "started", tid);
      assert '\n' !in "BlindSign";
      LogLineIsLine(ms, "BlindSign", StartMessage(v, a, tid));
    case Finished(ms, v, a, tid) =>
      SignMessageOneLine(v, a, "finished", tid);
      assert '\n' !in "BlindSign";
      LogLineIsLine(ms, "BlindSign", FinishMessage(v, a, tid));
    case Prepared(ms, v, tid) =>
      PrepareMessageOneLine(v, tid);
      assert '\n' !in "Pipeline";
      LogLineIsLine(ms, "Pipeline", PrepareMessage(v, tid));
  }
}
