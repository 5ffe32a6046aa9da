/**
 * The log producer of v1.cpp / v9.cpp against the reporter of parse_threads.py:
 * which written lines the reporter's pattern picks up, and with which ids.
 */
module RoundTrip {
  import opened Outcome
  import opened Decimal
  import opened Pattern
  import opened Approvals
  import opened Logging
  import opened Fields

  /** The "[<ms> ms] " stamp in front of every phase name. */
  function Stamp(ms: int): string {
    "[" + IntToString(ms) + " ms] "
  }

  /** What follows the admin id in a sign-task message. */
  function SignTail(word: string, tid: nat): string {
    "sign task " + word + " on thread " + NatToString(tid) + "\n"
  }

  /** A character that is not a digit is not in a decimal rendering. */
  lemma NotInNumber(n: nat, c: char)
    requires !IsDigit(c)
    ensures c !in NatToString(n)
  {
    var s := NatToString(n);
    forall k | 0 <= k < |s| ensures s[k] != c {
      assert IsDigit(s[k]);
    }
  }

  lemma NotInStamp(ms: int, c: char)
    requires !IsDigit(c) && c != '-' && c != '[' && c != ' ' && c != 'm' && c != 's' && c != ']'
    ensures c !in Stamp(ms)
  {
    var s := IntToString(ms);
    forall k | 0 <= k < |s| ensures s[k] != c {
      if ms < 0 && k > 0 {
        assert s[k] == s[1..][k - 1];
      }
    }
  }

  /** Re-association of the sign-task line, with every piece abstract. */
  lemma RegroupSignLine(st: string, phase: string, colon: string, voter: string, d1: string,
                        admin: string, d2: string, task: string, word: string, thread: string,
                        t: string, nl: string)
    ensures var msg := voter + d1 + admin + d2 + task + word + thread + t;
      st + phase + colon + msg + nl
      == st + (phase + colon + voter + d1 + admin + d2 + task + word + thread + t + nl)
  {
  }

  lemma RegroupPieces(tag: string, sp: string, d1: string, dash: string, admin: string,
                      d2: string, task: string, word: string, thread: string, t: string, nl: string)
    ensures tag + sp + d1 + (sp + dash + sp + admin + sp) + d2 + (sp + task) + word + thread + t + nl
      == tag + (sp + d1 + sp + dash) + (sp + admin) + (sp + d2 + sp + (task + word + thread + t + nl))
  {
  }

  /** The literal parts of the producer's line, cut at the pattern's pieces. */
  lemma SignLiterals()
    ensures "BlindSign" + ": " + "Voter " == VoterTag + " "
    ensures " - Admin " == " " + "-" + " " + AdminTag + " "
    ensures " sign task " == " " + "sign task "
  {
  }

  /** The sign-task line, cut where the pattern's pieces fall. */
  lemma SignLineText(ms: int, vId: nat, aId: nat, word: string, tid: nat)
    ensures var line := LogLine(ms, "BlindSign", SignMessage(vId, aId, word, tid));
      var n := |Stamp(ms)|;
      && line == Stamp(ms) + "BlindSign" + ":" + (" " + SignMessage(vId, aId, word, tid) + "\n")
      && n <= |line|
      && line[n..] == VoterTag + NumberText(" ", NatToString(vId + 1), " ", "-")
                      + GapText(" ", AdminTag) + (" " + NatToString(aId + 1) + " " + SignTail(word, tid))
  {
    var d1, d2, t := NatToString(vId + 1), NatToString(aId + 1), NatToString(tid);
    var msg := SignMessage(vId, aId, word, tid);
    var line := LogLine(ms, "BlindSign", msg);
    var st := Stamp(ms);
    RegroupSignLine(st, "BlindSign", ": ", "Voter ", d1, " - Admin ", d2, " sign task ", word, " on thread ", t, "\n");
    var x := "BlindSign" + ": " + "Voter " + d1 + " - Admin " + d2 + " sign task " + word + " on thread " + t + "\n";
    assert line == st + x;
    SignLiterals();
    RegroupPieces(VoterTag, " ", d1, "-", AdminTag, d2, "sign task ", word, " on thread ", t, "\n");
    assert x == VoterTag + NumberText(" ", d1, " ", "-") + GapText(" ", AdminTag)
                + (" " + d2 + " " + SignTail(word, tid));
    assert line[|st|..] == x;
    RegroupColon(st, "BlindSign", msg);
  }

  lemma RegroupColon(st: string, phase: string, msg: string)
    ensures st + phase + ": " + msg + "\n" == st + phase + ":" + (" " + msg + "\n")
  {
    assert ": " == ":" + " ";
  }

  /** The last `\\s+(\\d+)\\s*` segment decides the match on the literal alone. */
  lemma ScanNumberDecides(lead: string, digits: string, trail: string, lit: string, tail: string)
    requires AllSpace(lead) && |lead| > 0 && AllDigits(digits) && |digits| > 0 && AllSpace(trail)
    requires |tail| > 0 && !IsSpace(tail[0]) && !IsDigit(tail[0])
    ensures ScanNumber(lead + digits + trail + tail, lit)
            == if lit <= tail then Some(NumberSeg(lead, digits, trail, tail[|lit|..])) else None
  {
    var r2 := trail + tail;
    var r1 := digits + r2;
    assert lead + digits + trail + tail == lead + r1;
    SpanSpaceOf(lead, r1);
    if |trail| > 0 { assert r2[0] == trail[0]; } else { assert r2[0] == tail[0]; }
    SpanDigitsOf(digits, r2);
    SpanSpaceOf(trail, tail);
  }

  /** Single-space pieces around the two ids, as the producer writes them. */
  function Produced(d1: string, d2: string): Pieces {
    Pieces(" ", d1, " ", " ", " ", d2, " ")
  }

  /** The scanner on a producer-shaped text: the literal after the admin id decides. */
  lemma ScanProduced(d1: string, d2: string, tail: string)
    requires AllDigits(d1) && |d1| > 0 && AllDigits(d2) && |d2| > 0
    requires |tail| > 0 && !IsSpace(tail[0]) && !IsDigit(tail[0])
    ensures ScanHere(VoterTag + NumberText(" ", d1, " ", "-") + GapText(" ", AdminTag)
                     + (" " + d2 + " " + tail))
            == if StartedTag <= tail then Some(Produced(d1, d2)) else None
  {
    var rest2 := " " + d2 + " " + tail;
    var rest1 := GapText(" ", AdminTag) + rest2;
    var u := NumberText(" ", d1, " ", "-") + rest1;
    var t := VoterTag + NumberText(" ", d1, " ", "-") + GapText(" ", AdminTag) + rest2;
    Regroup4(VoterTag, NumberText(" ", d1, " ", "-"), GapText(" ", AdminTag), rest2);
    assert t[|VoterTag|..] == u;
    assert AllSpace(" ");
    ScanNumberComplete(" ", d1, " ", "-", rest1);
    ScanGapComplete(" ", AdminTag, rest2);
    ScanNumberDecides(" ", d2, " ", StartedTag, tail);
  }

  lemma Regroup4(a: string, b: string, c: string, d: string)
    ensures a + b + c + d == a + (b + (c + d))
  {
  }

  /** At the stamp's end the scanner succeeds exactly when the word is "started". */
  lemma ScanSignLine(ms: int, vId: nat, aId: nat, word: string, tid: nat)
    ensures var line := LogLine(ms, "BlindSign", SignMessage(vId, aId, word, tid));
      |Stamp(ms)| <= |line|
      && ScanHere(line[|Stamp(ms)|..])
         == if StartedTag <= SignTail(word, tid)
            then Some(Produced(NatToString(vId + 1), NatToString(aId + 1))) else None
  {
    SignLineText(ms, vId, aId, word, tid);
    var tail := SignTail(word, tid);
    assert tail[0] == 's';
    ScanProduced(NatToString(vId + 1), NatToString(aId + 1), tail);
  }

  /**
   * In a text with a single ':', the pattern's "BlindSign: Voter" can only
   * start nine characters before it.
   */
  lemma TagNeedsColon(a: string, r: string, j: nat)
    requires ':' !in a && ':' !in r
    requires j <= |a + ":" + r| && j + 9 != |a|
    ensures !(VoterTag <= (a + ":" + r)[j..])
  {
    var s := a + ":" + r;
    if j + 9 < |s| {
      if j + 9 < |a| {
        assert s[j + 9] == a[j + 9];
      } else {
        assert s[j + 9] == r[j + 9 - |a| - 1];
      }
      assert s[j..][9] != VoterTag[9];
    }
  }

  /** Positions without a match are passed over by the leftmost search. */
  lemma {:induction false} FindFromSkip(s: string, i: nat, k: nat)
    requires i <= k <= |s|
    requires forall j :: i <= j < k ==> MatchAt(s, j).None?
    ensures FindFrom(s, i) == FindFrom(s, k)
    decreases k - i
  {
    if i < k {
      FindFromSkip(s, i + 1, k);
    }
  }

  lemma SignMessageColonFree(vId: nat, aId: nat, word: string, tid: nat)
    requires ':' !in word
    ensures ':' !in SignMessage(vId, aId, word, tid)
  {
    NotInNumber(vId + 1, ':');
    NotInNumber(aId + 1, ':');
    NotInNumber(tid, ':');
    assert ':' !in "Voter " && ':' !in " - Admin " && ':' !in " sign task " && ':' !in " on thread ";
  }

  lemma PrepareMessageColonFree(vId: nat, tid: nat)
    ensures ':' !in PrepareMessage(vId, tid)
  {
    NotInNumber(vId + 1, ':');
    NotInNumber(tid, ':');
    assert ':' !in "Voter " && ':' !in " prepareBlindSign finished on thread ";
  }

  /** In a sign-task line, the pattern can only start right after the stamp. */
  lemma SignLineOnlyAtStamp(ms: int, vId: nat, aId: nat, word: string, tid: nat, j: nat)
    requires ':' !in word
    requires var line := LogLine(ms, "BlindSign", SignMessage(vId, aId, word, tid));
      j <= |line| && j != |Stamp(ms)|
    ensures MatchAt(LogLine(ms, "BlindSign", SignMessage(vId, aId, word, tid)), j).None?
  {
    var msg := SignMessage(vId, aId, word, tid);
    SignLineText(ms, vId, aId, word, tid);
    NotInStamp(ms, ':');
    SignMessageColonFree(vId, aId, word, tid);
    assert ':' !in "BlindSign";
    TagNeedsColon(Stamp(ms) + "BlindSign", " " + msg + "\n", j);
  }

  /** Only the word "started" completes the pattern's last literal. */
  lemma TailDecides(tid: nat)
    ensures StartedTag <= SignTail("started", tid)
    ensures !(StartedTag <= SignTail("finished", tid))
  {
    var rest := " on thread " + NatToString(tid) + "\n";
    assert SignTail("started", tid) == StartedTag + rest;
    assert SignTail("finished", tid)[10] == 'f';
  }

  /** Right after the stamp, a started line yields the printed ids. */
  lemma StartMatchAtStamp(ms: int, vId: nat, aId: nat, tid: nat)
    ensures var line := LogLine(ms, "BlindSign", SignMessage(vId, aId, "started", tid));
      |Stamp(ms)| <= |line| && MatchAt(line, |Stamp(ms)|) == Some(Approval(vId + 1, aId + 1))
  {
    ScanSignLine(ms, vId, aId, "started", tid);
    TailDecides(tid);
    DigitsValueOfNatToString(vId + 1);
    DigitsValueOfNatToString(aId + 1);
  }

  /** A "sign task started" line is recognised, with the 1-based ids it prints. */
  lemma StartLineRecognised(e: Event)
    requires e.Started?
    ensures Search(Render(e)) == Some(Approval(e.vId + 1, e.aId + 1))
  {
    var line := LogLine(e.ms, "BlindSign", SignMessage(e.vId, e.aId, "started", e.tid));
    StartMatchAtStamp(e.ms, e.vId, e.aId, e.tid);
    NoMatchBeforeStamp(e.ms, e.vId, e.aId, "started", e.tid);
    SearchFirstAt(line, |Stamp(e.ms)|, Approval(e.vId + 1, e.aId + 1));
    assert Render(e) == line;
  }

  /** Before the stamp's end a sign-task line has no match. */
  lemma NoMatchBeforeStamp(ms: int, vId: nat, aId: nat, word: string, tid: nat)
    requires ':' !in word
    ensures var line := LogLine(ms, "BlindSign", SignMessage(vId, aId, word, tid));
      |Stamp(ms)| <= |line| && forall j :: 0 <= j < |Stamp(ms)| ==> MatchAt(line, j).None?
  {
    var line := LogLine(ms, "BlindSign", SignMessage(vId, aId, word, tid));
    SignLineText(ms, vId, aId, word, tid);
    forall j | 0 <= j < |Stamp(ms)| ensures MatchAt(line, j).None? {
      SignLineOnlyAtStamp(ms, vId, aId, word, tid, j);
    }
  }

  /** A match at `n` with none before it is what `search` returns. */
  lemma SearchFirstAt(s: string, n: nat, x: Approval)
    requires n <= |s| && MatchAt(s, n) == Some(x)
    requires forall j :: 0 <= j < n ==> MatchAt(s, j).None?
    ensures Search(s) == Some(x)
  {
    FindFromSkip(s, 0, n);
  }

  /** A text without a match anywhere is not recognised. */
  lemma SearchNone(s: string)
    requires forall j :: 0 <= j <= |s| ==> MatchAt(s, j).None?
    ensures Search(s) == None
  {
    FindFromSkip(s, 0, |s|);
  }

  /** A "sign task finished" line is never recognised. */
  lemma FinishLineIgnored(e: Event)
    requires e.Finished?
    ensures Search(Render(e)) == None
  {
    var ms, vId, aId, tid := e.ms, e.vId, e.aId, e.tid;
    var line := LogLine(ms, "BlindSign", SignMessage(vId, aId, "finished", tid));
    var n := |Stamp(ms)|;
    ScanSignLine(ms, vId, aId, "finished", tid);
    TailDecides(tid);
    forall j | 0 <= j <= |line| ensures MatchAt(line, j).None? {
      if j != n {
        SignLineOnlyAtStamp(ms, vId, aId, "finished", tid, j);
      }
    }
    SearchNone(line);
    assert Render(e) == line;
  }

  /** A "Pipeline" line is never recognised. */
  lemma PipelineLineIgnored(e: Event)
    requires e.Prepared?
    ensures Search(Render(e)) == None
  {
    var ms, vId, tid := e.ms, e.vId, e.tid;
    var msg := PrepareMessage(vId, tid);
    var line := Render(e);
    var st := Stamp(ms);
    RegroupColon(st, "Pipeline", msg);
    assert line == st + "Pipeline" + ":" + (" " + msg + "\n");
    NotInStamp(ms, ':');
    PrepareMessageColonFree(vId, tid);
    assert ':' !in "Pipeline";
    forall j | 0 <= j <= |line| ensures MatchAt(line, j).None? {
      if j + 1 == |st| {
        assert line[j] == ' ';
        assert line[j..][0] != VoterTag[0];
      } else {
        TagNeedsColon(st + "Pipeline", " " + msg + "\n", j);
      }
    }
    SearchNone(line);
  }

  /** What the pattern makes of any one logged event. */
  lemma SearchRender(e: Event)
    ensures Search(Render(e)) == if e.Started? then Some(Approval(e.vId + 1, e.aId + 1)) else None
  {
    if e.Started? {
      StartLineRecognised(e);
    } else if e.Finished? {
      FinishLineIgnored(e);
    } else {
      PipelineLineIgnored(e);
    }
  }

  /** The lines the events write, in the order the log received them. */
  function RenderAll(events: seq<Event>): (r: seq<string>)
    ensures |r| == |events|
  {
    seq(|events|, k requires 0 <= k < |events| => Render(events[k]))
  }

  /** threads.txt after the events were logged in this order. */
  function Log(events: seq<Event>): string {
    Concat(RenderAll(events))
  }

  /** Some logged event is the start of voter `v`'s sign task at admin `a`, ids 1-based. */
  ghost predicate StartedFor(events: seq<Event>, v: nat, a: nat) {
    exists k :: 0 <= k < |events| && events[k].Started?
                && events[k].vId + 1 == v && events[k].aId + 1 == a
  }

  /** The reporter reads back exactly the lines that were logged. */
  lemma ReadLog(events: seq<Event>)
    ensures ReadLines(Log(events)) == RenderAll(events)
  {
    var lines := RenderAll(events);
    forall k | 0 <= k < |lines| ensures IsLine(lines[k]) {
      RenderIsLine(events[k]);
    }
    ReadLinesOfLog(lines);
  }

  lemma MatchedIsStarted(events: seq<Event>, v: nat, a: nat)
    requires Matched(RenderAll(events), v, a)
    ensures StartedFor(events, v, a)
  {
    var lines := RenderAll(events);
    var k :| 0 <= k < |lines| && Search(lines[k]) == Some(Approval(v, a));
    SearchRender(events[k]);
  }

  lemma StartedIsMatched(events: seq<Event>, v: nat, a: nat)
    requires StartedFor(events, v, a)
    ensures Matched(RenderAll(events), v, a)
  {
    var lines := RenderAll(events);
    var k :| 0 <= k < |events| && events[k].Started?
              && events[k].vId + 1 == v && events[k].aId + 1 == a;
    SearchRender(events[k]);
    assert Search(lines[k]) == Some(Approval(v, a));
  }

  /**
   * Whatever order the threads logged in, the reporter's index holds admin `a`
   * for voter `v` exactly when a started event for (v - 1, a - 1) was logged;
   * finished and pipeline events contribute nothing.
   */
  lemma LogIndexMeaning(events: seq<Event>, v: nat, a: nat)
    ensures a in Lookup(BuildIndex(ReadLines(Log(events))), v) <==> StartedFor(events, v, a)
  {
    ReadLog(events);
    BuildIndexAt(RenderAll(events), v, a);
    if Matched(RenderAll(events), v, a) {
      MatchedIsStarted(events, v, a);
    }
    if StartedFor(events, v, a) {
      StartedIsMatched(events, v, a);
    }
  }
}
