/**
 * The approval index of parse_threads.py: a `defaultdict(set)` from voter id to
 * the admin ids whose "sign task started" line was found for that voter.
 */
module Approvals {
  import opened Outcome
  import opened Pattern

  /** `approvals`: voter id to the set of admin ids seen for it. */
  type Index = map<nat, set<nat>>

  /** Reading `approvals[v]`: a voter never seen reads as the empty set. */
  function Lookup(idx: Index, v: nat): set<nat> {
    if v in idx then idx[v] else {}
  }

  /** Every key of the index holds at least one admin id. */
  predicate NonEmptyEntries(idx: Index) {
    forall v :: v in idx ==> idx[v] != {}
  }

  /** Some line of `lines` matches the pattern with exactly these two ids. */
  ghost predicate Matched(lines: seq<string>, v: nat, a: nat) {
    exists k :: 0 <= k < |lines| && Search(lines[k]) == Some(Approval(v, a))
  }

  /**
   * One pass of the loop body: a match adds its admin id to its voter's set and
   * touches nothing else; a line without a match leaves the index as it was.
   */
  function Step(idx: Index, line: string): (r: Index)
    ensures Search(line).None? ==> r == idx
    ensures Search(line).Some? ==>
      var m := Search(line).value;
      && r.Keys == idx.Keys + {m.voter}
      && Lookup(r, m.voter) == Lookup(idx, m.voter) + {m.admin}
      && (forall v :: v != m.voter ==> Lookup(r, v) == Lookup(idx, v))
  {
    match Search(line)
    case None => idx
    case Some(m) => idx[m.voter := Lookup(idx, m.voter) + {m.admin}]
  }

  /** After one step, `a` is recorded for `v` when it was before or the line matched with those ids. */
  lemma LookupStep(idx: Index, line: string, v: nat, a: nat)
    ensures a in Lookup(Step(idx, line), v) <==>
      a in Lookup(idx, v) || Search(line) == Some(Approval(v, a))
  {
  }

  /** The index after the loop over all lines, in file order. */
  function BuildIndex(lines: seq<string>): (r: Index)
    ensures NonEmptyEntries(r)
    decreases |lines|
  {
    if |lines| == 0 then map[]
    else Step(BuildIndex(lines[..|lines| - 1]), lines[|lines| - 1])
  }

  /** Splitting off the last line: a match is in the prefix or on that line. */
  lemma MatchedSnoc(lines: seq<string>, v: nat, a: nat)
    requires |lines| > 0
    ensures Matched(lines, v, a) <==>
      Matched(lines[..|lines| - 1], v, a) || Search(lines[|lines| - 1]) == Some(Approval(v, a))
  {
    var init := lines[..|lines| - 1];
    if Matched(lines, v, a) {
      var k :| 0 <= k < |lines| && Search(lines[k]) == Some(Approval(v, a));
      if k < |lines| - 1 {
        assert init[k] == lines[k];
      }
    }
    if Matched(init, v, a) {
      var k :| 0 <= k < |init| && Search(init[k]) == Some(Approval(v, a));
      assert lines[k] == init[k];
    }
  }

  /** The index holds admin `a` for voter `v` exactly when some line matched with those ids. */
  lemma {:induction false} BuildIndexLookup(lines: seq<string>)
    ensures forall v, a :: a in Lookup(BuildIndex(lines), v) <==> Matched(lines, v, a)
    decreases |lines|
  {
    if |lines| > 0 {
      BuildIndexLookup(lines[..|lines| - 1]);
      var init := BuildIndex(lines[..|lines| - 1]);
      forall v, a ensures a in Lookup(BuildIndex(lines), v) <==> Matched(lines, v, a) {
        LookupStep(init, lines[|lines| - 1], v, a);
        MatchedSnoc(lines, v, a);
      }
    }
  }

  /**
   * The index holds admin `a` for voter `v` exactly when some line matched with
   * those ids, and a voter is a key exactly when some line matched for it.
   */
  lemma BuildIndexMeaning(lines: seq<string>)
    ensures forall v, a :: a in Lookup(BuildIndex(lines), v) <==> Matched(lines, v, a)
    ensures forall v :: v in BuildIndex(lines) <==> exists a :: Matched(lines, v, a)
  {
    BuildIndexLookup(lines);
    var idx := BuildIndex(lines);
    forall v ensures v in idx <==> exists a :: Matched(lines, v, a) {
      if v in idx {
        var a :| a in idx[v];
        assert a in Lookup(idx, v);
      }
    }
  }

  /** A match in one log is a match in any log that contains all of its lines. */
  lemma MatchedCarries(l1: seq<string>, l2: seq<string>, v: nat, a: nat)
    requires forall k :: 0 <= k < |l1| ==> l1[k] in l2
    requires Matched(l1, v, a)
    ensures Matched(l2, v, a)
  {
    var k :| 0 <= k < |l1| && Search(l1[k]) == Some(Approval(v, a));
    var k2 :| 0 <= k2 < |l2| && l2[k2] == l1[k];
  }

  /** `BuildIndexMeaning` for one voter and one admin. */
  lemma BuildIndexAt(lines: seq<string>, v: nat, a: nat)
    ensures a in Lookup(BuildIndex(lines), v) <==> Matched(lines, v, a)
  {
    BuildIndexMeaning(lines);
  }

  /** Indexes without empty entries are equal when every lookup agrees. */
  lemma IndexExtensional(i1: Index, i2: Index)
    requires NonEmptyEntries(i1) && NonEmptyEntries(i2)
    requires forall v, a :: a in Lookup(i1, v) <==> a in Lookup(i2, v)
    ensures i1 == i2
  {
    forall v ensures v in i1 <==> v in i2 {
      if v in i1 {
        var a :| a in i1[v];
        assert a in Lookup(i2, v);
      }
      if v in i2 {
        var a :| a in i2[v];
        assert a in Lookup(i1, v);
      }
    }
    forall v | v in i1 ensures i1[v] == i2[v] {
      assert Lookup(i1, v) == i1[v] && Lookup(i2, v) == i2[v];
    }
  }

  /** Two logs with the same set of lines give the same index. */
  lemma SameLinesSameIndex(l1: seq<string>, l2: seq<string>)
    requires forall k :: 0 <= k < |l1| ==> l1[k] in l2
    requires forall k :: 0 <= k < |l2| ==> l2[k] in l1
    ensures BuildIndex(l1) == BuildIndex(l2)
  {
    var i1, i2 := BuildIndex(l1), BuildIndex(l2);
    forall v, a ensures a in Lookup(i1, v) <==> a in Lookup(i2, v) {
      BuildIndexAt(l1, v, a);
      BuildIndexAt(l2, v, a);
      if Matched(l1, v, a) {
        MatchedCarries(l1, l2, v, a);
      }
      if Matched(l2, v, a) {
        MatchedCarries(l2, l1, v, a);
      }
    }
    IndexExtensional(i1, i2);
  }

  /** Reading the log twice records nothing new. */
  lemma BuildIndexIdempotent(lines: seq<string>)
    ensures BuildIndex(lines + lines) == BuildIndex(lines)
  {
    var d := lines + lines;
    forall k | 0 <= k < |d| ensures d[k] in lines {
      if k < |lines| {
        assert d[k] == lines[k];
      } else {
        assert d[k] == lines[k - |lines|];
      }
    }
    forall k | 0 <= k < |lines| ensures lines[k] in d {
      assert d[k] == lines[k];
    }
    SameLinesSameIndex(d, lines);
  }
}
