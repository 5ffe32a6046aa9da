/**
 * The table parse_threads.py prints: a header naming every admin column and one
 * row per voter id from 1 to the largest one seen, with "Yes" where that admin's
 * sign task started for that voter and "-" elsewhere.
 */
module Report {
  import opened Outcome
  import opened Decimal
  import opened Fields
  import opened Pattern
  import opened Approvals

  /** `max(approvals.keys())` raises ValueError when no line matched. */
  datatype ReportError = NoApprovals

  /** The column separator of every printed line. */
  const Sep: string := " | "

  /** Every non-empty finite set of ids has a largest element. */
  lemma {:induction false} HasMax(s: set<nat>)
    requires s != {}
    ensures exists m :: m in s && forall x :: x in s ==> x <= m
    decreases s
  {
    var y :| y in s;
    if s != {y} {
      HasMax(s - {y});
      var m :| m in s - {y} && forall x :: x in s - {y} ==> x <= m;
      var top := if m < y then y else m;
      forall x | x in s ensures x <= top {
        if x != y {
          assert x in s - {y};
        }
      }
    } else {
      assert forall x :: x in s ==> x <= y;
    }
  }

  /** `max` of a non-empty set of ids. */
  function SetMax(s: set<nat>): (r: nat)
    requires s != {}
    ensures r in s && forall x :: x in s ==> x <= r
  {
    HasMax(s);
    var m :| m in s && forall x :: x in s ==> x <= m;
    m
  }

  /** `max_voter`: the largest voter id in the index. */
  function MaxVoter(idx: Index): (r: nat)
    requires idx != map[]
    ensures r in idx && forall v :: v in idx ==> v <= r
  {
    SetMax(idx.Keys)
  }

  /** `max_admin`: the largest admin id over all voters, 0 for an empty index. */
  function MaxAdmin(idx: Index): (r: nat)
    requires NonEmptyEntries(idx)
    ensures forall v, a :: a in Lookup(idx, v) ==> a <= r
    ensures idx != map[] ==> exists v :: v in idx && r in idx[v]
  {
    if idx == map[] then 0
    else
      var tops := set v | v in idx :: SetMax(idx[v]);
      var w :| w in idx;
      assert SetMax(idx[w]) in tops;
      var r := SetMax(tops);
      assert forall v, a :: a in Lookup(idx, v) ==> a <= r by {
        forall v, a | a in Lookup(idx, v) ensures a <= r {
          assert SetMax(idx[v]) in tops;
        }
      }
      r
  }

  /** The header cells: "Voter", then "Admin 1" to "Admin maxAdmin". */
  function HeaderCells(maxAdmin: nat): (r: seq<string>)
    ensures |r| == maxAdmin + 1
  {
    ["Voter"] + seq(maxAdmin, i requires 0 <= i => "Admin " + NatToString(i + 1))
  }

  /** The cells of voter `v`'s row: its id, then one mark per admin column. */
  function RowCells(idx: Index, v: nat, maxAdmin: nat): (r: seq<string>)
    ensures |r| == maxAdmin + 1
  {
    [NatToString(v)] + seq(maxAdmin, i requires 0 <= i => if i + 1 in Lookup(idx, v) then "Yes" else "-")
  }

  /** The printed lines, header first, for a non-empty index. */
  function Table(idx: Index): (r: seq<string>)
    requires idx != map[] && NonEmptyEntries(idx)
    ensures |r| == MaxVoter(idx) + 1
  {
    var ma := MaxAdmin(idx);
    [Join(HeaderCells(ma), Sep)] + seq(MaxVoter(idx), i requires 0 <= i => Join(RowCells(idx, i + 1, ma), Sep))
  }

  /** The whole script: index the lines, then print the table or fail on an empty index. */
  function Report(lines: seq<string>): (r: Result<seq<string>, ReportError>)
    ensures r.Failure? <==> BuildIndex(lines) == map[]
    ensures r.Success? ==> |r.value| == MaxVoter(BuildIndex(lines)) + 1
  {
    var idx := BuildIndex(lines);
    if idx == map[] then Failure(NoApprovals) else Success(Table(idx))
  }

  /** No cell of the table contains the '|' of the separator. */
  lemma NoBarInNumber(n: nat)
    ensures '|' !in NatToString(n)
  {
    var s := NatToString(n);
    forall i | 0 <= i < |s| ensures s[i] != '|' {
      assert IsDigit(s[i]);
    }
  }

  lemma HeaderSeparable(maxAdmin: nat)
    ensures Separable(HeaderCells(maxAdmin), Sep, 1)
  {
    var h := HeaderCells(maxAdmin);
    forall i | 0 <= i < |h| ensures '|' !in h[i] {
      if i > 0 {
        NoBarInNumber(i);
        assert h[i] == "Admin " + NatToString(i);
      }
    }
  }

  lemma RowSeparable(idx: Index, v: nat, maxAdmin: nat)
    ensures Separable(RowCells(idx, v, maxAdmin), Sep, 1)
  {
    NoBarInNumber(v);
  }

  /** The report fails exactly when no line of the log matched the pattern. */
  lemma ReportFailsIffNoMatch(lines: seq<string>)
    ensures Report(lines).Failure? <==> forall k :: 0 <= k < |lines| ==> Search(lines[k]).None?
  {
    BuildIndexMeaning(lines);
    var idx := BuildIndex(lines);
    if idx != map[] {
      var v :| v in idx;
      var a :| a in idx[v];
      assert Matched(lines, v, a);
    }
    if exists k :: 0 <= k < |lines| && Search(lines[k]).Some? {
      var k :| 0 <= k < |lines| && Search(lines[k]).Some?;
      var m := Search(lines[k]).value;
      assert Matched(lines, m.voter, m.admin);
    }
  }

  /** Some line matched with voter id `v`. */
  ghost predicate VoterSeen(lines: seq<string>, v: nat) {
    exists a :: Matched(lines, v, a)
  }

  /** Some line matched with admin id `a`. */
  ghost predicate AdminSeen(lines: seq<string>, a: nat) {
    exists v :: Matched(lines, v, a)
  }

  /** The rows run from voter 1 to the largest voter id any line matched with. */
  lemma ReportRows(lines: seq<string>)
    requires Report(lines).Success?
    ensures VoterSeen(lines, |Report(lines).value| - 1)
    ensures forall v: nat, a: nat :: Matched(lines, v, a) ==> v < |Report(lines).value|
  {
    var idx := BuildIndex(lines);
    var mv := MaxVoter(idx);
    var a :| a in idx[mv];
    BuildIndexAt(lines, mv, a);
    forall v: nat, a: nat | Matched(lines, v, a) ensures v <= mv {
      BuildIndexAt(lines, v, a);
    }
  }

  /** The printed header line, split at the separators, is the header cells. */
  lemma HeaderLine(lines: seq<string>)
    requires Report(lines).Success?
    ensures Split(Report(lines).value[0], Sep) == HeaderCells(MaxAdmin(BuildIndex(lines)))
  {
    var ma := MaxAdmin(BuildIndex(lines));
    assert Report(lines).value[0] == Join(HeaderCells(ma), Sep);
    HeaderSeparable(ma);
    SplitJoin(HeaderCells(ma), Sep, 1);
  }

  /** Printed row `v`, split at the separators, is that voter's cells. */
  lemma RowLine(lines: seq<string>, v: nat)
    requires Report(lines).Success?
    requires 1 <= v < |Report(lines).value|
    ensures var idx := BuildIndex(lines);
      Split(Report(lines).value[v], Sep) == RowCells(idx, v, MaxAdmin(idx))
  {
    var idx := BuildIndex(lines);
    var ma := MaxAdmin(idx);
    assert Report(lines).value[v] == Join(RowCells(idx, v, ma), Sep);
    RowSeparable(idx, v, ma);
    SplitJoin(RowCells(idx, v, ma), Sep, 1);
  }

  /** The header cells name "Voter" and then the admins in order. */
  lemma HeaderCellsNames(ma: nat)
    ensures var h := HeaderCells(ma);
      && h[0] == "Voter"
      && (forall a :: 1 <= a < |h| ==> h[a] == "Admin " + NatToString(a))
  {
  }

  /** The largest admin id is one some line matched with, and bounds all of them. */
  lemma MaxAdminMatched(lines: seq<string>)
    requires BuildIndex(lines) != map[]
    ensures AdminSeen(lines, MaxAdmin(BuildIndex(lines)))
    ensures forall v: nat, a: nat :: Matched(lines, v, a) ==> a <= MaxAdmin(BuildIndex(lines))
  {
    var idx := BuildIndex(lines);
    var ma := MaxAdmin(idx);
    var w :| w in idx && ma in idx[w];
    BuildIndexAt(lines, w, ma);
    forall v: nat, a: nat | Matched(lines, v, a) ensures a <= ma {
      BuildIndexAt(lines, v, a);
    }
  }

  /**
   * The header starts with "Voter" and names one "Admin a" column for each a
   * from 1 to the largest admin id any line matched with.
   */
  lemma ReportHeader(lines: seq<string>)
    requires Report(lines).Success?
    ensures var h := Split(Report(lines).value[0], Sep);
      && h[0] == "Voter"
      && (forall a :: 1 <= a < |h| ==> h[a] == "Admin " + NatToString(a))
      && AdminSeen(lines, |h| - 1)
      && (forall v: nat, a: nat :: Matched(lines, v, a) ==> a < |h|)
  {
    var ma := MaxAdmin(BuildIndex(lines));
    HeaderLine(lines);
    HeaderCellsNames(ma);
    MaxAdminMatched(lines);
  }

  /** A row's cells: the voter id, then "Yes" or "-" for each admin column. */
  lemma RowCellsMarks(idx: Index, v: nat, ma: nat, a: nat)
    requires 1 <= a <= ma
    ensures var row := RowCells(idx, v, ma);
      && row[0] == NatToString(v)
      && row[a] == (if a in Lookup(idx, v) then "Yes" else "-")
  {
  }

  /**
   * Row v (1 <= v <= largest voter id) has as many cells as the header; it
   * starts with v and holds "Yes" in column a exactly when a line matched with
   * voter v and admin a, and "-" otherwise.
   */
  lemma ReportCell(lines: seq<string>, v: nat, a: nat)
    requires Report(lines).Success?
    requires 1 <= v < |Report(lines).value|
    requires 1 <= a < |Split(Report(lines).value[0], Sep)|
    ensures var out := Report(lines).value;
      var row := Split(out[v], Sep);
      && |row| == |Split(out[0], Sep)|
      && row[0] == NatToString(v)
      && row[a] == (if Matched(lines, v, a) then "Yes" else "-")
  {
    var idx := BuildIndex(lines);
    var ma := MaxAdmin(idx);
    HeaderLine(lines);
    RowLine(lines, v);
    BuildIndexAt(lines, v, a);
    RowCellsMarks(idx, v, ma, a);
  }
}
