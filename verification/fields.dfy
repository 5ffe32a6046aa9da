/**
 * Separator-joined text: Python's `sep.join(cells)` as the reporter prints its
 * table rows, and the same layout the proof string of the knowledge-of-
 * representation prover uses. `Split` is the inverse reading.
 */
module Fields {
  import opened Outcome

  /** `sep.join(cells)`. */
  function Join(cells: seq<string>, sep: string): string
    decreases |cells|
  {
    if |cells| == 0 then ""
    else if |cells| == 1 then cells[0]
    else cells[0] + sep + Join(cells[1..], sep)
  }

  /**
   * The pieces written one after another: the contents of threads.txt after
   * its lines were appended, or a string stream fed piece by piece.
   */
  function Concat(pieces: seq<string>): string
    decreases |pieces|
  {
    if |pieces| == 0 then "" else pieces[0] + Concat(pieces[1..])
  }

  /** Appending one more piece appends its text. */
  lemma {:induction false} ConcatSnoc(pieces: seq<string>, p: string)
    ensures Concat(pieces + [p]) == Concat(pieces) + p
    decreases |pieces|
  {
    if |pieces| > 0 {
      assert (pieces + [p])[1..] == pieces[1..] + [p];
      ConcatSnoc(pieces[1..], p);
    }
  }

  /** `sep` occurs in `s` starting at index `j`. */
  predicate SepAt(s: string, sep: string, j: nat) {
    j + |sep| <= |s| && s[j..j + |sep|] == sep
  }

  /** The first index from `i` on where `sep` occurs. */
  function FirstSep(s: string, sep: string, i: nat): (r: Option<nat>)
    requires i <= |s|
    ensures r.Some? ==> i <= r.value && SepAt(s, sep, r.value)
    ensures forall k :: i <= k && (r.None? || k < r.value) ==> !SepAt(s, sep, k)
    decreases |s| - i
  {
    if i + |sep| > |s| then None
    else if SepAt(s, sep, i) then Some(i)
    else FirstSep(s, sep, i + 1)
  }

  /** `s.split(sep)` for a non-empty separator: the pieces between occurrences, left to right. */
  function Split(s: string, sep: string): (r: seq<string>)
    requires |sep| > 0
    ensures |r| > 0
    decreases |s|
  {
    match FirstSep(s, sep, 0)
    case None => [s]
    case Some(j) => [s[..j]] + Split(s[j + |sep|..], sep)
  }

  /**
   * `sep[m]` is a marker: it occurs once in `sep` and in none of the cells, so
   * the separator cannot be confused with text inside or around a cell.
   */
  predicate Separable(cells: seq<string>, sep: string, m: nat) {
    && m < |sep|
    && (forall k :: 0 <= k < |sep| && k != m ==> sep[k] != sep[m])
    && (forall i :: 0 <= i < |cells| ==> sep[m] !in cells[i])
  }

  /** In `c + sep + rest` the first separator is the one right after `c`. */
  lemma FirstSepAfterCell(c: string, sep: string, rest: string, m: nat)
    requires Separable([c], sep, m)
    ensures FirstSep(c + sep + rest, sep, 0) == Some(|c|)
  {
    var s := c + sep + rest;
    assert SepAt(s, sep, |c|) by {
      assert s[|c|..|c| + |sep|] == sep;
    }
    forall j: nat | j < |c| ensures !SepAt(s, sep, j) {
      if j + |sep| <= |s| {
        assert s[j..j + |sep|][m] == s[j + m];
        if j + m < |c| {
          assert s[j + m] == [c][0][j + m];
        } else {
          assert s[j + m] == sep[j + m - |c|];
        }
      }
    }
  }

  /** A cell without the marker contains no separator at all. */
  lemma NoSepInCell(c: string, sep: string, m: nat)
    requires Separable([c], sep, m)
    ensures FirstSep(c, sep, 0).None?
  {
    forall j: nat ensures !SepAt(c, sep, j) {
      if j + |sep| <= |c| {
        assert c[j..j + |sep|][m] == [c][0][j + m];
      }
    }
  }

  /** Splitting `c + sep + rest` yields `c` and then the pieces of `rest`. */
  lemma SplitCons(c: string, sep: string, rest: string, m: nat)
    requires |sep| > 0 && Separable([c], sep, m)
    ensures Split(c + sep + rest, sep) == [c] + Split(rest, sep)
  {
    var s := c + sep + rest;
    FirstSepAfterCell(c, sep, rest, m);
    assert s[..|c|] == c;
    assert s[|c| + |sep|..] == rest;
  }

  /** The first cell alone, and the remaining cells, are separable with the same marker. */
  lemma SeparableParts(cells: seq<string>, sep: string, m: nat)
    requires |cells| > 0 && Separable(cells, sep, m)
    ensures Separable([cells[0]], sep, m) && Separable(cells[1..], sep, m)
  {
    assert forall i :: 0 <= i < 1 ==> [cells[0]][i] == cells[i];
    forall i | 0 <= i < |cells[1..]| ensures sep[m] !in cells[1..][i] {
      assert cells[1..][i] == cells[i + 1];
    }
  }

  /** Splitting a joined line gives back its cells. */
  lemma {:induction false} SplitJoin(cells: seq<string>, sep: string, m: nat)
    requires |cells| > 0 && |sep| > 0
    requires Separable(cells, sep, m)
    ensures Split(Join(cells, sep), sep) == cells
    decreases |cells|
  {
    SeparableParts(cells, sep, m);
    if |cells| == 1 {
      NoSepInCell(cells[0], sep, m);
    } else {
      SplitCons(cells[0], sep, Join(cells[1..], sep), m);
      SplitJoin(cells[1..], sep, m);
      assert cells == [cells[0]] + cells[1..];
    }
  }
}
