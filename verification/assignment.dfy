/**
 * Which admins sign for which voter. v1.cpp shuffles the admin indices once per
 * voter and gives that voter the first `t` of them, as one flat task list;
 * v9.cpp shuffles them per voter and takes admin `allAdmins[j % ne]` for
 * signature `j`. The shuffles are inputs: any permutation of 0..ne-1.
 */
module Assignment {
  import opened Arith

  /** `p` is an ordering of the admin indices 0..n-1, as `std::shuffle` leaves them. */
  predicate IsPerm(p: seq<nat>, n: nat) {
    && |p| == n
    && (forall i :: 0 <= i < n ==> p[i] < n)
    && (forall i, j :: 0 <= i < j < n ==> p[i] != p[j])
  }

  /** One blind-signature job of v1.cpp. */
  datatype SignTask = SignTask(voterId: nat, indexInVoter: nat, adminId: nat)

  /** Every voter's shuffled list is long enough to take `t` admins from. */
  predicate Enough(perms: seq<seq<nat>>, n: nat, t: nat) {
    n <= |perms| && forall i :: 0 <= i < n ==> t <= |perms[i]|
  }

  /** Voter `i`'s tasks, signature 0 to t-1. */
  function Block(i: nat, t: nat, p: seq<nat>): (r: seq<SignTask>)
    requires t <= |p|
    ensures |r| == t
  {
    seq(t, j requires 0 <= j < t => SignTask(i, j, p[j]))
  }

  /** The blocks of voters 0..n-1, in voter order. */
  function Schedule(n: nat, t: nat, perms: seq<seq<nat>>): seq<SignTask>
    requires Enough(perms, n, t)
  {
    if n == 0 then [] else Schedule(n - 1, t, perms) + Block(n - 1, t, perms[n - 1])
  }

  /**
   * The nested loops of v1.cpp that fill the task list; `perms[i]` is the
   * admin order after voter `i`'s shuffle.
   */
  method BuildTasks(voterCount: nat, t: nat, ne: nat, perms: seq<seq<nat>>) returns (tasks: seq<SignTask>)
    requires |perms| == voterCount
    requires forall i :: 0 <= i < voterCount ==> IsPerm(perms[i], ne)
    requires t <= ne
    ensures Enough(perms, voterCount, t) && tasks == Schedule(voterCount, t, perms)
  {
    tasks := [];
    var i := 0;
    while i < voterCount
      invariant 0 <= i <= voterCount
      invariant Enough(perms, i, t) && tasks == Schedule(i, t, perms)
    {
      assert |perms[i]| == ne;
      var j := 0;
      while j < t
        invariant 0 <= j <= t
        invariant tasks == Schedule(i, t, perms) + Block(i, t, perms[i])[..j]
      {
        tasks := tasks + [SignTask(i, j, perms[i][j])];
        j := j + 1;
      }
      assert Block(i, t, perms[i])[..t] == Block(i, t, perms[i]);
      i := i + 1;
    }
  }

  /** Position of voter `i`'s signature `j` in a list of blocks of `t`. */
  lemma SlotBound(i: nat, j: nat, n: nat, t: nat)
    requires i < n && j < t
    ensures i * t + j < n * t
  {
    assert (i + 1) * t <= n * t;
  }

  /** The list has `n * t` tasks. */
  lemma {:induction false} ScheduleLength(n: nat, t: nat, perms: seq<seq<nat>>)
    requires Enough(perms, n, t)
    ensures |Schedule(n, t, perms)| == n * t
    decreases n
  {
    if n > 0 {
      ScheduleLength(n - 1, t, perms);
      assert (n - 1) * t + t == n * t;
    }
  }

  /** Task `i * t + j` is signature `j` of voter `i`, to be signed by admin `perms[i][j]`. */
  lemma {:induction false} ScheduleAtSlot(n: nat, t: nat, perms: seq<seq<nat>>, i: nat, j: nat)
    requires Enough(perms, n, t) && i < n && j < t
    ensures i * t + j < |Schedule(n, t, perms)|
    ensures Schedule(n, t, perms)[i * t + j] == SignTask(i, j, perms[i][j])
    decreases n
  {
    var s, head := Schedule(n, t, perms), Schedule(n - 1, t, perms);
    ScheduleLength(n, t, perms);
    ScheduleLength(n - 1, t, perms);
    SlotBound(i, j, n, t);
    assert s == head + Block(n - 1, t, perms[n - 1]);
    if i < n - 1 {
      ScheduleAtSlot(n - 1, t, perms, i, j);
      assert s[i * t + j] == head[i * t + j];
    } else {
      assert i * t == |head|;
      assert s[i * t + j] == Block(n - 1, t, perms[n - 1])[j];
    }
  }

  /** Read the other way: task `k` belongs to voter `k / t` as its signature `k % t`. */
  lemma TaskAt(n: nat, t: nat, perms: seq<seq<nat>>, k: nat)
    requires Enough(perms, n, t)
    requires k < |Schedule(n, t, perms)|
    ensures t > 0 && k / t < n && k % t < t
    ensures Schedule(n, t, perms)[k] == SignTask(k / t, k % t, perms[k / t][k % t])
  {
    ScheduleLength(n, t, perms);
    assert t > 0;
    var i, j := k / t, k % t;
    assert k == i * t + j;
    MulLeftCancel(i, n, t);
    ScheduleAtSlot(n, t, perms, i, j);
  }

  /**
   * Each voter's signature slot is written by exactly one task: two tasks for
   * the same voter and the same slot are the same task.
   */
  lemma SlotsUnique(n: nat, t: nat, perms: seq<seq<nat>>, k1: nat, k2: nat)
    requires Enough(perms, n, t)
    requires k1 < |Schedule(n, t, perms)| && k2 < |Schedule(n, t, perms)|
    requires Schedule(n, t, perms)[k1].voterId == Schedule(n, t, perms)[k2].voterId
    requires Schedule(n, t, perms)[k1].indexInVoter == Schedule(n, t, perms)[k2].indexInVoter
    ensures k1 == k2
  {
    TaskAt(n, t, perms, k1);
    TaskAt(n, t, perms, k2);
    assert k1 == (k1 / t) * t + k1 % t;
    assert k2 == (k2 / t) * t + k2 % t;
  }

  /**
   * With t <= ne, a voter's t tasks go to t different admins, each a valid
   * admin index.
   */
  lemma VoterAdminsDistinct(n: nat, t: nat, ne: nat, perms: seq<seq<nat>>, i: nat, j1: nat, j2: nat)
    requires |perms| == n && t <= ne
    requires forall v :: 0 <= v < n ==> IsPerm(perms[v], ne)
    requires i < n && j1 < t && j2 < t
    ensures Enough(perms, n, t)
    ensures i * t + j1 < |Schedule(n, t, perms)| && i * t + j2 < |Schedule(n, t, perms)|
    ensures Schedule(n, t, perms)[i * t + j1].adminId < ne
    ensures j1 != j2 ==> Schedule(n, t, perms)[i * t + j1].adminId != Schedule(n, t, perms)[i * t + j2].adminId
  {
    assert Enough(perms, n, t);
    ScheduleAtSlot(n, t, perms, i, j1);
    ScheduleAtSlot(n, t, perms, i, j2);
    assert IsPerm(perms[i], ne);
  }

  // ---------------------------------------------------------------------------
  // v9.cpp

  /**
   * The admins of one voter's `t` signatures in v9.cpp: signature `j` goes to
   * `allAdmins[j % ne]`. `ne == 0` with signatures to make divides by zero, so
   * the source needs an admin whenever `t > 0`.
   */
  method ChooseAdmins(allAdmins: seq<nat>, t: nat) returns (admins: seq<nat>)
    requires t == 0 || |allAdmins| > 0
    ensures |admins| == t
    ensures forall j :: 0 <= j < t ==> admins[j] == allAdmins[j % |allAdmins|]
  {
    admins := [];
    var j := 0;
    while j < t
      invariant 0 <= j <= t
      invariant |admins| == j
      invariant forall j' :: 0 <= j' < j ==> admins[j'] == allAdmins[j' % |allAdmins|]
    {
      admins := admins + [allAdmins[j % |allAdmins|]];
      j := j + 1;
    }
  }

  /** The admin a v9 signature goes to: always a valid admin index. */
  function AdminFor(allAdmins: seq<nat>, ne: nat, j: nat): (a: nat)
    requires IsPerm(allAdmins, ne) && ne > 0
    ensures a < ne
  {
    allAdmins[j % ne]
  }

  /** With t <= ne the t chosen admins are pairwise different. */
  lemma ChosenDistinct(allAdmins: seq<nat>, ne: nat, j1: nat, j2: nat)
    requires IsPerm(allAdmins, ne) && ne > 0
    requires j1 < ne && j2 < ne && j1 != j2
    ensures AdminFor(allAdmins, ne, j1) != AdminFor(allAdmins, ne, j2)
  {
    ModSmall(j1, ne);
    ModSmall(j2, ne);
  }

  /** With t > ne the choice wraps round: signature j + ne goes where signature j went. */
  lemma ChosenCyclic(allAdmins: seq<nat>, ne: nat, j: nat)
    requires IsPerm(allAdmins, ne) && ne > 0
    ensures AdminFor(allAdmins, ne, j + ne) == AdminFor(allAdmins, ne, j)
  {
    ModAddMultiple(j, 1, ne);
  }
}
