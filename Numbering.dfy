/** Active-task numbering. The number a user types names the n-th record
    whose `active` flag is non-zero, counted from 1 in stored order; done
    records keep their numbers and soft-deleted records have none. The view,
    completion and deletion all count this way. */
module Numbering {
  import opened TaskCodec

  /** `!tasks[i].active` skips a record: any non-zero flag counts as active. */
  predicate IsActive(t: Task) { t.active != 0 }

  /** How many records of ts carry a number. */
  function ActiveCount(ts: seq<Task>): (c: nat)
    ensures c <= |ts|
  {
    if ts == [] then 0 else (if IsActive(ts[0]) then 1 else 0) + ActiveCount(ts[1..])
  }

  /** The storage position that user number n names, or None when n is out
      of range. */
  function Resolve(ts: seq<Task>, n: int): (r: Option<nat>)
    ensures r.Some? <==> 1 <= n <= ActiveCount(ts)
    ensures r.Some? ==>
      r.value < |ts| && IsActive(ts[r.value]) && ActiveCount(ts[..r.value]) == n - 1
  {
    if ts == [] then None
    else if IsActive(ts[0]) && n == 1 then Some(0)
    else
      var r := Resolve(ts[1..], if IsActive(ts[0]) then n - 1 else n);
      if r.None? then None
      else
        assert ts[..r.value + 1][1..] == ts[1..][..r.value];
        Some(r.value + 1)
  }

  /** Complete: the record at p gets `done = 1`; nothing else changes. */
  function MarkDone(ts: seq<Task>, p: nat): (us: seq<Task>)
    requires p < |ts|
    ensures |us| == |ts| && us[p].done == 1
    ensures us[p].active == ts[p].active && us[p].text == ts[p].text
    ensures forall i :: 0 <= i < |ts| && i != p ==> us[i] == ts[i]
  {
    ts[p := ts[p].(done := 1)]
  }

  /** Soft delete: the record at p gets `active = 0` and stays in its slot. */
  function Deactivate(ts: seq<Task>, p: nat): (us: seq<Task>)
    requires p < |ts|
    ensures |us| == |ts| && us[p].active == 0
    ensures us[p].done == ts[p].done && us[p].text == ts[p].text
    ensures forall i :: 0 <= i < |ts| && i != p ==> us[i] == ts[i]
  {
    ts[p := ts[p].(active := 0)]
  }

  // ---------------------------------------------------------------------
  // Counting
  // ---------------------------------------------------------------------

  lemma {:induction false} ActiveCountAppend(a: seq<Task>, b: seq<Task>)
    ensures ActiveCount(a + b) == ActiveCount(a) + ActiveCount(b)
  {
    if a == [] {
      assert a + b == b;
    } else {
      assert (a + b)[1..] == a[1..] + b;
      ActiveCountAppend(a[1..], b);
    }
  }

  /** The counter of the resolve loops: after looking at record i the count
      of active records seen so far goes up by one exactly when it is active. */
  lemma PrefixCountStep(ts: seq<Task>, i: nat)
    requires i < |ts|
    ensures ActiveCount(ts[..i + 1]) == ActiveCount(ts[..i]) + (if IsActive(ts[i]) then 1 else 0)
  {
    assert ts[..i + 1] == ts[..i] + [ts[i]];
    ActiveCountAppend(ts[..i], [ts[i]]);
  }

  /** Counting the active records before slot p from the second record on. */
  lemma PrefixCountTail(ts: seq<Task>, p: nat)
    requires 0 < p <= |ts|
    ensures ActiveCount(ts[..p]) == (if IsActive(ts[0]) then 1 else 0) + ActiveCount(ts[1..][..p - 1])
  {
    assert ts[..p][1..] == ts[1..][..p - 1];
  }

  // ---------------------------------------------------------------------
  // Resolution
  // ---------------------------------------------------------------------

  /** An active record with n - 1 active records before it is the one that
      number n resolves to: the resolution has exactly one answer. */
  lemma {:induction false} ResolveUnique(ts: seq<Task>, n: int, p: nat)
    requires p < |ts| && IsActive(ts[p]) && ActiveCount(ts[..p]) == n - 1
    ensures Resolve(ts, n) == Some(p)
  {
    if p == 0 {
      assert ts[..p] == [];
    } else {
      PrefixCountTail(ts, p);
      ResolveUnique(ts[1..], if IsActive(ts[0]) then n - 1 else n, p - 1);
      ResolveTail(ts, n, p - 1);
    }
  }

  /** Resolution past the first record: a number that the first record does
      not take is looked up in the rest, one lower if the first is active. */
  lemma ResolveTail(ts: seq<Task>, n: int, q: nat)
    requires |ts| > 0 && !(IsActive(ts[0]) && n == 1)
    requires Resolve(ts[1..], if IsActive(ts[0]) then n - 1 else n) == Some(q)
    ensures Resolve(ts, n) == Some(q + 1)
  {
  }

  /** Numbering depends on the `active` flags alone: two collections whose
      flags agree slot by slot number their records the same way. */
  lemma {:induction false} SameActivity(ts: seq<Task>, us: seq<Task>)
    requires |ts| == |us|
    requires forall i :: 0 <= i < |ts| ==> IsActive(ts[i]) == IsActive(us[i])
    ensures ActiveCount(ts) == ActiveCount(us)
    ensures forall n :: Resolve(ts, n) == Resolve(us, n)
  {
    if ts != [] {
      SameActivity(ts[1..], us[1..]);
    }
  }

  /** Completing a task changes no number: `done` plays no part in the
      count, so every number resolves to the same record as before and the
      count of active records is the same. */
  lemma MarkDoneKeepsNumbering(ts: seq<Task>, p: nat)
    requires p < |ts|
    ensures ActiveCount(MarkDone(ts, p)) == ActiveCount(ts)
    ensures forall k :: Resolve(MarkDone(ts, p), k) == Resolve(ts, k)
  {
    SameActivity(MarkDone(ts, p), ts);
  }

  /** Completing number n a second time hits the same record and changes
      nothing more: completion sets the flag, it does not toggle it. */
  lemma CompleteAgain(ts: seq<Task>, n: int)
    requires 1 <= n <= ActiveCount(ts)
    ensures var p := Resolve(ts, n).value;
      Resolve(MarkDone(ts, p), n) == Some(p) && MarkDone(MarkDone(ts, p), p) == MarkDone(ts, p)
  {
    MarkDoneKeepsNumbering(ts, Resolve(ts, n).value);
  }

  // ---------------------------------------------------------------------
  // Soft delete
  // ---------------------------------------------------------------------

  /** The count splits around any slot. */
  lemma SplitCount(ts: seq<Task>, p: nat)
    requires p < |ts|
    ensures ActiveCount(ts) ==
      ActiveCount(ts[..p]) + (if IsActive(ts[p]) then 1 else 0) + ActiveCount(ts[p + 1..])
  {
    assert ts == ts[..p + 1] + ts[p + 1..];
    ActiveCountAppend(ts[..p + 1], ts[p + 1..]);
    PrefixCountStep(ts, p);
  }

  /** Soft delete removes one record from the count. */
  lemma DeactivateCount(ts: seq<Task>, p: nat)
    requires p < |ts| && IsActive(ts[p])
    ensures ActiveCount(Deactivate(ts, p)) == ActiveCount(ts) - 1
  {
    var us := Deactivate(ts, p);
    SplitCount(ts, p);
    SplitCount(us, p);
    assert us[..p] == ts[..p];
    assert us[p + 1..] == ts[p + 1..];
  }

  /** Fewer active records before one slot than before another puts the
      first slot first. */
  lemma PrefixOrder(ts: seq<Task>, p: nat, q: nat)
    requires p <= |ts| && q <= |ts|
    ensures ActiveCount(ts[..p]) < ActiveCount(ts[..q]) ==> p < q
  {
    if q <= p {
      assert ts[..p] == ts[..q] + ts[q..p];
      ActiveCountAppend(ts[..q], ts[q..p]);
    }
  }

  /** Numbers up to the count before the deleted slot resolve as before. */
  lemma DeactivateBelow(ts: seq<Task>, p: nat, k: int)
    requires p < |ts| && IsActive(ts[p]) && k <= ActiveCount(ts[..p])
    ensures Resolve(Deactivate(ts, p), k) == Resolve(ts, k)
  {
    var us := Deactivate(ts, p);
    DeactivateCount(ts, p);
    SplitCount(ts, p);
    var r := Resolve(ts, k);
    if r.Some? {
      var q := r.value;
      PrefixOrder(ts, q, p);
      assert us[..q] == ts[..q];
      ResolveUnique(us, k, q);
    }
  }

  /** Numbers past the count before the deleted slot move down by one. */
  lemma DeactivateAbove(ts: seq<Task>, p: nat, k: int)
    requires p < |ts| && IsActive(ts[p]) && ActiveCount(ts[..p]) < k
    ensures Resolve(Deactivate(ts, p), k) == Resolve(ts, k + 1)
  {
    var us := Deactivate(ts, p);
    DeactivateCount(ts, p);
    var r := Resolve(ts, k + 1);
    if r.Some? {
      var q := r.value;
      PrefixOrder(ts, p, q);
      assert us[..q] == Deactivate(ts[..q], p);
      DeactivateCount(ts[..q], p);
      ResolveUnique(us, k, q);
    }
  }

  /** Soft-deleting number n keeps the record in its slot with its text and
      done flag, takes exactly one record out of the numbering, leaves the
      numbers below n alone and moves every higher number down by one. */
  lemma DeactivateShiftsNumbering(ts: seq<Task>, n: int)
    requires 1 <= n <= ActiveCount(ts)
    ensures var p := Resolve(ts, n).value; var us := Deactivate(ts, p);
      |us| == |ts| && !IsActive(us[p]) &&
      us[p].done == ts[p].done && us[p].text == ts[p].text &&
      ActiveCount(us) == ActiveCount(ts) - 1 &&
      (forall k :: k < n ==> Resolve(us, k) == Resolve(ts, k)) &&
      (forall k :: k >= n ==> Resolve(us, k) == Resolve(ts, k + 1))
  {
    var p := Resolve(ts, n).value;
    DeactivateCount(ts, p);
    forall k | k < n ensures Resolve(Deactivate(ts, p), k) == Resolve(ts, k) {
      DeactivateBelow(ts, p, k);
    }
    forall k | k >= n ensures Resolve(Deactivate(ts, p), k) == Resolve(ts, k + 1) {
      DeactivateAbove(ts, p, k);
    }
  }
}
