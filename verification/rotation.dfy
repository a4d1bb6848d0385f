/**
 The rotating scan with which a shard looks for a free slot: starting at
 `start`, it visits the slots `(start + o) % n` for `o = 0, 1, ..., n-1`
 and claims the first whose marker is clear. A marker is `true` while its
 slot is claimed.
 */
module Rotation {
  import opened Outcomes
  import opened Machine

  /** The slot visited at step `o` of a scan that starts at `start`. */
  function Rot(start: nat, o: nat, n: nat): nat
    requires 0 < n
  {
    (start + o) % n
  }

  /** The step at which a scan from `start` visits slot `j`. */
  function Offset(start: nat, j: nat, n: nat): (o: nat)
    requires 0 < n
  {
    (j - start) % n
  }

  /** Offset inverts Rot: each slot is visited at exactly one step below n. */
  lemma RotOffset(start: nat, j: nat, n: nat)
    requires j < n
    ensures Offset(start, j, n) < n
    ensures Rot(start, Offset(start, j, n), n) == j
  {
    var o := Offset(start, j, n);
    var k := (j - start) / n;
    var kn := k * n;
    assert j - start == kn + o;
    assert start + o == (-k) * n + j by {
      assert (-k) * n == -kn;
    }
    ModUnique(start + o, n, -k, j);
  }

  lemma OffsetRot(start: nat, o: nat, n: nat)
    requires o < n
    ensures Offset(start, Rot(start, o, n), n) == o
  {
    var j := Rot(start, o, n);
    var k := (start + o) / n;
    var kn := k * n;
    assert start + o == kn + j;
    assert j - start == (-k) * n + o by {
      assert (-k) * n == -kn;
    }
    ModUnique(j - start, n, -k, o);
  }

  /** Euclidean division has one quotient and one remainder. */
  lemma ModUnique(a: int, n: nat, q: int, r: int)
    requires 0 <= r < n && a == q * n + r
    ensures a % n == r
  {
    var q', r' := a / n, a % n;
    var d := q - q';
    assert d * n == r' - r;
    if d >= 1 {
      MulMonotone(1, d, n);
    } else if d <= -1 {
      MulMonotone(1, -d, n);
    }
  }

  /** A scan of n steps from any start visits every slot of `[0, n)` exactly
      once: every step lands on a slot, every slot is reached at some step,
      and no two steps reach the same slot. */
  lemma ScanVisitsEachSlotOnce(start: nat, n: nat)
    requires 0 < n
    ensures forall o :: 0 <= o < n ==> Rot(start, o, n) < n
    ensures forall j :: 0 <= j < n ==> Offset(start, j, n) < n && Rot(start, Offset(start, j, n), n) == j
    ensures forall o1, o2 :: 0 <= o1 < n && 0 <= o2 < n && Rot(start, o1, n) == Rot(start, o2, n) ==> o1 == o2
  {
    forall j | 0 <= j < n
      ensures Offset(start, j, n) < n && Rot(start, Offset(start, j, n), n) == j
    {
      RotOffset(start, j, n);
    }
    forall o1, o2 | 0 <= o1 < n && 0 <= o2 < n && Rot(start, o1, n) == Rot(start, o2, n)
      ensures o1 == o2
    {
      OffsetRot(start, o1, n);
      OffsetRot(start, o2, n);
    }
  }

  /** Every slot is claimed. */
  predicate AllClaimed(used: seq<bool>)
  {
    forall j :: 0 <= j < |used| ==> used[j]
  }

  /** `idx` is the first free slot met by a scan starting at `start`. */
  predicate IsFirstFree(used: seq<bool>, start: nat, idx: nat)
    requires 0 < |used|
  {
    && idx < |used|
    && !used[idx]
    && forall o :: 0 <= o < Offset(start, idx, |used|) ==> used[Rot(start, o, |used|)]
  }

  /** The scan from step `o` on: the first free slot, or None when every
      slot visited from step `o` to the end is claimed. */
  function FirstFree(used: seq<bool>, start: nat, o: nat): (r: Option<nat>)
    requires 0 < |used| && o <= |used|
    decreases |used| - o
    ensures r.Some? ==>
      && r.value < |used| && !used[r.value]
      && o <= Offset(start, r.value, |used|)
      && forall o' :: o <= o' < Offset(start, r.value, |used|) ==> used[Rot(start, o', |used|)]
    ensures r.None? ==> forall o' :: o <= o' < |used| ==> used[Rot(start, o', |used|)]
  {
    if o == |used| then None
    else if !used[Rot(start, o, |used|)] then
      OffsetRot(start, o, |used|);
      Some(Rot(start, o, |used|))
    else FirstFree(used, start, o + 1)
  }

  /** The whole scan finds nothing exactly when every slot is claimed, and
      what it finds is the first free slot in rotation order. */
  lemma FirstFreeCorrect(used: seq<bool>, start: nat)
    requires 0 < |used|
    ensures FirstFree(used, start, 0).None? <==> AllClaimed(used)
    ensures FirstFree(used, start, 0).Some? ==> IsFirstFree(used, start, FirstFree(used, start, 0).value)
    ensures forall idx: nat :: IsFirstFree(used, start, idx) ==> FirstFree(used, start, 0) == Some(idx)
  {
    var n := |used|;
    ScanVisitsEachSlotOnce(start, n);
    if FirstFree(used, start, 0).None? {
      forall j | 0 <= j < n
        ensures used[j]
      {
        assert used[Rot(start, Offset(start, j, n), n)];
      }
    }
    forall idx: nat | IsFirstFree(used, start, idx)
      ensures FirstFree(used, start, 0) == Some(idx)
    {
      FirstFreeUnique(used, start, idx);
    }
  }

  /** At most one slot is the first free one. */
  lemma FirstFreeUnique(used: seq<bool>, start: nat, idx: nat)
    requires 0 < |used| && IsFirstFree(used, start, idx)
    ensures FirstFree(used, start, 0) == Some(idx)
  {
    var n := |used|;
    ScanVisitsEachSlotOnce(start, n);
    var r := FirstFree(used, start, 0);
    if r.Some? {
      var a, b := Offset(start, r.value, n), Offset(start, idx, n);
      assert Rot(start, a, n) == r.value && Rot(start, b, n) == idx;
    }
  }

  /** The claim loop of the shard, step by step: test-and-set on the marker
      of each slot in rotation order, stopping at the first that was clear.
      Returns the claimed slot, if any, and the markers afterwards. */
  method ClaimScan(used: seq<bool>, start: nat) returns (claimed: Option<nat>, after: seq<bool>)
    requires 0 < |used|
    ensures claimed.Some? ==> IsFirstFree(used, start, claimed.value) && after == used[claimed.value := true]
    ensures claimed.None? ==> AllClaimed(used) && after == used
  {
    var n := |used|;
    var i := 0;
    while i < n
      invariant 0 <= i <= n
      invariant forall o :: 0 <= o < i ==> used[Rot(start, o, n)]
    {
      var idx := Rot(start, i, n);
      if !used[idx] {
        OffsetRot(start, i, n);
        claimed, after := Some(idx), used[idx := true];
        return;
      }
      i := i + 1;
    }
    ScanVisitsEachSlotOnce(start, n);
    forall j | 0 <= j < n
      ensures used[j]
    {
      assert used[Rot(start, Offset(start, j, n), n)];
    }
    claimed, after := None, used;
  }
}
