/** The rotating allocators behind session numbers and gateway ports: `session_idGetNext`,
    `session_idRelease`, `app_portGetFree` and `app_portRelease`. */
module Allocators {

  /** The first entry from `from` up to `end` that is not in use, or -1. */
  function FirstFree(t: seq<bool>, from: nat, end: nat): (k: int)
    requires from <= end <= |t|
    ensures k == -1 || (from <= k < end && !t[k] && forall i :: from <= i < k ==> t[i])
    ensures k == -1 ==> forall i :: from <= i < end ==> t[i]
    decreases end - from
  {
    if from == end then -1 else if !t[from] then from else FirstFree(t, from + 1, end)
  }

  /** The next free entry from `lo` up to `hi`: at or behind the cursor if there is one, and otherwise in
      front of it. */
  function NextFree(t: seq<bool>, lo: nat, hi: nat, cursor: nat): (k: int)
    requires lo <= cursor <= hi <= |t|
    ensures k == -1 || (lo <= k < hi && !t[k])
    ensures k == -1 <==> forall i :: lo <= i < hi ==> t[i]
    ensures (exists i :: cursor <= i < hi && !t[i]) ==> cursor <= k && forall i :: cursor <= i < k ==> t[i]
    ensures k != -1 && (forall i :: cursor <= i < hi ==> t[i]) ==> k < cursor && forall i :: lo <= i < k ==> t[i]
  {
    var k := FirstFree(t, cursor, hi);
    if k != -1 then k else FirstFree(t, lo, cursor)
  }

  /** Take the first free entry, if there is one. */
  method TakeFree(t: array<bool>, from: nat, end: nat) returns (k: int)
    requires from <= end <= t.Length
    modifies t
    ensures k == FirstFree(old(t[..]), from, end)
    ensures t[..] == if k == -1 then old(t[..]) else old(t[..])[k := true]
  {
    var i := from;
    while i < end
      invariant from <= i <= end && t[..] == old(t[..])
      invariant FirstFree(t[..], from, end) == FirstFree(t[..], i, end)
    {
      if !t[i] {
        t[i] := true;
        return i;
      }
      i := i + 1;
    }
    k := -1;
  }

  /** Take the next free entry from `lo` up to `hi`; the cursor moves behind it. */
  method TakeNext(t: array<bool>, lo: nat, hi: nat, cursor: nat) returns (k: int, cursor': nat)
    requires lo <= cursor <= hi <= t.Length
    modifies t
    ensures k == NextFree(old(t[..]), lo, hi, cursor)
    ensures k == -1 <==> forall i :: lo <= i < hi ==> old(t[i])
    ensures k != -1 ==> lo <= k < hi && !old(t[k])
    ensures (exists i :: cursor <= i < hi && !old(t[i])) ==>
              cursor <= k && forall i :: cursor <= i < k ==> old(t[i])
    ensures k != -1 && (forall i :: cursor <= i < hi ==> old(t[i])) ==>
              k < cursor && forall i :: lo <= i < k ==> old(t[i])
    ensures t[..] == if k == -1 then old(t[..]) else old(t[..])[k := true]
    ensures cursor' == (if k == -1 then cursor else k + 1) && lo <= cursor' <= hi
  {
    assert forall i :: 0 <= i < t.Length ==> old(t[..])[i] == old(t[i]);
    k := TakeFree(t, cursor, hi);
    if k == -1 {
      k := TakeFree(t, lo, cursor);
    }
    cursor' := if k == -1 then cursor else k + 1;
  }

  /** Give an entry back; -2 if it was not in use. */
  method GiveBack(t: array<bool>, k: nat) returns (res: int)
    requires k < t.Length
    modifies t
    ensures t[..] == old(t[..])[k := false]
    ensures res == if old(t[k]) then 0 else -2
  {
    if !t[k] {
      return -2;
    }
    t[k] := false;
    res := 0;
  }

  /** As many owners as there are entries in use. */
  lemma {:induction false} Pigeonhole(owners: seq<int>, lo: int, n: nat)
    requires forall x :: lo <= x < lo + n ==> x in owners
    ensures n <= |owners|
    decreases n
  {
    if n > 0 {
      var last := lo + n - 1;
      assert last in owners;
      var k :| 0 <= k < |owners| && owners[k] == last;
      var others := owners[..k] + owners[k + 1..];
      forall x | lo <= x < lo + (n - 1)
        ensures x in others
      {
        assert x in owners;
        var j :| 0 <= j < |owners| && owners[j] == x;
        assert others[if j < k then j else j - 1] == x;
      }
      Pigeonhole(others, lo, n - 1);
    }
  }

  /** With fewer owners than entries, there is always a free one. */
  lemma NotExhausted(t: seq<bool>, owners: seq<int>, lo: nat, hi: nat, cursor: nat)
    requires lo <= cursor <= hi <= |t| && |owners| < hi - lo
    requires forall x :: lo <= x < hi && t[x] ==> x in owners
    ensures NextFree(t, lo, hi, cursor) != -1
  {
    if forall x :: lo <= x < hi ==> t[x] {
      Pigeonhole(owners, lo, hi - lo);
    }
  }

  /** Each owner but those marked -1 has an entry of its own, and no other entries are in use. */
  ghost predicate Owned(t: seq<bool>, owners: seq<int>) {
    && (forall i :: 0 <= i < |owners| && owners[i] != -1 ==> 0 <= owners[i] < |t| && t[owners[i]])
    && (forall i, j :: 0 <= i < j < |owners| && owners[i] != -1 ==> owners[i] != owners[j])
    && forall x :: 0 <= x < |t| && t[x] ==> x in owners
  }

  lemma NothingOwned(t: seq<bool>)
    requires forall x :: 0 <= x < |t| ==> !t[x]
    ensures Owned(t, [])
  {
  }

  lemma OwnedPush(t: seq<bool>, owners: seq<int>, k: nat)
    requires Owned(t, owners) && k < |t| && !t[k]
    ensures Owned(t[k := true], owners + [k])
  {
    var more := owners + [k];
    assert more[|owners|] == k;
    forall x | 0 <= x < |t| && t[x]
      ensures x in more
    {
      assert x in owners;
    }
  }

  lemma OwnedDrop(t: seq<bool>, owners: seq<int>, i: nat)
    requires Owned(t, owners) && i < |owners| && owners[i] != -1
    ensures Owned(t[owners[i] := false], owners[i := -1])
  {
    var fewer := owners[i := -1];
    forall x | 0 <= x < |t| && x != owners[i] && t[x]
      ensures x in fewer
    {
      assert x in owners;
      var j :| 0 <= j < |owners| && owners[j] == x;
      assert fewer[j] == x;
    }
  }

  lemma OwnedDropTwo(t: seq<bool>, owners: seq<int>, i: nat, j: nat)
    requires Owned(t, owners) && i < |owners| && j < |owners| && i != j && owners[i] != -1 && owners[j] != -1
    ensures 0 <= owners[i] < |t| && 0 <= owners[j] < |t|
    ensures Owned(t[owners[j] := false][owners[i] := false], owners[i := -1][j := -1])
  {
    hide Owned;
    InUse(t, owners, i);
    InUse(t, owners, j);
    OwnedDrop(t, owners, j);
    OwnedDrop(t[owners[j] := false], owners[j := -1], i);
    assert owners[j := -1][i := -1] == owners[i := -1][j := -1];
  }

  lemma InUse(t: seq<bool>, owners: seq<int>, i: nat)
    requires Owned(t, owners) && i < |owners| && owners[i] != -1
    ensures 0 <= owners[i] < |t| && t[owners[i]]
  {
  }

  /** The owners without the gaps. */
  function WithoutGaps(owners: seq<int>): (r: seq<int>)
    ensures |r| <= |owners| && -1 !in r
  {
    if owners == [] then [] else
    WithoutGaps(owners[..|owners| - 1]) + if owners[|owners| - 1] == -1 then [] else [owners[|owners| - 1]]
  }

  lemma {:induction false} GapsOnly(owners: seq<int>, x: int)
    requires x != -1
    ensures x in WithoutGaps(owners) <==> x in owners
  {
    if owners != [] {
      GapsOnly(owners[..|owners| - 1], x);
      assert owners == owners[..|owners| - 1] + [owners[|owners| - 1]];
    }
  }

  lemma {:induction false} StillDistinct(owners: seq<int>)
    requires forall i, j :: 0 <= i < j < |owners| && owners[i] != -1 ==> owners[i] != owners[j]
    ensures var r := WithoutGaps(owners); forall i, j :: 0 <= i < j < |r| ==> r[i] != r[j]
  {
    if owners != [] {
      var init, last := owners[..|owners| - 1], owners[|owners| - 1];
      forall i, j | 0 <= i < j < |init| && init[i] != -1
        ensures init[i] != init[j]
      {
        assert owners[i] == init[i] && owners[j] == init[j];
      }
      StillDistinct(init);
      if last != -1 {
        GapsOnly(init, last);
        assert last !in init;
      }
    }
  }

  lemma OwnedCompact(t: seq<bool>, owners: seq<int>)
    requires Owned(t, owners)
    ensures Owned(t, WithoutGaps(owners))
  {
    StillDistinct(owners);
    var r := WithoutGaps(owners);
    forall i | 0 <= i < |r|
      ensures 0 <= r[i] < |t| && t[r[i]]
    {
      GapsOnly(owners, r[i]);
      assert r[i] in r;
    }
    forall x | 0 <= x < |t| && t[x]
      ensures x in r
    {
      GapsOnly(owners, x);
    }
  }
}
