/** The reference-count bookkeeping of one storage, as a value: which handles
    hold it, its intrusive counter `refs_`, and whether it still exists.
    `H` is the type of the handles. */
module RefCount {

  datatype Share<H> = Share(holders: set<H>, refs: nat, alive: bool)

  /** The bookkeeping of a counted storage is exact: it exists, and its
      counter is the number of handles that hold it, at least one. */
  ghost predicate Exact<H>(s: Share<H>)
  {
    s.alive && s.refs == |s.holders| && s.refs >= 1
  }

  /** `release()` by handle `h`: `h` no longer holds the storage; a counted
      storage decrements its counter and is destroyed when it reaches 0; an
      uncounted one keeps its counter and is never destroyed here. */
  function Drop<H>(s: Share<H>, h: H, counted: bool): Share<H>
    requires counted ==> s.refs >= 1
  {
    if !counted then s.(holders := s.holders - {h})
    else Share(s.holders - {h}, s.refs - 1, s.alive && s.refs - 1 != 0)
  }

  /** `++other.p_->refs_` on behalf of a handle `h` that is about to hold the storage. */
  function Retain<H>(s: Share<H>, h: H): Share<H>
  {
    Share(s.holders + {h}, s.refs + 1, s.alive)
  }

  /** A move: the reference passes from handle `src` to handle `dst` with no
      change to the counter. */
  function Transfer<H>(s: Share<H>, src: H, dst: H): Share<H>
  {
    s.(holders := s.holders - {src} + {dst})
  }

  /** Releasing a handle of a counted storage destroys it exactly when that
      handle was the last holder; otherwise the bookkeeping stays exact. */
  lemma DropIsExact<H>(s: Share<H>, h: H)
    requires Exact(s) && h in s.holders
    ensures Drop(s, h, true).alive <==> s.holders != {h}
    ensures Drop(s, h, true).alive ==> Exact(Drop(s, h, true))
    ensures !Drop(s, h, true).alive ==> Drop(s, h, true).holders == {} && Drop(s, h, true).refs == 0
  {
    var r := Drop(s, h, true);
    assert |s.holders - {h}| == |s.holders| - 1;
    if s.holders == {h} {
      assert r.refs == 0;
    } else {
      var g :| g in s.holders && g != h;
      assert g in s.holders - {h};
    }
  }

  /** Copying into a handle that did not hold the storage keeps the
      bookkeeping exact: one more holder, one more reference. */
  lemma RetainIsExact<H>(s: Share<H>, h: H)
    requires Exact(s) && h !in s.holders
    ensures Exact(Retain(s, h)) && Retain(s, h).refs == s.refs + 1
  {
  }

  /** Moving a reference to a handle that did not hold the storage keeps the
      bookkeeping exact without touching the counter. */
  lemma TransferIsExact<H>(s: Share<H>, src: H, dst: H)
    requires Exact(s) && src in s.holders && (dst == src || dst !in s.holders)
    ensures Exact(Transfer(s, src, dst)) && Transfer(s, src, dst).refs == s.refs
  {
    var r := Transfer(s, src, dst);
    if dst == src {
      assert r.holders == s.holders;
    } else {
      assert |s.holders - {src}| == |s.holders| - 1;
    }
  }

  /** The bookkeeping after the handles in `order` release a counted storage
      one after another. */
  function DropAll<H>(s: Share<H>, order: seq<H>): Share<H>
    requires |order| <= s.refs
    decreases |order|
  {
    if order == [] then s else DropAll(Drop(s, order[0], true), order[1..])
  }

  ghost predicate Distinct<H>(order: seq<H>)
  {
    forall i, j :: 0 <= i < j < |order| ==> order[i] != order[j]
  }

  /** However the holders of a counted storage are ordered, releasing them
      one by one keeps it alive until the last release and destroys it at
      that one: destruction happens exactly once, after the last holder. */
  lemma {:induction false} ReleaseAllInAnyOrder<H>(s: Share<H>, order: seq<H>)
    requires Exact(s) && Distinct(order) && |order| == |s.holders|
    requires forall i :: 0 <= i < |order| ==> order[i] in s.holders
    ensures !DropAll(s, order).alive && DropAll(s, order).refs == 0 && DropAll(s, order).holders == {}
    ensures forall k :: 0 <= k < |order| ==> DropAll(s, order[..k]).alive
    decreases |order|
  {
    var h := order[0];
    var s' := Drop(s, h, true);
    DropIsExact(s, h);
    assert |s.holders - {h}| == |s.holders| - 1;
    assert DropAll(s, order) == DropAll(s', order[1..]);
    forall k | 1 <= k <= |order|
      ensures DropAll(s, order[..k]) == DropAll(s', order[1..][..k - 1])
    {
      assert order[..k][0] == h;
      assert order[..k][1..] == order[1..][..k - 1];
    }
    assert DropAll(s, order[..0]) == s by { assert order[..0] == []; }
    if |order| == 1 {
      assert s.holders - {h} == {};
      assert s.holders == {h};
    } else {
      assert s.holders != {h} by {
        assert order[1] in s.holders && order[1] != h;
      }
      forall i | 0 <= i < |order[1..]| ensures order[1..][i] in s'.holders {
        assert order[1..][i] == order[i + 1] && order[i + 1] != order[0];
      }
      ReleaseAllInAnyOrder(s', order[1..]);
    }
  }
}
