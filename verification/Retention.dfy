/** Which timestamps a bounded store keeps. */
module Retention {
  import opened Sets

  /** The members of `s` later than `t`. */
  function Above(s: set<nat>, t: nat): set<nat> {
    set u | u in s && u > t
  }

  /** The `keep` latest members: those that fewer than `keep` others come after. */
  function Newest(s: set<nat>, keep: nat): set<nat> {
    set t | t in s && |Above(s, t)| < keep
  }

  lemma {:induction false} HasMax(s: set<nat>)
    requires s != {}
    ensures exists m :: m in s && forall x :: x in s ==> x <= m
  {
    var x := HasMember(s);
    var rest := s - {x};
    if rest == {} {
      assert forall y :: y in s ==> y == x || y in rest;
    } else {
      HasMax(rest);
      var m :| m in rest && forall y :: y in rest ==> y <= m;
      var most := if x > m then x else m;
      assert forall y :: y in s ==> y == x || y in rest;
      assert most in s;
    }
  }

  function MaxOf(s: set<nat>): (m: nat)
    requires s != {}
    ensures m in s
    ensures forall x :: x in s ==> x <= m
  {
    HasMax(s);
    var m :| m in s && forall x :: x in s ==> x <= m;
    m
  }

  /** The latest member has nothing above it and is above every other member. */
  lemma AboveStep(s: set<nat>, t: nat)
    requires t in s
    ensures t == MaxOf(s) ==> |Above(s, t)| == 0
    ensures t != MaxOf(s) ==> t in s - {MaxOf(s)} && |Above(s, t)| == 1 + |Above(s - {MaxOf(s)}, t)|
  {
    var m := MaxOf(s);
    if t == m {
      assert Above(s, t) == {};
    } else {
      assert Above(s, t) == {m} + Above(s - {m}, t);
    }
  }

  lemma NewestStep(s: set<nat>, keep: nat)
    requires s != {} && keep > 0
    ensures Newest(s, keep) == {MaxOf(s)} + Newest(s - {MaxOf(s)}, keep - 1)
  {
    hide Above;
    var m := MaxOf(s);
    var next := {m} + Newest(s - {m}, keep - 1);
    forall t ensures t in Newest(s, keep) <==> t in next {
      if t in s {
        AboveStep(s, t);
      }
    }
  }

  /** Exactly `keep` are kept, or all of them when there are no more. */
  lemma {:induction false} NewestSize(s: set<nat>, keep: nat)
    ensures |Newest(s, keep)| == if |s| < keep then |s| else keep
    decreases |s|
  {
    hide Above;
    if s == {} || keep == 0 {
      assert Newest(s, keep) == {};
    } else {
      var m := MaxOf(s);
      NewestStep(s, keep);
      NewestSize(s - {m}, keep - 1);
      assert m !in Newest(s - {m}, keep - 1);
    }
  }

  /** Where something of `s` is missing above `t`, the kept part alone already fills the quota. */
  lemma KeptFillsQuota(s: set<nat>, added: set<nat>, keep: nat, t: nat, u: nat)
    requires u in s && u > t && u !in Newest(s, keep)
    ensures |Above(Newest(s, keep) + added, t)| >= keep
  {
    var kept := Newest(s, keep);
    forall x | x in kept ensures x > u {
      if x <= u {
        SubsetSize(Above(s, u), Above(s, x));
      }
    }
    NewestSize(s, keep);
    SubsetSize(kept, Above(kept + added, t));
    SubsetSize(kept, s);
  }

  /** Pruning before adding changes nothing: the kept ones still decide what is newest. */
  lemma NewestAbsorbs(s: set<nat>, added: set<nat>, keep: nat)
    ensures Newest(Newest(s, keep) + added, keep) == Newest(s + added, keep)
  {
    var kept := Newest(s, keep);
    forall t | t in s + added
      ensures t in Newest(kept + added, keep) <==> t in Newest(s + added, keep)
    {
      AbsorbsAt(s, added, keep, t);
    }
  }

  lemma AbsorbsAt(s: set<nat>, added: set<nat>, keep: nat, t: nat)
    requires t in s + added
    ensures t in Newest(Newest(s, keep) + added, keep) <==> t in Newest(s + added, keep)
  {
    var kept := Newest(s, keep);
    var all, few := Above(s + added, t), Above(kept + added, t);
    SubsetSize(few, all);
    if t in s {
      SubsetSize(Above(s, t), all);
    }
    if u :| u in all && u !in few {
      KeptFillsQuota(s, added, keep, t, u);
    } else {
      assert all == few;
    }
  }

  /** `list`: the timestamps, newest first. */
  function NewestFirst(s: set<nat>): (l: seq<nat>)
    ensures |l| == |s|
    ensures forall t :: t in l <==> t in s
    decreases |s|
  {
    if s == {} then [] else [MaxOf(s)] + NewestFirst(s - {MaxOf(s)})
  }

  /**
   * Position `i` of the listing has exactly `i` timestamps after it, so skipping `keep` positions
   * skips the newest.
   */
  lemma {:induction false} RankInListing(s: set<nat>, i: nat)
    requires i < |s|
    ensures |Above(s, NewestFirst(s)[i])| == i
    decreases |s|
  {
    hide Above;
    var rest := s - {MaxOf(s)};
    var t := NewestFirst(s)[i];
    assert t in NewestFirst(s);
    AboveStep(s, t);
    if i > 0 {
      assert t == NewestFirst(rest)[i - 1];
      assert t in NewestFirst(rest);
      RankInListing(rest, i - 1);
    }
  }

  /** The listing is strictly newest first, so no timestamp is listed twice. */
  lemma ListingDescends(s: set<nat>, i: nat, j: nat)
    requires i < j < |s|
    ensures NewestFirst(s)[i] > NewestFirst(s)[j]
  {
    RankInListing(s, i);
    RankInListing(s, j);
    var a, b := NewestFirst(s)[i], NewestFirst(s)[j];
    if a <= b {
      SubsetSize(Above(s, b), Above(s, a));
    }
  }
}
