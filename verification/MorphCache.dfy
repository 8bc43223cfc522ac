/** The compact-result cache: evict the oldest entries once the directory is over its cap. */
module MorphCache {
  datatype Meta = Meta(mtime: int, len: nat)
  datatype Entry = Entry(path: string, meta: Meta)

  const CACHE_CAP_BYTES: nat := 16 * 1024 * 1024

  function Total(es: seq<Entry>): nat {
    if es == [] then 0 else es[0].meta.len + Total(es[1..])
  }

  function Paths(es: seq<Entry>): set<string> {
    set e | e in es :: e.path
  }

  lemma {:induction false} TotalAppend(a: seq<Entry>, b: seq<Entry>)
    ensures Total(a + b) == Total(a) + Total(b)
  {
    if a == [] {
      assert a + b == b;
    } else {
      assert (a + b)[1..] == a[1..] + b;
      TotalAppend(a[1..], b);
    }
  }

  // ----- sorting -----

  function Insert(e: Entry, es: seq<Entry>): seq<Entry> {
    if es == [] || e.meta.mtime <= es[0].meta.mtime then [e] + es else [es[0]] + Insert(e, es[1..])
  }

  function SortByMtime(es: seq<Entry>): seq<Entry> {
    if es == [] then [] else Insert(es[0], SortByMtime(es[1..]))
  }

  predicate OldestFirst(es: seq<Entry>) {
    forall i, j :: 0 <= i < j < |es| ==> es[i].meta.mtime <= es[j].meta.mtime
  }

  /** The entries of one modification time, in order. */
  function OfTime(es: seq<Entry>, m: int): seq<Entry> {
    if es == [] then [] else (if es[0].meta.mtime == m then [es[0]] else []) + OfTime(es[1..], m)
  }

  lemma {:induction false} InsertKeeps(e: Entry, es: seq<Entry>)
    ensures multiset(Insert(e, es)) == multiset([e] + es)
    ensures Total(Insert(e, es)) == e.meta.len + Total(es)
  {
    if es == [] || e.meta.mtime <= es[0].meta.mtime {
      assert ([e] + es)[1..] == es;
    } else {
      InsertKeeps(e, es[1..]);
      assert es == [es[0]] + es[1..];
      assert ([es[0]] + Insert(e, es[1..]))[1..] == Insert(e, es[1..]);
    }
  }

  lemma MemberOfInsert(e: Entry, es: seq<Entry>, x: Entry)
    ensures x in Insert(e, es) <==> x == e || x in es
  {
    InsertKeeps(e, es);
    hide Insert;
    assert x in Insert(e, es) <==> x in multiset(Insert(e, es));
  }

  lemma {:induction false} InsertOrders(e: Entry, es: seq<Entry>)
    requires OldestFirst(es)
    ensures OldestFirst(Insert(e, es))
  {
    if es == [] || e.meta.mtime <= es[0].meta.mtime {
    } else {
      var tail := Insert(e, es[1..]);
      InsertOrders(e, es[1..]);
      forall x | x in tail ensures es[0].meta.mtime <= x.meta.mtime {
        MemberOfInsert(e, es[1..], x);
      }
    }
  }

  lemma OfTimeCons(e: Entry, es: seq<Entry>, m: int)
    ensures OfTime([e] + es, m) == (if e.meta.mtime == m then [e] else []) + OfTime(es, m)
  {
    assert ([e] + es)[1..] == es;
  }

  /** Inserted before its equals, an entry from earlier in the listing stays before them. */
  lemma {:induction false} InsertIsStable(e: Entry, es: seq<Entry>, m: int)
    requires OldestFirst(es)
    ensures OfTime(Insert(e, es), m) == OfTime([e] + es, m)
  {
    hide OfTime;
    if es == [] || e.meta.mtime <= es[0].meta.mtime {
    } else {
      assert OldestFirst(es[1..]);
      hide OldestFirst;
      assert es == [es[0]] + es[1..];
      InsertIsStable(e, es[1..], m);
      OfTimeCons(es[0], Insert(e, es[1..]), m);
      OfTimeCons(es[0], es[1..], m);
      OfTimeCons(e, es[1..], m);
      OfTimeCons(e, es, m);
    }
  }

  /** The sort is stable, loses nothing and puts the oldest first. */
  lemma {:induction false} SortLaws(es: seq<Entry>, m: int)
    ensures multiset(SortByMtime(es)) == multiset(es)
    ensures OldestFirst(SortByMtime(es))
    ensures OfTime(SortByMtime(es), m) == OfTime(es, m)
    ensures Total(SortByMtime(es)) == Total(es)
  {
    if es == [] {
    } else {
      var tail := SortByMtime(es[1..]);
      SortLaws(es[1..], m);
      InsertKeeps(es[0], tail);
      InsertOrders(es[0], tail);
      InsertIsStable(es[0], tail, m);
      assert es == [es[0]] + es[1..];
      assert ([es[0]] + tail)[1..] == tail;
    }
  }

  // ----- eviction -----

  /** The eviction loop over sorted entries: skip what cannot be removed, stop once nothing is over. */
  function EvictLoop(sorted: seq<Entry>, over: nat, removable: set<string>): set<string> {
    if sorted == [] || over == 0 then {}
    else
      var e := sorted[0];
      var left := if over < e.meta.len then 0 else over - e.meta.len;
      if e.path in removable then {e.path} + EvictLoop(sorted[1..], left, removable)
      else EvictLoop(sorted[1..], over, removable)
  }

  function Evicted(sorted: seq<Entry>, removable: set<string>): set<string> {
    if Total(sorted) <= CACHE_CAP_BYTES then {} else EvictLoop(sorted, Total(sorted) - CACHE_CAP_BYTES, removable)
  }

  /** The entries that can be removed, in order. */
  function Candidates(sorted: seq<Entry>, removable: set<string>): seq<Entry> {
    if sorted == [] then []
    else (if sorted[0].path in removable then [sorted[0]] else []) + Candidates(sorted[1..], removable)
  }

  /** Everything after the first `k` candidates stays, and `k` is the least number that clears `over`. */
  ghost predicate IsCut(all: seq<Entry>, over: int, k: nat) {
    k <= |all| && (Total(all[..k]) >= over || k == |all|) && forall j :: 0 <= j < k ==> Total(all[..j]) < over
  }

  lemma TotalCons(e: Entry, rest: seq<Entry>, j: nat)
    requires j <= |rest|
    ensures ([e] + rest)[..j + 1] == [e] + rest[..j]
    ensures Total(([e] + rest)[..j + 1]) == e.meta.len + Total(rest[..j])
    ensures Paths(([e] + rest)[..j + 1]) == {e.path} + Paths(rest[..j])
  {
    assert ([e] + rest)[..j + 1] == [e] + rest[..j];
    assert ([e] + rest[..j])[1..] == rest[..j];
  }

  lemma CutCons(e: Entry, rest: seq<Entry>, over: nat, k: nat)
    requires over > 0
    requires IsCut(rest, if over < e.meta.len then 0 else over - e.meta.len, k)
    ensures IsCut([e] + rest, over, k + 1)
    ensures Paths(([e] + rest)[..k + 1]) == {e.path} + Paths(rest[..k])
  {
    hide Paths;
    TotalCons(e, rest, k);
    forall j: nat | j < k + 1 ensures Total(([e] + rest)[..j]) < over {
      if j == 0 {
        assert Total(([e] + rest)[..0]) == 0;
      } else {
        TotalCons(e, rest, j - 1);
      }
    }
  }

  lemma EvictStep(sorted: seq<Entry>, over: nat, removable: set<string>)
    ensures Candidates(sorted, removable) ==
            if sorted == [] then []
            else (if sorted[0].path in removable then [sorted[0]] else []) + Candidates(sorted[1..], removable)
    ensures EvictLoop(sorted, over, removable) ==
              if sorted == [] || over == 0 then {}
              else if sorted[0].path in removable
              then
                {sorted[0].path} +
                EvictLoop(sorted[1..], if over < sorted[0].meta.len then 0 else over - sorted[0].meta.len, removable)
              else EvictLoop(sorted[1..], over, removable)
  {
  }

  lemma {:induction false} EvictLoopIsAPrefix(sorted: seq<Entry>, over: nat, removable: set<string>) returns (k: nat)
    ensures IsCut(Candidates(sorted, removable), over, k)
    ensures EvictLoop(sorted, over, removable) == Paths(Candidates(sorted, removable)[..k])
    decreases |sorted|
  {
    if sorted == [] || over == 0 {
      k := 0;
    } else {
      hide Candidates, EvictLoop, IsCut, Paths;
      EvictStep(sorted, over, removable);
      var e := sorted[0];
      if e.path in removable {
        var r := EvictLoopIsAPrefix(sorted[1..], if over < e.meta.len then 0 else over - e.meta.len, removable);
        k := r + 1;
        CutCons(e, Candidates(sorted[1..], removable), over, r);
      } else {
        k := EvictLoopIsAPrefix(sorted[1..], over, removable);
        assert Candidates(sorted, removable) == Candidates(sorted[1..], removable);
      }
    }
  }

  /**
   * What is evicted is the shortest oldest-first run of removable entries that brings the total under
   * the cap, or all of them when even that is not enough.
   */
  lemma EvictsShortestOldestRun(sorted: seq<Entry>, removable: set<string>) returns (k: nat)
    ensures var all := Candidates(sorted, removable);
            k <= |all| && Evicted(sorted, removable) == Paths(all[..k]) &&
            (Total(sorted) - Total(all[..k]) <= 16_777_216 || k == |all|) &&
            forall j :: 0 <= j < k ==> Total(sorted) - Total(all[..j]) > 16_777_216
  {
    hide Candidates, EvictLoop;
    if Total(sorted) <= CACHE_CAP_BYTES {
      k := 0;
    } else {
      k := EvictLoopIsAPrefix(sorted, Total(sorted) - CACHE_CAP_BYTES, removable);
    }
  }

  lemma {:induction false} AllAreCandidates(sorted: seq<Entry>, removable: set<string>)
    requires Paths(sorted) <= removable
    ensures Candidates(sorted, removable) == sorted
  {
    if sorted == [] {
    } else {
      assert sorted[0].path in Paths(sorted);
      forall e | e in sorted[1..] ensures e.path in Paths(sorted) {
        assert e in sorted;
      }
      AllAreCandidates(sorted[1..], removable);
    }
  }

  /** When every removal succeeds, it is the shortest oldest-first prefix, and the total ends at or under the cap. */
  lemma EvictionEndsUnderCap(sorted: seq<Entry>, removable: set<string>) returns (k: nat)
    requires Paths(sorted) <= removable
    ensures k <= |sorted| && Evicted(sorted, removable) == Paths(sorted[..k])
    ensures Total(sorted) - Total(sorted[..k]) <= 16_777_216
    ensures forall j :: 0 <= j < k ==> Total(sorted) - Total(sorted[..j]) > 16_777_216
  {
    AllAreCandidates(sorted, removable);
    k := EvictsShortestOldestRun(sorted, removable);
    assert sorted[..|sorted|] == sorted;
  }

  /** Then the newest entry stays exactly when it alone fits the cap. */
  lemma NewestEntryStays(sorted: seq<Entry>, removable: set<string>)
    requires sorted != [] && Paths(sorted) <= removable
    requires forall i, j :: 0 <= i < j < |sorted| ==> sorted[i].path != sorted[j].path
    ensures sorted[|sorted| - 1].path !in Evicted(sorted, removable) <==>
            sorted[|sorted| - 1].meta.len <= 16_777_216
  {
    var k := EvictionEndsUnderCap(sorted, removable);
    var n := |sorted| - 1;
    hide Evicted, Candidates;
    TotalInit(sorted);
    assert sorted[..n + 1] == sorted;
    LastPathIn(sorted, k);
    if k <= n {
      TotalMonotone(sorted, k, n);
    }
  }

  lemma TotalInit(es: seq<Entry>)
    requires es != []
    ensures Total(es) == Total(es[..|es| - 1]) + es[|es| - 1].meta.len
  {
    var n := |es| - 1;
    assert es == es[..n] + [es[n]];
    TotalAppend(es[..n], [es[n]]);
    assert Total([es[n]]) == es[n].meta.len + Total([es[n]][1..]);
  }

  lemma TotalMonotone(es: seq<Entry>, i: nat, j: nat)
    requires i <= j <= |es|
    ensures Total(es[..i]) <= Total(es[..j])
  {
    assert es[..j] == es[..i] + es[i..j];
    TotalAppend(es[..i], es[i..j]);
  }

  lemma LastPathIn(es: seq<Entry>, k: nat)
    requires es != [] && k <= |es|
    requires forall i, j :: 0 <= i < j < |es| ==> es[i].path != es[j].path
    ensures es[|es| - 1].path in Paths(es[..k]) <==> k == |es|
  {
    var last := es[|es| - 1];
    if k == |es| {
      assert last in es[..k];
    } else {
      forall e | e in es[..k] ensures e.path != last.path {
      }
    }
  }

  // ----- the directory -----

  ghost predicate Enumerates(order: seq<string>, names: set<string>) {
    (forall i, j :: 0 <= i < j < |order| ==> order[i] != order[j]) && (forall p :: p in order <==> p in names)
  }

  function EntriesOf(order: seq<string>, files: map<string, Meta>): seq<Entry>
    requires forall p :: p in order ==> p in files
  {
    seq(|order|, i requires 0 <= i < |order| => Entry(order[i], files[order[i]]))
  }

  /** The files that are left when those in `gone` are removed. */
  function Without(files: map<string, Meta>, gone: set<string>): map<string, Meta> { files - gone }

  class CacheDir {
    var files: map<string, Meta>

    constructor ()
      ensures files == map[]
    {
      files := map[];
    }

    /** `prune_cache` with the directory listed in some `order`, where only `removable` files can be removed. */
    method PruneCache(order: seq<string>, removable: set<string>)
      requires Enumerates(order, files.Keys)
      modifies this
      ensures files == Without(old(files), Evicted(SortByMtime(EntriesOf(order, old(files))), removable))
    {
      ghost var was := files;
      var entries := EntriesOf(order, files);
      var total := Total(entries);
      SortLaws(entries, 0);
      var sorted := SortByMtime(entries);
      EvictStarts(sorted, removable);
      RemoveOne(was, {}, "", {});
      if total <= CACHE_CAP_BYTES {
        return;
      }
      hide Without, EvictLoop, Evicted, SortByMtime, EntriesOf, Total, Candidates, OldestFirst, OfTime;
      var over: nat := total - CACHE_CAP_BYTES;
      var i := 0;
      ghost var gone: set<string> := {};
      assert sorted[0..] == sorted;
      while i < |sorted| && over != 0
        invariant 0 <= i <= |sorted|
        invariant files == Without(was, gone)
        invariant gone + EvictLoop(sorted[i..], over, removable) == Evicted(sorted, removable)
      {
        var e := sorted[i];
        EvictStep(sorted[i..], over, removable);
        assert sorted[i..][1..] == sorted[i + 1..];
        if e.path in removable {
          var left := if over < e.meta.len then 0 else over - e.meta.len;
          RemoveOne(was, gone, e.path, EvictLoop(sorted[i + 1..], left, removable));
          files, gone := files - {e.path}, gone + {e.path};
          over := left;
        }
        i := i + 1;
      }
      EvictStep(sorted[i..], over, removable);
    }
  }

  lemma RemoveOne(m: map<string, Meta>, gone: set<string>, p: string, rest: set<string>)
    ensures gone + ({p} + rest) == (gone + {p}) + rest
    ensures Without(m, gone) - {p} == Without(m, gone + {p}) && Without(m, {}) == m
  {
  }

  lemma EvictStarts(sorted: seq<Entry>, removable: set<string>)
    ensures Evicted(sorted, removable) == if Total(sorted) <= CACHE_CAP_BYTES then {}
                                          else EvictLoop(sorted, Total(sorted) - CACHE_CAP_BYTES, removable)
  {
  }

}
