module Allocator {
  // The first-fit memory allocator with coalescing. Free and allocated blocks tile
  // the memory exactly and no two free blocks touch; from this, first fit is proved
  // to find the lowest run of free addresses that is long enough.

  import opened Sets

  datatype Memory = Memory(total: int, available: map<int, int>, used: map<int, int>)

  // ------------------------------------------------------------- blocks and tiling

  /** The block of m that starts at s holds address a. */
  predicate Holds(m: map<int, int>, s: int, a: int)
  {
    s in m && s <= a < s + m[s]
  }

  ghost predicate Covered(m: map<int, int>, a: int)
  {
    exists s :: Holds(m, s, a)
  }

  /** Non-empty disjoint blocks that cover [0, total) and nothing else. */
  ghost predicate Tiles(m: map<int, int>, total: int)
  {
    && (forall s :: s in m ==> 0 <= s && 0 < m[s] && s + m[s] <= total)
    && (forall s, t :: s in m && t in m && s < t ==> s + m[s] <= t)
    && (forall a :: 0 <= a < total ==> Covered(m, a))
  }

  ghost predicate NoneTouch(m: map<int, int>)
  {
    forall s :: s in m ==> s + m[s] !in m
  }

  ghost predicate Tiled(mem: Memory)
  {
    && mem.available.Keys !! mem.used.Keys
    && Tiles(mem.available + mem.used, mem.total)
    && NoneTouch(mem.available)
  }

  /** All memories that requests of positive size can lead to. With no memory at all
      the single entry is an empty block that no request fits. */
  ghost predicate Valid(mem: Memory)
  {
    if mem.total > 0 then Tiled(mem) else mem.available == map[0 := mem.total] && mem.used == map[]
  }

  ghost predicate Free(mem: Memory, a: int)
  {
    Covered(mem.available, a)
  }

  ghost predicate FreeRun(mem: Memory, a: int, n: int)
  {
    forall i :: a <= i < a + n ==> Free(mem, i)
  }

  /** Two blocks that hold the same address are the same block. */
  lemma SameBlock(m: map<int, int>, total: int, s: int, t: int, a: int)
    requires Tiles(m, total) && Holds(m, s, a) && Holds(m, t, a)
    ensures s == t
  {
  }

  // -------------------------------------------------------------------- first fit

  /** s is the lowest free block of at least n addresses. */
  ghost predicate FirstFit(m: map<int, int>, n: int, s: int)
  {
    s in m && n <= m[s] && forall k :: k in m && k < s ==> m[k] < n
  }

  function Carve(mem: Memory, n: int, s: int): Memory
    requires s in mem.available
  {
    var size := mem.available[s];
    var rest := mem.available - {s};
    mem.(available := if n < size then rest[s + n := size - n] else rest, used := mem.used[s := n])
  }

  /** custom_malloc as a function of the whole memory. */
  ghost function Malloc(mem: Memory, n: int): (Memory, int)
  {
    if exists s :: FirstFit(mem.available, n, s) then
      var s :| FirstFit(mem.available, n, s);
      (Carve(mem, n, s), s)
    else (mem, -1)
  }

  /** A run of free addresses lies inside one free block. */
  lemma {:induction false} RunInsideBlock(mem: Memory, s: int, a: int, n: int)
    requires Tiled(mem) && n > 0 && FreeRun(mem, a, n) && Holds(mem.available, s, a)
    ensures a + n <= s + mem.available[s]
    decreases n
  {
    if n > 1 {
      assert FreeRun(mem, a, n - 1);
      RunInsideBlock(mem, s, a, n - 1);
      var all := mem.available + mem.used;
      var last := a + n - 1;
      assert Free(mem, last);
      var t :| Holds(mem.available, t, last);
      assert all[s] == mem.available[s] && all[t] == mem.available[t];
      assert s + mem.available[s] !in mem.available;
      HolderOfEnd(all, mem.total, s, t, last);
    }
  }

  /** A block that holds an address inside another is that block; one that holds the
      address after it starts there. */
  lemma HolderOfEnd(m: map<int, int>, total: int, s: int, t: int, a: int)
    requires Tiles(m, total) && s in m && s <= a <= s + m[s] && Holds(m, t, a)
    ensures if a < s + m[s] then t == s else t == a
  {
    if a < s + m[s] {
      SameBlock(m, total, s, t, a);
    } else if t < a {
      SameBlock(m, total, s, t, a - 1);
    }
  }

  lemma BlockIsFreeRun(mem: Memory, s: int, n: int)
    requires s in mem.available && n <= mem.available[s]
    ensures FreeRun(mem, s, n)
  {
    forall i | s <= i < s + n ensures Free(mem, i) {
      assert Holds(mem.available, s, i);
    }
  }

  /** First fit by blocks is first fit by addresses. */
  lemma FirstFitIsLowestRun(mem: Memory, n: int, s: int)
    requires Tiled(mem) && n > 0 && FirstFit(mem.available, n, s)
    ensures FreeRun(mem, s, n) && forall a :: a < s ==> !FreeRun(mem, a, n)
  {
    BlockIsFreeRun(mem, s, n);
    forall a | a < s ensures !FreeRun(mem, a, n) {
      if FreeRun(mem, a, n) {
        assert Free(mem, a);
        var t :| Holds(mem.available, t, a);
        RunInsideBlock(mem, t, a, n);
        assert false;
      }
    }
  }

  lemma NoFitMeansNoRun(mem: Memory, n: int, a: int)
    requires Tiled(mem) && n > 0 && forall k :: k in mem.available ==> mem.available[k] < n
    ensures !FreeRun(mem, a, n)
  {
    if FreeRun(mem, a, n) {
      assert Free(mem, a);
      var t :| Holds(mem.available, t, a);
      RunInsideBlock(mem, t, a, n);
      assert false;
    }
  }

  lemma FitExists(m: map<int, int>, n: int) returns (s: int)
    requires exists k :: k in m && n <= m[k]
    ensures FirstFit(m, n, s)
  {
    var k :| k in m && n <= m[k];
    var fits := set k | k in m && n <= m[k];
    assert k in fits;
    s := Least(fits);
    forall k | k in m && k < s ensures m[k] < n {
      assert k !in fits;
    }
  }

  /** Splitting a block in two keeps the tiling. */
  lemma SplitTiles(m: map<int, int>, total: int, s: int, n: int)
    requires Tiles(m, total) && s in m && 0 < n < m[s]
    ensures Tiles(m[s := n][s + n := m[s] - n], total)
    ensures s + n !in m
  {
    var m' := m[s := n][s + n := m[s] - n];
    if s + n in m {
      SameBlock(m, total, s, s + n, s + n);
    }
    forall a | 0 <= a < total ensures Covered(m', a) {
      assert Covered(m, a);
      var t :| Holds(m, t, a);
      assert Holds(m', if t == s && a >= s + n then s + n else t, a);
    }
  }

  /** Carving the request out of a free block keeps the tiling. */
  lemma CarveKeepsTiled(mem: Memory, n: int, s: int)
    requires Tiled(mem) && s in mem.available && 0 < n <= mem.available[s]
    ensures Tiled(Carve(mem, n, s))
  {
    var mem' := Carve(mem, n, s);
    var all, all' := mem.available + mem.used, mem'.available + mem'.used;
    var size := mem.available[s];
    if n < size {
      SplitTiles(all, mem.total, s, n);
      assert all' == all[s := n][s + n := size - n];
    } else {
      assert all' == all;
    }
  }

  lemma CarveTakesRun(mem: Memory, n: int, s: int, a: int)
    requires Tiled(mem) && s in mem.available && 0 < n <= mem.available[s]
    ensures Free(Carve(mem, n, s), a) <==> Free(mem, a) && !(s <= a < s + n)
  {
    var mem' := Carve(mem, n, s);
    var all := mem.available + mem.used;
    if n < mem.available[s] {
      SplitTiles(all, mem.total, s, n);
    }
    if t :| Holds(mem.available, t, a) {
      if s <= a < s + n {
        assert Holds(all, t, a) && Holds(all, s, a);
        assert t == s;
      } else {
        assert Holds(mem'.available, if t == s then s + n else t, a);
      }
    }
    if t :| Holds(mem'.available, t, a) {
      assert Holds(mem.available, if t == s + n && n < mem.available[s] then s else t, a);
    }
  }

  // ---------------------------------------------------------------- free and merge

  /** j is the key that follows k in the ordered map. */
  predicate Follows(m: map<int, int>, k: int, j: int)
  {
    j in m && k < j && forall i :: i in m && k < i ==> j <= i
  }

  function MergeNext(m: map<int, int>, k: int): map<int, int>
    requires k in m
  {
    var e := k + m[k];
    if Follows(m, k, e) then (m - {e})[k := m[k] + m[e]] else m
  }

  /** p is the key before k and its block ends where k starts. */
  predicate EndsBefore(m: map<int, int>, p: int, k: int)
  {
    p in m && Follows(m, p, k) && p + m[p] == k
  }

  /** Merge k into the key before it, if that block ends where k starts. */
  ghost function MergePrevious(m: map<int, int>, k: int): map<int, int>
    requires k in m
  {
    if exists p :: EndsBefore(m, p, k) then
      var p :| EndsBefore(m, p, k);
      (m - {k})[p := m[p] + m[k]]
    else m
  }

  /** custom_free as a function of the whole memory. */
  ghost function FreeBlock(mem: Memory, address: int): Memory
  {
    if address !in mem.used then mem
    else
      var available := mem.available[address := mem.used[address]];
      mem.(available := MergePrevious(MergeNext(available, address), address), used := mem.used - {address})
  }

  /** Joining two adjacent blocks keeps the tiling, and what they hold. */
  lemma JoinTiles(m: map<int, int>, total: int, k: int)
    requires Tiles(m, total) && k in m && k + m[k] in m
    ensures var e := k + m[k];
            Tiles((m - {e})[k := m[k] + m[e]], total)
  {
    var e := k + m[k];
    var m' := (m - {e})[k := m[k] + m[e]];
    forall a | 0 <= a < total ensures Covered(m', a) {
      assert Covered(m, a);
      var t :| Holds(m, t, a);
      assert Holds(m', if t == e then k else t, a);
    }
  }

  lemma JoinCovers(m: map<int, int>, k: int, a: int)
    requires k in m && k + m[k] in m && 0 < m[k] && 0 < m[k + m[k]]
    ensures var e := k + m[k];
            Covered((m - {e})[k := m[k] + m[e]], a) <==> Covered(m, a)
  {
    var e := k + m[k];
    var m' := (m - {e})[k := m[k] + m[e]];
    if t :| Holds(m, t, a) {
      assert Holds(m', if t == e then k else t, a);
    }
    if t :| Holds(m', t, a) {
      assert Holds(m, if t == k && a >= e then e else t, a);
    }
  }

  /** No two blocks touch unless one of them is k. */
  ghost predicate OnlyTouches(m: map<int, int>, k: int)
  {
    forall s :: s in m && s != k && s + m[s] != k ==> s + m[s] !in m
  }

  /** While a block is being merged: everything tiles, and only k may touch another
      free block, at its end if `atEnd`. */
  ghost predicate Merging(mem: Memory, k: int, atEnd: bool)
  {
    && mem.available.Keys !! mem.used.Keys && k in mem.available
    && Tiles(mem.available + mem.used, mem.total)
    && OnlyTouches(mem.available, k)
    && (!atEnd ==> k + mem.available[k] !in mem.available)
  }

  /** Among tiling blocks, being adjacent and being the next key agree. */
  lemma AdjacentFollows(mem: Memory, s: int)
    requires mem.available.Keys !! mem.used.Keys && Tiles(mem.available + mem.used, mem.total)
    requires s in mem.available && s + mem.available[s] in mem.available
    ensures Follows(mem.available, s, s + mem.available[s])
  {
    var all := mem.available + mem.used;
    forall i | i in mem.available && s < i ensures s + mem.available[s] <= i {
      assert all[s] == mem.available[s] && i in all;
    }
    assert 0 < all[s];
  }

  /** Two adjacent free blocks made one: m is what is then available. */
  lemma JoinFree(mem: Memory, k: int, m: map<int, int>)
    requires mem.available.Keys !! mem.used.Keys && Tiles(mem.available + mem.used, mem.total)
    requires k in mem.available && k + mem.available[k] in mem.available
    requires var e := k + mem.available[k]; m == (mem.available - {e})[k := mem.available[k] + mem.available[e]]
    ensures m.Keys !! mem.used.Keys && Tiles(m + mem.used, mem.total)
  {
    var e, all := k + mem.available[k], mem.available + mem.used;
    assert all[k] == mem.available[k] && all[e] == mem.available[e];
    JoinTiles(all, mem.total, k);
    assert m + mem.used == (all - {e})[k := all[k] + all[e]];
  }

  lemma JoinCoversAll(mem: Memory, k: int)
    requires Tiles(mem.available + mem.used, mem.total) && mem.available.Keys !! mem.used.Keys
    requires k in mem.available && k + mem.available[k] in mem.available
    ensures var e := k + mem.available[k];
            forall a :: Covered((mem.available - {e})[k := mem.available[k] + mem.available[e]], a)
                   <==> Covered(mem.available, a)
  {
    var e, all := k + mem.available[k], mem.available + mem.used;
    assert all[k] == mem.available[k] && all[e] == mem.available[e];
    forall a ensures Covered((mem.available - {e})[k := mem.available[k] + mem.available[e]], a)
                <==> Covered(mem.available, a)
    {
      JoinCovers(mem.available, k, a);
    }
  }

  lemma MergeNextTouches(mem: Memory, k: int)
    requires Merging(mem, k, true) && k + mem.available[k] in mem.available
    ensures var m := mem.available;
            var e := k + m[k];
            var m' := (m - {e})[k := m[k] + m[e]];
            OnlyTouches(m', k) && k + m'[k] !in m'
  {
    var m, all := mem.available, mem.available + mem.used;
    var e := k + m[k];
    assert all[k] == m[k] > 0 && all[e] == m[e] > 0;
    assert e + m[e] !in m;
  }

  lemma MergeNextWorks(mem: Memory, k: int)
    requires Merging(mem, k, true)
    ensures var mem' := mem.(available := MergeNext(mem.available, k));
            Merging(mem', k, false) && forall a :: Free(mem', a) <==> Free(mem, a)
  {
    if k + mem.available[k] in mem.available {
      AdjacentFollows(mem, k);
      MergeNextJoins(mem, k, MergeNext(mem.available, k));
    }
  }

  lemma MergeNextJoins(mem: Memory, k: int, m: map<int, int>)
    requires Merging(mem, k, true) && k + mem.available[k] in mem.available
    requires var e := k + mem.available[k]; m == (mem.available - {e})[k := mem.available[k] + mem.available[e]]
    ensures Merging(mem.(available := m), k, false) && forall a :: Covered(m, a) <==> Covered(mem.available, a)
  {
    JoinFree(mem, k, m);
    JoinCoversAll(mem, k);
    MergeNextTouches(mem, k);
  }

  /** Only the block p ends at k. */
  lemma OneEndsAt(mem: Memory, p: int, s: int, k: int)
    requires mem.available.Keys !! mem.used.Keys && Tiles(mem.available + mem.used, mem.total)
    requires p in mem.available && s in mem.available
    requires p + mem.available[p] == k == s + mem.available[s]
    ensures p == s
  {
    var all := mem.available + mem.used;
    assert Holds(all, p, k - 1) && Holds(all, s, k - 1);
    SameBlock(all, mem.total, p, s, k - 1);
  }

  lemma MergePreviousTouches(mem: Memory, k: int, p: int)
    requires Merging(mem, k, false) && p in mem.available && p + mem.available[p] == k
    ensures NoneTouch((mem.available - {k})[p := mem.available[p] + mem.available[k]])
  {
    var m := mem.available;
    var m' := (m - {k})[p := m[p] + m[k]];
    forall s | s in m' ensures s + m'[s] !in m' {
      if s != p && s + m[s] == k {
        OneEndsAt(mem, p, s, k);
      }
    }
  }

  lemma MergeIntoPrevious(mem: Memory, k: int, p: int)
    requires Merging(mem, k, false) && p in mem.available && p + mem.available[p] == k
    ensures var m' := (mem.available - {k})[p := mem.available[p] + mem.available[k]];
            Tiled(mem.(available := m')) && forall a :: Covered(m', a) <==> Covered(mem.available, a)
  {
    JoinFree(mem, p, (mem.available - {k})[p := mem.available[p] + mem.available[k]]);
    JoinCoversAll(mem, p);
    MergePreviousTouches(mem, k, p);
  }

  lemma MergePreviousWorks(mem: Memory, k: int)
    requires Merging(mem, k, false)
    ensures var mem' := mem.(available := MergePrevious(mem.available, k));
            Tiled(mem') && forall a :: Free(mem', a) <==> Free(mem, a)
  {
    var m := mem.available;
    if p :| EndsBefore(m, p, k) {
      assert forall q :: EndsBefore(m, q, k) ==> q == p;
      assert MergePrevious(m, k) == (m - {k})[p := m[p] + m[k]];
      MergeIntoPrevious(mem, k, p);
    } else {
      NothingEndsBefore(mem, k);
    }
  }

  lemma NothingEndsBefore(mem: Memory, k: int)
    requires Merging(mem, k, false) && forall p :: !EndsBefore(mem.available, p, k)
    ensures NoneTouch(mem.available)
  {
    var m := mem.available;
    forall s | s in m ensures s + m[s] !in m {
      if s + m[s] == k {
        AdjacentFollows(mem, s);
        assert EndsBefore(m, s, k);
      }
    }
  }

  /** Freeing an allocated block adds exactly its addresses to the free ones, and
      keeps the tiling; any other address is refused and changes nothing. */
  lemma FreeKeepsTiled(mem: Memory, address: int)
    requires Tiled(mem)
    ensures var mem' := FreeBlock(mem, address);
            && Tiled(mem') && mem'.total == mem.total
            && mem'.used == mem.used - {address}
            && forall a :: Free(mem', a) <==> Free(mem, a) || Holds(mem.used, address, a)
  {
    if address in mem.used {
      var added := mem.(available := mem.available[address := mem.used[address]], used := mem.used - {address});
      assert added.available + added.used == mem.available + mem.used;
      FreedIsMerging(mem, address, added);
      forall a ensures Free(added, a) <==> Free(mem, a) || Holds(mem.used, address, a) {
        if t :| Holds(added.available, t, a) {
          assert t != address ==> Holds(mem.available, t, a);
        }
        if t :| Holds(mem.available, t, a) {
          assert Holds(added.available, t, a);
        }
        assert Holds(mem.used, address, a) ==> Holds(added.available, address, a);
      }
      MergeNextWorks(added, address);
      MergePreviousWorks(added.(available := MergeNext(added.available, address)), address);
    } else {
      assert mem.used - {address} == mem.used;
    }
  }

  lemma FreedIsMerging(mem: Memory, address: int, added: Memory)
    requires Tiled(mem) && address in mem.used
    requires added == mem.(available := mem.available[address := mem.used[address]], used := mem.used - {address})
    ensures Merging(added, address, true)
  {
    assert added.available + added.used == mem.available + mem.used;
  }

  // ------------------------------------------------------ what follows for clients

  /** For requests of positive size: -1 exactly when no run of that many free
      addresses exists, otherwise the lowest one, which becomes the new block. */
  lemma MallocFindsLowestRun(mem: Memory, n: int)
    requires Valid(mem) && n > 0
    ensures var (mem', r) := Malloc(mem, n);
            && Valid(mem') && mem'.total == mem.total
            && (r == -1 <==> forall a :: !FreeRun(mem, a, n))
            && (r == -1 ==> mem' == mem)
            && (r != -1 ==>
                  && FreeRun(mem, r, n) && (forall a :: a < r ==> !FreeRun(mem, a, n))
                  && r !in mem.used && mem'.used == mem.used[r := n]
                  && forall a :: Free(mem', a) <==> Free(mem, a) && !(r <= a < r + n))
  {
    var (mem', r) := Malloc(mem, n);
    if mem.total <= 0 {
      forall a ensures !FreeRun(mem, a, n) {
        assert !Free(mem, a);
      }
    } else if exists s :: FirstFit(mem.available, n, s) {
      var all := mem.available + mem.used;
      assert FirstFit(mem.available, n, r) && r in all;
      FirstFitIsLowestRun(mem, n, r);
      CarveKeepsTiled(mem, n, r);
      forall a ensures Free(mem', a) <==> Free(mem, a) && !(r <= a < r + n) {
        CarveTakesRun(mem, n, r, a);
      }
    } else {
      if exists k :: k in mem.available && n <= mem.available[k] {
        var s := FitExists(mem.available, n);
        assert false;
      }
      forall a ensures !FreeRun(mem, a, n) {
        NoFitMeansNoRun(mem, n, a);
      }
    }
  }

  /** The restriction to positive sizes is exact: a request of size zero or less
      breaks the tiling of any memory that has a free block. */
  lemma MallocKeepsTilingIff(mem: Memory, n: int)
    requires Tiled(mem)
    ensures Tiled(Malloc(mem, n).0) <==> n > 0 || mem.available == map[]
  {
    var (mem', r) := Malloc(mem, n);
    if n > 0 {
      if exists s :: FirstFit(mem.available, n, s) {
        CarveKeepsTiled(mem, n, r);
      }
    } else if mem.available != map[] {
      var all := mem.available + mem.used;
      var k := ElementOf(mem.available.Keys);
      assert k in all && n <= mem.available[k];
      var s := FitExists(mem.available, n);
      assert mem'.used[r] == n;
      assert r in mem'.available + mem'.used && (mem'.available + mem'.used)[r] == n;
    }
  }

  /** The free list carries no history: it is determined by the allocated blocks. */
  lemma AvailableIsDetermined(mem: Memory, other: Memory)
    requires Tiled(mem) && Tiled(other) && mem.total == other.total && mem.used == other.used
    ensures mem.available == other.available
  {
    forall s | s in mem.available ensures s in other.available && other.available[s] == mem.available[s] {
      BlockIsDetermined(mem, other, s);
    }
    forall s | s in other.available ensures s in mem.available {
      BlockIsDetermined(other, mem, s);
    }
  }

  lemma FreeIsUnused(mem: Memory, other: Memory, a: int)
    requires Tiled(mem) && Tiled(other) && mem.total == other.total && mem.used == other.used
    requires Free(mem, a)
    ensures Free(other, a)
  {
    var all, others := mem.available + mem.used, other.available + other.used;
    var s :| Holds(mem.available, s, a);
    assert Holds(all, s, a);
    assert Covered(others, a);
    var t :| Holds(others, t, a);
    if t in other.used {
      assert Holds(all, t, a);
      SameBlock(all, mem.total, s, t, a);
    }
    assert Holds(other.available, t, a);
  }

  /** A free block is a maximal run of free addresses. */
  lemma NotFreeAround(mem: Memory, s: int)
    requires Tiled(mem) && s in mem.available
    ensures !Free(mem, s - 1) && !Free(mem, s + mem.available[s])
  {
    var all := mem.available + mem.used;
    var e := s + mem.available[s];
    assert all[s] == mem.available[s];
    forall u | u in mem.available ensures !Holds(mem.available, u, s - 1) && !Holds(mem.available, u, e) {
      assert u in all && all[u] == mem.available[u];
    }
  }

  lemma BlockIsDetermined(mem: Memory, other: Memory, s: int)
    requires Tiled(mem) && Tiled(other) && mem.total == other.total && mem.used == other.used
    requires s in mem.available
    ensures s in other.available && other.available[s] == mem.available[s]
  {
    StartIsDetermined(mem, other, s);
    EndIsBounded(mem, other, s);
    EndIsBounded(other, mem, s);
  }

  lemma StartIsDetermined(mem: Memory, other: Memory, s: int)
    requires Tiled(mem) && Tiled(other) && mem.total == other.total && mem.used == other.used
    requires s in mem.available
    ensures s in other.available
  {
    var all := mem.available + mem.used;
    assert s in all && Holds(mem.available, s, s);
    FreeIsUnused(mem, other, s);
    NotFreeAround(mem, s);
    var t :| Holds(other.available, t, s);
    if t < s {
      assert Holds(other.available, t, s - 1);
      FreeIsUnused(other, mem, s - 1);
    }
  }

  lemma EndIsBounded(mem: Memory, other: Memory, s: int)
    requires Tiled(mem) && Tiled(other) && mem.total == other.total && mem.used == other.used
    requires s in mem.available && s in other.available
    ensures mem.available[s] >= other.available[s]
  {
    var e := s + mem.available[s];
    NotFreeAround(mem, s);
    assert s in mem.available + mem.used;
    if mem.available[s] < other.available[s] {
      assert Holds(other.available, s, e);
      FreeIsUnused(other, mem, e);
    }
  }

  /** Whatever the order of allocations and frees, once nothing is allocated the
      memory is one free block again. */
  lemma FreeingEverythingRestores(mem: Memory)
    requires Tiled(mem) && mem.total > 0 && mem.used == map[]
    ensures mem.available == map[0 := mem.total]
  {
    var whole := Memory(mem.total, map[0 := mem.total], map[]);
    InitIsValid(mem.total);
    AvailableIsDetermined(mem, whole);
  }

  lemma InitIsValid(total: int)
    ensures Valid(Memory(total, map[0 := total], map[]))
  {
    if total > 0 {
      var whole := Memory(total, map[0 := total], map[]);
      forall a | 0 <= a < total ensures Covered(whole.available + whole.used, a) {
        assert Holds(whole.available + whole.used, 0, a);
      }
    }
  }

  // ---------------------------------------------------------------- runs of calls

  datatype Call = MallocCall(size: int) | FreeCall(address: int)

  ghost function After(mem: Memory, calls: seq<Call>): Memory
  {
    if calls == [] then mem
    else
      var before := After(mem, calls[..|calls| - 1]);
      match calls[|calls| - 1]
      case MallocCall(n) => Malloc(before, n).0
      case FreeCall(a) => FreeBlock(before, a)
  }

  /** Through every run of positive requests and arbitrary frees the blocks tile the
      memory; and a run that leaves nothing allocated restores the one free block. */
  lemma {:induction false} RunKeepsTiling(total: int, calls: seq<Call>)
    requires forall i :: 0 <= i < |calls| && calls[i].MallocCall? ==> calls[i].size > 0
    ensures var mem := After(Memory(total, map[0 := total], map[]), calls);
            && Valid(mem) && mem.total == total
            && (mem.used == map[] ==> mem.available == map[0 := total])
  {
    var whole := Memory(total, map[0 := total], map[]);
    InitIsValid(total);
    if calls != [] {
      var last := |calls| - 1;
      RunKeepsTiling(total, calls[..last]);
      var before := After(whole, calls[..last]);
      match calls[last] {
        case MallocCall(n) => MallocFindsLowestRun(before, n);
        case FreeCall(a) =>
          if total > 0 {
            FreeKeepsTiled(before, a);
          }
      }
    }
    var mem := After(whole, calls);
    if total > 0 && mem.used == map[] {
      FreeingEverythingRestores(mem);
    }
  }

  // -------------------------------------------------------------------- the class

  class DynamicMemoryAllocator {
    const total: int
    var available: map<int, int>
    var used: map<int, int>

    function View(): Memory
      reads this
    {
      Memory(total, available, used)
    }

    constructor (totalMemory: int)
      ensures View() == Memory(totalMemory, map[0 := totalMemory], map[]) && Valid(View())
    {
      total, available, used := totalMemory, map[0 := totalMemory], map[];
      new;
      InitIsValid(totalMemory);
    }

    /** Scans the free blocks in address order. */
    method CustomMalloc(requested: int) returns (address: int)
      modifies this
      ensures (View(), address) == Malloc(old(View()), requested)
    {
      var rest := available.Keys;
      while rest != {}
        invariant View() == old(View()) && rest <= available.Keys
        invariant forall k :: k in available && k !in rest ==> available[k] < requested
        decreases rest
      {
        ghost var least := Least(rest);
        var start :| start in rest && forall k :: k in rest ==> start <= k;
        var size := available[start];
        if requested <= size {
          assert FirstFit(available, requested, start);
          available := available - {start};
          used := used[start := requested];
          if requested < size {
            available := available[start + requested := size - requested];
          }
          return start;
        }
        rest := rest - {start};
      }
      return -1;
    }

    /** Frees a block and merges it with its free neighbours, next first. */
    method CustomFree(address: int)
      modifies this
      ensures View() == FreeBlock(old(View()), address)
    {
      if address !in used {
        return;
      }
      available := available[address := used[address]];
      used := used - {address};
      MergeWithNext(address);
      MergeWithPrevious(address);
    }

    method MergeWithNext(curr: int)
      requires curr in available
      modifies this`available
      ensures available == MergeNext(old(available), curr) && curr in available
    {
      if exists j :: j in available && curr < j {
        ghost var least := NextExists(available, curr);
        var next :| next in available && Follows(available, curr, next);
        FollowsOnce(available, curr, next);
        if curr + available[curr] == next {
          available := (available - {next})[curr := available[curr] + available[next]];
        }
      }
    }

    method MergeWithPrevious(curr: int)
      requires curr in available
      modifies this`available
      ensures available == MergePrevious(old(available), curr)
    {
      if exists j :: j in available && j < curr {
        ghost var greatest := PreviousExists(available, curr);
        var previous :| previous in available && Follows(available, previous, curr);
        FollowedOnce(available, previous, curr);
        if previous + available[previous] == curr {
          assert EndsBefore(available, previous, curr);
          available := (available - {curr})[previous := available[previous] + available[curr]];
        }
      }
    }
  }

  lemma NextExists(m: map<int, int>, k: int) returns (next: int)
    requires exists j :: j in m && k < j
    ensures Follows(m, k, next)
  {
    var later := set j | j in m && k < j;
    var j :| j in m && k < j;
    assert j in later;
    next := Least(later);
    assert forall i :: i in m && k < i ==> i in later;
  }

  lemma FollowsOnce(m: map<int, int>, k: int, next: int)
    requires Follows(m, k, next)
    ensures forall j :: Follows(m, k, j) ==> j == next
  {
  }

  lemma FollowedOnce(m: map<int, int>, previous: int, k: int)
    requires previous in m && Follows(m, previous, k)
    ensures forall q :: EndsBefore(m, q, k) ==> q == previous
  {
    assert forall q :: q in m && q != previous && Follows(m, q, k) ==> k <= previous || k <= q;
  }

  lemma PreviousExists(m: map<int, int>, k: int) returns (previous: int)
    requires k in m && exists j :: j in m && j < k
    ensures previous in m && Follows(m, previous, k)
  {
    var earlier := set j | j in m && j < k;
    var j :| j in m && j < k;
    assert j in earlier;
    previous := Greatest(earlier);
    forall i | i in m && previous < i ensures k <= i {
      assert i !in earlier;
    }
  }
}
