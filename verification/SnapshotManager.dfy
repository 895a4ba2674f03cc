/** The copy-on-write snapshot manager. */
module SnapshotManager {
  // Immutable blocks are shared by reference counting between the current file and any
  // number of snapshots.

  import opened Options
  import opened RefCounts

  datatype Block = Block(data: string, refCount: int)

  predicate Stored(store: map<int, Block>, ids: seq<int>)
  {
    forall i :: 0 <= i < |ids| ==> ids[i] in store
  }

  /** What a list of blocks reads as. */
  function Read(store: map<int, Block>, ids: seq<int>): (r: seq<string>)
    requires Stored(store, ids)
    ensures |r| == |ids| && forall i :: 0 <= i < |ids| ==> r[i] == store[ids[i]].data
  {
    seq(|ids|, i requires 0 <= i < |ids| => store[ids[i]].data)
  }

  /** Each count is the number of references, and only referenced blocks are stored. */
  ghost predicate Counted(store: map<int, Block>, refs: multiset<int>)
  {
    forall b :: (b in store <==> refs[b] > 0) && (b in store ==> store[b].refCount == refs[b])
  }

  ghost predicate SameData(store: map<int, Block>, store': map<int, Block>)
  {
    forall b :: b in store && b in store' ==> store'[b].data == store[b].data
  }

  lemma ReferencedIsStored(store: map<int, Block>, refs: multiset<int>, ids: seq<int>)
    requires Counted(store, refs) && multiset(ids) <= refs
    ensures Stored(store, ids)
  {
    forall i | 0 <= i < |ids| ensures ids[i] in store {
      var b := ids[i];
      assert b in multiset(ids) && refs[b] > 0;
      assert b in store;
    }
  }

  lemma ReadKept(store: map<int, Block>, store': map<int, Block>, ids: seq<int>)
    requires Stored(store, ids) && Stored(store', ids) && SameData(store, store')
    ensures Read(store', ids) == Read(store, ids)
  {
    forall i | 0 <= i < |ids| ensures Read(store', ids)[i] == Read(store, ids)[i] {
      var b := ids[i];
      assert b in store && b in store' && store'[b].data == store[b].data;
    }
  }

  /** Each snapshot's references are among all references. */
  lemma SnapshotRefs(snapshots: map<int, seq<int>>, v: int)
    requires v in snapshots
    ensures multiset(snapshots[v]) <= All(snapshots)
  {
    AllSplits(snapshots, v);
  }

  predicate Intact(store: map<int, Block>, ids: seq<int>, content: seq<string>)
  {
    Stored(store, ids) && Read(store, ids) == content
  }

  /** Every snapshot reads as what was recorded for it. */
  ghost predicate AllIntact(store: map<int, Block>, snapshots: map<int, seq<int>>, taken: map<int, seq<string>>)
  {
    taken.Keys == snapshots.Keys && forall v :: v in snapshots ==> Intact(store, snapshots[v], taken[v])
  }

  /** Whatever happens to the counts, snapshots stay intact as long as their blocks are
      still referenced and no block's data changes. */
  lemma SnapshotsSurvive(store: map<int, Block>, store': map<int, Block>, snapshots: map<int, seq<int>>, taken: map<int, seq<string>>, refs': multiset<int>)
    requires AllIntact(store, snapshots, taken) && SameData(store, store')
    requires Counted(store', refs') && All(snapshots) <= refs'
    ensures AllIntact(store', snapshots, taken)
  {
    forall v | v in snapshots ensures Intact(store', snapshots[v], taken[v]) {
      SnapshotRefs(snapshots, v);
      ReferencedIsStored(store', refs', snapshots[v]);
      assert Intact(store, snapshots[v], taken[v]);
      ReadKept(store, store', snapshots[v]);
    }
  }

  lemma RemovedStayIntact(store: map<int, Block>, snapshots: map<int, seq<int>>, taken: map<int, seq<string>>, version: int)
    requires AllIntact(store, snapshots, taken)
    ensures AllIntact(store, snapshots - {version}, taken - {version})
  {
    forall v | v in snapshots - {version} ensures Intact(store, (snapshots - {version})[v], (taken - {version})[v]) {
      assert Intact(store, snapshots[v], taken[v]);
    }
  }

  lemma AddedIsIntact(store: map<int, Block>, snapshots: map<int, seq<int>>, taken: map<int, seq<string>>, version: int, ids: seq<int>)
    requires AllIntact(store, snapshots, taken) && Stored(store, ids)
    ensures AllIntact(store, snapshots[version := ids], taken[version := Read(store, ids)])
  {
    var all, contents := snapshots[version := ids], taken[version := Read(store, ids)];
    forall v | v in all ensures Intact(store, all[v], contents[v]) {
      assert v != version ==> Intact(store, snapshots[v], taken[v]);
    }
  }

  // --------------------------------------------------- the state and its operations

  datatype Volume = Volume(
    nextBlockId: int, nextVersion: int, store: map<int, Block>, snapshots: map<int, seq<int>>, current: seq<int>)

  ghost function Refs(v: Volume): multiset<int>
  {
    multiset(v.current) + All(v.snapshots)
  }

  /** Counts are exact, only referenced blocks are stored, and every live snapshot reads
      as `taken` recorded it. */
  ghost predicate Valid(v: Volume, taken: map<int, seq<string>>)
  {
    && Counted(v.store, Refs(v))
    && (forall b :: b in v.store ==> b < v.nextBlockId)
    && (forall n :: n in v.snapshots ==> n < v.nextVersion)
    && AllIntact(v.store, v.snapshots, taken)
  }

  lemma CurrentIsStored(v: Volume, taken: map<int, seq<string>>)
    requires Valid(v, taken)
    ensures Stored(v.store, v.current)
  {
    ReferencedIsStored(v.store, Refs(v), v.current);
  }

  ghost function File(v: Volume): seq<string>
    requires Stored(v.store, v.current)
  {
    Read(v.store, v.current)
  }

  /** One more reference to each of these blocks. */
  function Incremented(store: map<int, Block>, ids: seq<int>): map<int, Block>
  {
    if ids == [] then store
    else
      var s, id := Incremented(store, ids[..|ids| - 1]), ids[|ids| - 1];
      if id in s then s[id := Block(s[id].data, s[id].refCount + 1)] else s
  }

  /** One reference less; a block that loses its last reference is deleted. */
  function Decremented(store: map<int, Block>, ids: seq<int>): map<int, Block>
  {
    if ids == [] then store
    else
      var s, id := Decremented(store, ids[..|ids| - 1]), ids[|ids| - 1];
      if id !in s then s
      else if s[id].refCount == 1 then s - {id}
      else s[id := Block(s[id].data, s[id].refCount - 1)]
  }

  ghost function Written(v: Volume, data: string): Volume
  {
    v.(nextBlockId := v.nextBlockId + 1,
       store := v.store[v.nextBlockId := Block(data, 1)],
       current := v.current + [v.nextBlockId])
  }

  ghost function Created(v: Volume): Volume
  {
    v.(nextVersion := v.nextVersion + 1,
       snapshots := v.snapshots[v.nextVersion := v.current],
       store := Incremented(v.store, v.current))
  }

  ghost function Restored(v: Volume, version: int): Volume
  {
    if version !in v.snapshots then v
    else
      var ids := v.snapshots[version];
      v.(store := Incremented(Decremented(v.store, v.current), ids), current := ids)
  }

  ghost function Deleted(v: Volume, version: int): Volume
  {
    if version !in v.snapshots then v
    else v.(store := Decremented(v.store, v.snapshots[version]), snapshots := v.snapshots - {version})
  }

  lemma {:induction false} IncrementCounts(store: map<int, Block>, refs: multiset<int>, ids: seq<int>)
    requires Counted(store, refs) && Stored(store, ids)
    ensures Counted(Incremented(store, ids), refs + multiset(ids)) && SameData(store, Incremented(store, ids))
    ensures Incremented(store, ids).Keys == store.Keys
  {
    if ids != [] {
      var front, id := ids[..|ids| - 1], ids[|ids| - 1];
      assert ids == front + [id];
      IncrementCounts(store, refs, front);
      assert refs + multiset(ids) == refs + multiset(front) + multiset{id};
    }
  }

  lemma {:induction false} DecrementCounts(store: map<int, Block>, refs: multiset<int>, ids: seq<int>)
    requires Counted(store, refs) && multiset(ids) <= refs
    ensures Counted(Decremented(store, ids), refs - multiset(ids)) && SameData(store, Decremented(store, ids))
    ensures Decremented(store, ids).Keys <= store.Keys
  {
    if ids != [] {
      var front, id := ids[..|ids| - 1], ids[|ids| - 1];
      assert ids == front + [id];
      assert multiset(ids) == multiset(front) + multiset{id};
      DecrementCounts(store, refs, front);
      assert refs - multiset(ids) == refs - multiset(front) - multiset{id};
    }
  }

  lemma WriteCounts(v: Volume, taken: map<int, seq<string>>, data: string)
    requires Valid(v, taken)
    ensures var v' := Written(v, data);
            && Counted(v'.store, Refs(v')) && SameData(v.store, v'.store)
            && Refs(v') == Refs(v) + multiset{v.nextBlockId}
  {
    var v' := Written(v, data);
    var id := v.nextBlockId;
    assert id !in v.store && Refs(v)[id] == 0;
    assert multiset(v'.current) == multiset(v.current) + multiset{id};
    assert Refs(v') == Refs(v) + multiset{id};
  }

  lemma WriteAppends(v: Volume, data: string)
    requires Stored(v.store, v.current) && v.nextBlockId !in v.store
    ensures var v' := Written(v, data);
            Stored(v'.store, v'.current) && File(v') == File(v) + [data]
  {
  }

  /** Writing appends to the file and touches no snapshot. */
  lemma WriteKeeps(v: Volume, taken: map<int, seq<string>>, data: string)
    requires Valid(v, taken)
    ensures var v' := Written(v, data);
            && Valid(v', taken) && Stored(v.store, v.current) && Stored(v'.store, v'.current)
            && File(v') == File(v) + [data]
  {
    var v' := Written(v, data);
    WriteCounts(v, taken, data);
    SnapshotsSurvive(v.store, v'.store, v.snapshots, taken, Refs(v'));
    CurrentIsStored(v, taken);
    WriteAppends(v, data);
  }

  lemma CreateCounts(v: Volume, taken: map<int, seq<string>>)
    requires Valid(v, taken)
    ensures var v' := Created(v);
            && Counted(v'.store, Refs(v')) && SameData(v.store, v'.store) && v'.store.Keys == v.store.Keys
            && All(v'.snapshots) <= Refs(v')
  {
    var v' := Created(v);
    CurrentIsStored(v, taken);
    IncrementCounts(v.store, Refs(v), v.current);
    NewSnapshotRefs(v.snapshots, v.nextVersion, v.current);
    assert Refs(v') == Refs(v) + multiset(v.current);
  }

  lemma NewSnapshotRefs(snapshots: map<int, seq<int>>, version: int, ids: seq<int>)
    requires version !in snapshots
    ensures All(snapshots[version := ids]) == All(snapshots) + multiset(ids)
  {
    AllOfUpdate(snapshots, version, ids);
    assert snapshots - {version} == snapshots;
  }

  /** A snapshot records the file as it is at that moment. */
  lemma CreateKeeps(v: Volume, taken: map<int, seq<string>>)
    requires Valid(v, taken)
    ensures var v' := Created(v);
            && Stored(v.store, v.current) && Valid(v', taken[v.nextVersion := File(v)])
            && Stored(v'.store, v'.current) && File(v') == File(v)
  {
    var v' := Created(v);
    CurrentIsStored(v, taken);
    CreateCounts(v, taken);
    AddedIsIntact(v.store, v.snapshots, taken, v.nextVersion, v.current);
    SnapshotsSurvive(v.store, v'.store, v'.snapshots, taken[v.nextVersion := File(v)], Refs(v'));
    ReadKept(v.store, v'.store, v.current);
  }

  /** Restoring brings back what the snapshot recorded, also when the file and the
      snapshot share blocks and the file's references are dropped first. */
  lemma RestoreKeeps(v: Volume, taken: map<int, seq<string>>, version: int)
    requires Valid(v, taken) && version in v.snapshots
    ensures var v' := Restored(v, version);
            Valid(v', taken) && Stored(v'.store, v'.current) && File(v') == taken[version]
  {
    var v' := Restored(v, version);
    var others := All(v.snapshots);
    RestoreDrops(v, taken, version);
    var middle := Decremented(v.store, v.current);
    IncrementCounts(middle, others, v'.current);
    assert Refs(v') == others + multiset(v'.current);
    SnapshotsSurvive(middle, v'.store, v.snapshots, taken, Refs(v'));
    assert Intact(v'.store, v'.snapshots[version], taken[version]);
  }

  /** Halfway through a restore only the snapshots hold references, and that is enough
      to keep every one of them. */
  lemma RestoreDrops(v: Volume, taken: map<int, seq<string>>, version: int)
    requires Valid(v, taken) && version in v.snapshots
    ensures multiset(v.current) <= Refs(v)
    ensures var middle := Decremented(v.store, v.current);
            && Counted(middle, All(v.snapshots)) && AllIntact(middle, v.snapshots, taken)
            && Stored(middle, v.snapshots[version]) && middle.Keys <= v.store.Keys
  {
    var others := All(v.snapshots);
    assert Refs(v) - multiset(v.current) == others;
    DecrementCounts(v.store, Refs(v), v.current);
    var middle := Decremented(v.store, v.current);
    SnapshotsSurvive(v.store, middle, v.snapshots, taken, others);
    assert Intact(middle, v.snapshots[version], taken[version]);
  }

  lemma SnapshotIsReferenced(v: Volume, version: int)
    requires version in v.snapshots
    ensures multiset(v.snapshots[version]) <= Refs(v)
  {
    SnapshotRefs(v.snapshots, version);
  }

  lemma DeleteCounts(v: Volume, taken: map<int, seq<string>>, version: int)
    requires Valid(v, taken) && version in v.snapshots
    ensures var v' := Deleted(v, version);
            && Counted(v'.store, Refs(v')) && SameData(v.store, v'.store) && All(v'.snapshots) <= Refs(v')
            && v'.store.Keys <= v.store.Keys
  {
    var v' := Deleted(v, version);
    AllSplits(v.snapshots, version);
    DecrementCounts(v.store, Refs(v), v.snapshots[version]);
    assert Refs(v') == Refs(v) - multiset(v.snapshots[version]);
  }

  /** Deleting a snapshot leaves the file and every other snapshot as they were. */
  lemma DeleteKeeps(v: Volume, taken: map<int, seq<string>>, version: int)
    requires Valid(v, taken)
    ensures var v' := Deleted(v, version);
            && Valid(v', taken - {version}) && Stored(v.store, v.current) && Stored(v'.store, v'.current)
            && File(v') == File(v)
  {
    var v' := Deleted(v, version);
    CurrentIsStored(v, taken);
    if version in v.snapshots {
      DeleteCounts(v, taken, version);
      DeleteIntact(v, taken, version);
      CurrentIsStored(v', taken - {version});
      ReadKept(v.store, v'.store, v.current);
    } else {
      assert taken - {version} == taken;
    }
  }

  lemma DeleteIntact(v: Volume, taken: map<int, seq<string>>, version: int)
    requires Valid(v, taken) && version in v.snapshots
    ensures AllIntact(Deleted(v, version).store, v.snapshots - {version}, taken - {version})
  {
    var v' := Deleted(v, version);
    DeleteCounts(v, taken, version);
    RemovedStayIntact(v.store, v.snapshots, taken, version);
    SnapshotsSurvive(v.store, v'.store, v'.snapshots, taken - {version}, Refs(v'));
  }

  // --------------------------------------------------------------------- the class

  class Manager {
    var nextBlockId: int
    var nextVersion: int
    var blockStore: map<int, Block>
    var snapshots: map<int, seq<int>>
    var currentBlocks: seq<int>

    /** History: what each live snapshot read as when it was created. */
    ghost var taken: map<int, seq<string>>

    ghost function View(): Volume
      reads this
    {
      Volume(nextBlockId, nextVersion, blockStore, snapshots, currentBlocks)
    }

    ghost predicate Ok()
      reads this
    {
      Valid(View(), taken) && Stored(blockStore, currentBlocks)
    }

    constructor ()
      ensures Ok() && File(View()) == [] && snapshots == map[] && nextBlockId == nextVersion == 1
    {
      nextBlockId, nextVersion, blockStore, snapshots, currentBlocks := 1, 1, map[], map[], [];
      taken := map[];
    }

    method Write(data: string)
      requires Ok()
      modifies this`nextBlockId, this`blockStore, this`currentBlocks
      ensures Ok() && View() == Written(old(View()), data) && File(View()) == old(File(View())) + [data]
      ensures currentBlocks == old(currentBlocks) + [old(nextBlockId)] && nextBlockId == old(nextBlockId) + 1
    {
      WriteKeeps(View(), taken, data);
      AppendBlock(data);
    }

    method AppendBlock(data: string)
      modifies this`nextBlockId, this`blockStore, this`currentBlocks
      ensures View() == Written(old(View()), data)
    {
      var id := nextBlockId;
      nextBlockId := nextBlockId + 1;
      blockStore := blockStore[id := Block(data, 1)];
      currentBlocks := currentBlocks + [id];
    }

    method IncrementRefCount(ids: seq<int>, ghost refs: multiset<int>)
      requires Counted(blockStore, refs) && Stored(blockStore, ids)
      modifies this`blockStore
      ensures blockStore == Incremented(old(blockStore), ids)
    {
      for i := 0 to |ids|
        invariant blockStore == Incremented(old(blockStore), ids[..i])
      {
        assert ids[..i + 1][..i] == ids[..i];
        IncrementCounts(old(blockStore), refs, ids[..i]);
        var id := ids[i];
        assert id in blockStore;
        var block := blockStore[id];
        blockStore := blockStore[id := Block(block.data, block.refCount + 1)];
      }
      assert ids[..|ids|] == ids;
    }

    method DecrementRefCount(ids: seq<int>, ghost refs: multiset<int>)
      requires Counted(blockStore, refs) && multiset(ids) <= refs
      modifies this`blockStore
      ensures blockStore == Decremented(old(blockStore), ids)
    {
      for i := 0 to |ids|
        invariant blockStore == Decremented(old(blockStore), ids[..i])
      {
        assert ids[..i + 1][..i] == ids[..i];
        PrefixLeavesReference(ids, i, refs);
        DecrementCounts(old(blockStore), refs, ids[..i]);
        var id := ids[i];
        assert id in blockStore;
        var block := blockStore[id];
        if block.refCount - 1 == 0 {
          blockStore := blockStore - {id};
        } else {
          blockStore := blockStore[id := Block(block.data, block.refCount - 1)];
        }
      }
      assert ids[..|ids|] == ids;
    }

    method TakeSnapshot(ghost refs: multiset<int>) returns (version: int)
      requires Counted(blockStore, refs) && Stored(blockStore, currentBlocks)
      modifies this`nextVersion, this`snapshots, this`blockStore
      ensures View() == Created(old(View())) && version == old(nextVersion)
    {
      version := nextVersion;
      nextVersion := nextVersion + 1;
      snapshots := snapshots[version := currentBlocks];
      IncrementRefCount(currentBlocks, refs);
    }

    /** The new snapshot reads as the file does now. */
    method CreateSnapshot() returns (version: int)
      requires Ok()
      modifies this
      ensures Ok() && View() == Created(old(View())) && version == old(nextVersion) && version !in old(snapshots)
      ensures taken == old(taken)[version := old(File(View()))] && nextVersion == version + 1
    {
      ghost var v := View();
      CreateKeeps(v, taken);
      version := TakeSnapshot(Refs(v));
      taken := taken[version := File(v)];
    }

    method SwitchTo(version: int, ghost refs: multiset<int>, ghost others: multiset<int>)
      requires version in snapshots
      requires Counted(blockStore, refs) && multiset(currentBlocks) <= refs
      requires var middle := Decremented(blockStore, currentBlocks);
               Counted(middle, others) && Stored(middle, snapshots[version])
      modifies this`blockStore, this`currentBlocks
      ensures View() == Restored(old(View()), version)
    {
      DecrementRefCount(currentBlocks, refs);
      currentBlocks := snapshots[version];
      IncrementRefCount(currentBlocks, others);
    }

    /** The file reads as the snapshot did when it was created. */
    method RestoreSnapshot(version: int) returns (found: bool)
      requires Ok()
      modifies this`blockStore, this`currentBlocks
      ensures Ok() && View() == Restored(old(View()), version) && found == (version in snapshots)
      ensures File(View()) == if found then taken[version] else old(File(View()))
    {
      if version !in snapshots {
        return false;
      }
      ghost var v := View();
      RestoreKeeps(v, taken, version);
      RestoreDrops(v, taken, version);
      SwitchTo(version, Refs(v), All(snapshots));
      found := true;
    }

    method DropSnapshot(version: int, ghost refs: multiset<int>)
      requires version in snapshots && Counted(blockStore, refs) && multiset(snapshots[version]) <= refs
      modifies this`blockStore, this`snapshots
      ensures View() == Deleted(old(View()), version)
    {
      DecrementRefCount(snapshots[version], refs);
      snapshots := snapshots - {version};
    }

    method DeleteSnapshot(version: int)
      requires Ok()
      modifies this`blockStore, this`snapshots, this`taken
      ensures Ok() && View() == Deleted(old(View()), version) && File(View()) == old(File(View()))
      ensures taken == old(taken) - {version}
    {
      ghost var v := View();
      DeleteKeeps(v, taken, version);
      if version in snapshots {
        SnapshotIsReferenced(v, version);
        DropSnapshot(version, Refs(v));
      }
      taken := taken - {version};
    }

    /** A live snapshot reads as it did when it was created. */
    method ReadSnapshot(version: int) returns (content: Option<seq<string>>)
      requires Ok()
      ensures content == if version in snapshots then Some(taken[version]) else None
    {
      if version !in snapshots {
        return None;
      }
      assert Intact(blockStore, snapshots[version], taken[version]);
      var read := ReadBlocks(snapshots[version]);
      return Some(read);
    }

    method ReadBlocks(ids: seq<int>) returns (content: seq<string>)
      requires Stored(blockStore, ids)
      ensures content == Read(blockStore, ids)
    {
      content := [];
      for i := 0 to |ids|
        invariant content == Read(blockStore, ids)[..i]
      {
        content := content + [blockStore[ids[i]].data];
      }
    }
  }

  lemma PrefixLeavesReference(ids: seq<int>, i: nat, refs: multiset<int>)
    requires i < |ids| && multiset(ids) <= refs
    ensures multiset(ids[..i])[ids[i]] < refs[ids[i]] && multiset(ids[..i]) <= refs
  {
    assert ids == ids[..i] + [ids[i]] + ids[i + 1..];
    assert multiset(ids) == multiset(ids[..i]) + multiset{ids[i]} + multiset(ids[i + 1..]);
  }
}
