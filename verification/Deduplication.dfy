/** The deduplicating chunk store. */
module Deduplication {
  // Files are split into fixed-size chunks, equal chunks are stored once under their
  // fingerprint, and reference counts decide when a chunk is dropped.
  //
  // The fingerprint is a parameter. It is asked to be free of collisions only on the
  // chunks that are actually seen.

  import opened RefCounts

  // -------------------------------------------------------------------- the chunker

  function Join(chunks: seq<string>): string
  {
    if chunks == [] then "" else Join(chunks[..|chunks| - 1]) + chunks[|chunks| - 1]
  }

  function Split(data: string, size: nat): seq<string>
    requires size >= 1
    decreases |data|
  {
    if data == [] then []
    else if |data| <= size then [data]
    else [data[..size]] + Split(data[size..], size)
  }

  lemma {:induction false} JoinConcat(a: seq<string>, b: seq<string>)
    ensures Join(a + b) == Join(a) + Join(b)
    decreases |b|
  {
    if b == [] {
      assert a + b == a;
    } else {
      var front, last := b[..|b| - 1], b[|b| - 1];
      JoinConcat(a, front);
      assert (a + b)[..|a + b| - 1] == a + front;
    }
  }

  lemma JoinOne(chunk: string)
    ensures Join([chunk]) == chunk
  {
    assert [chunk][..0] == [];
  }

  /** Nothing is lost or reordered. */
  lemma {:induction false} SplitJoins(data: string, size: nat)
    requires size >= 1
    ensures Join(Split(data, size)) == data
    decreases |data|
  {
    if |data| > size {
      SplitJoins(data[size..], size);
      JoinConcat([data[..size]], Split(data[size..], size));
      JoinOne(data[..size]);
      assert data[..size] + data[size..] == data;
    } else if data != [] {
      JoinOne(data);
    }
  }

  /** No chunk is empty, and every chunk but the last is full. */
  lemma {:induction false} SplitSizes(data: string, size: nat)
    requires size >= 1
    ensures forall i :: 0 <= i < |Split(data, size)| ==> 0 < |Split(data, size)[i]| <= size
    ensures forall i :: 0 <= i < |Split(data, size)| - 1 ==> |Split(data, size)[i]| == size
    decreases |data|
  {
    if |data| > size {
      SplitSizes(data[size..], size);
      assert Split(data, size)[1..] == Split(data[size..], size);
    }
  }

  /** As many chunks as it takes. */
  lemma {:induction false} SplitCount(data: string)
    ensures |Split(data, CHUNK_SIZE)| == (|data| + 7) / 8
    decreases |data|
  {
    if |data| > CHUNK_SIZE {
      SplitCount(data[CHUNK_SIZE..]);
    }
  }

  method SplitData(data: string, size: nat) returns (chunks: seq<string>)
    requires size >= 1
    ensures chunks == Split(data, size)
  {
    chunks := [];
    var i := 0;
    while i < |data|
      invariant 0 <= i
      invariant i <= |data| ==> chunks + Split(data[i..], size) == Split(data, size)
      invariant i > |data| ==> chunks == Split(data, size)
    {
      var k := if size <= |data| - i then size else |data| - i;
      var rest := data[i..];
      assert data[i..i + k] == rest[..k];
      if size < |rest| {
        assert rest[size..] == data[i + size..];
      } else if size == |rest| {
        assert data[i + size..] == [];
        assert rest[..k] == rest;
      } else {
        assert rest[..k] == rest;
      }
      chunks := chunks + [data[i..i + k]];
      i := i + size;
    }
    if i == |data| {
      assert data[i..] == [];
    }
  }

  // --------------------------------------------------------------------- the state

  datatype Meta = Meta(address: nat, refCount: int)

  datatype Engine = Engine(
    nextAddress: nat, storage: map<nat, string>, index: map<string, Meta>, files: map<string, seq<string>>)

  type Fingerprint = string -> string

  ghost predicate CollisionFree(fp: Fingerprint, seen: set<string>)
  {
    forall a, b :: a in seen && b in seen && fp(a) == fp(b) ==> a == b
  }

  /** An index entry leads to a chunk with that fingerprint. */
  predicate EntryOk(e: Engine, fp: Fingerprint, seen: set<string>, f: string)
    requires f in e.index
  {
    var m := e.index[f];
    && m.address in e.storage && m.address < e.nextAddress && m.refCount > 0
    && e.storage[m.address] in seen && fp(e.storage[m.address]) == f
  }

  /** Index and storage agree: every entry has its chunk and every chunk its entry. */
  ghost predicate StoreOk(e: Engine, fp: Fingerprint, seen: set<string>)
  {
    && CollisionFree(fp, seen)
    && (forall f :: f in e.index ==> EntryOk(e, fp, seen, f))
    && (forall a :: a in e.storage ==> a < e.nextAddress && fp(e.storage[a]) in e.index && e.index[fp(e.storage[a])].address == a)
  }

  function Count(e: Engine, f: string): int
  {
    if f in e.index then e.index[f].refCount else 0
  }

  /** No chunk is referenced more often than it is counted. */
  ghost predicate Covers(e: Engine, refs: multiset<string>)
  {
    forall f :: refs[f] <= Count(e, f)
  }

  /** Counts are the numbers of references, and so only referenced chunks are stored. */
  ghost predicate Exact(e: Engine)
  {
    forall f :: All(e.files)[f] == Count(e, f)
  }

  predicate Known(e: Engine, fps: seq<string>)
  {
    forall i :: 0 <= i < |fps| ==> fps[i] in e.index && e.index[fps[i]].address in e.storage
  }

  function Chunk(e: Engine, f: string): string
    requires f in e.index && e.index[f].address in e.storage
  {
    e.storage[e.index[f].address]
  }

  /** What a list of fingerprints reads as. */
  function Assemble(e: Engine, fps: seq<string>): string
    requires Known(e, fps)
  {
    if fps == [] then "" else Assemble(e, fps[..|fps| - 1]) + Chunk(e, fps[|fps| - 1])
  }

  /** Every file reads as what was last written to it. */
  ghost predicate Readable(e: Engine, written: map<string, string>)
  {
    && written.Keys == e.files.Keys
    && forall n :: n in e.files ==> FileOk(e, e.files[n], written[n])
  }

  predicate FileOk(e: Engine, fps: seq<string>, data: string)
  {
    Known(e, fps) && Assemble(e, fps) == data
  }

  ghost predicate Valid(e: Engine, fp: Fingerprint, seen: set<string>, written: map<string, string>)
  {
    StoreOk(e, fp, seen) && Covers(e, All(e.files)) && Readable(e, written)
  }

  // ------------------------------------------------------------- storing one chunk

  function StoreChunk(e: Engine, fp: Fingerprint, chunk: string): Engine
  {
    var f := fp(chunk);
    if f in e.index then
      e.(index := e.index[f := e.index[f].(refCount := e.index[f].refCount + 1)])
    else
      e.(nextAddress := e.nextAddress + 1,
         storage := e.storage[e.nextAddress := chunk],
         index := e.index[f := Meta(e.nextAddress, 1)])
  }

  /** The stored data of every known fingerprint is as before. */
  ghost predicate SameChunks(e: Engine, e': Engine)
  {
    forall f :: f in e.index && e.index[f].address in e.storage && f in e'.index ==>
      e'.index[f].address in e'.storage && Chunk(e', f) == Chunk(e, f)
  }

  /** A known fingerprint: by freedom from collisions its chunk is this chunk. */
  lemma StoreKnownChunk(e: Engine, fp: Fingerprint, seen: set<string>, chunk: string)
    requires StoreOk(e, fp, seen) && chunk in seen && fp(chunk) in e.index
    ensures var e' := StoreChunk(e, fp, chunk);
            StoreOk(e', fp, seen) && SameChunks(e, e') && EntryOk(e', fp, seen, fp(chunk)) && Chunk(e', fp(chunk)) == chunk
  {
    var e' := StoreChunk(e, fp, chunk);
    var f := fp(chunk);
    assert EntryOk(e, fp, seen, f);
    forall g | g in e'.index ensures EntryOk(e', fp, seen, g) {
      assert EntryOk(e, fp, seen, g);
    }
  }

  lemma StoreNewChunk(e: Engine, fp: Fingerprint, seen: set<string>, chunk: string)
    requires StoreOk(e, fp, seen) && chunk in seen && fp(chunk) !in e.index
    ensures var e' := StoreChunk(e, fp, chunk);
            StoreOk(e', fp, seen) && SameChunks(e, e') && EntryOk(e', fp, seen, fp(chunk)) && Chunk(e', fp(chunk)) == chunk
  {
    var e' := StoreChunk(e, fp, chunk);
    var f := fp(chunk);
    assert e.nextAddress !in e.storage;
    forall g | g in e'.index ensures EntryOk(e', fp, seen, g) {
      assert g in e.index ==> EntryOk(e, fp, seen, g);
    }
    forall a | a in e'.storage
      ensures a < e'.nextAddress && fp(e'.storage[a]) in e'.index && e'.index[fp(e'.storage[a])].address == a
    {
      if a != e.nextAddress {
        assert fp(e.storage[a]) in e.index;
      }
    }
  }

  lemma StoreChunkOk(e: Engine, fp: Fingerprint, seen: set<string>, chunk: string)
    requires StoreOk(e, fp, seen) && chunk in seen
    ensures var e' := StoreChunk(e, fp, chunk);
            && StoreOk(e', fp, seen) && SameChunks(e, e')
            && fp(chunk) in e'.index && e'.index[fp(chunk)].address in e'.storage && Chunk(e', fp(chunk)) == chunk
  {
    if fp(chunk) in e.index {
      StoreKnownChunk(e, fp, seen, chunk);
    } else {
      StoreNewChunk(e, fp, seen, chunk);
    }
  }

  lemma StoreChunkCounts(e: Engine, fp: Fingerprint, chunk: string)
    ensures var e' := StoreChunk(e, fp, chunk);
            && e'.files == e.files && e'.index.Keys == e.index.Keys + {fp(chunk)}
            && forall f :: Count(e', f) == Count(e, f) + if f == fp(chunk) then 1 else 0
  {
  }

  /** Reading is the same wherever the chunks are the same. */
  lemma {:induction false} AssembleKept(e: Engine, e': Engine, fps: seq<string>)
    requires Known(e, fps) && SameChunks(e, e')
    requires forall i :: 0 <= i < |fps| ==> fps[i] in e'.index
    ensures Known(e', fps) && Assemble(e', fps) == Assemble(e, fps)
  {
    if fps != [] {
      AssembleKept(e, e', fps[..|fps| - 1]);
    }
  }

  function StoreAll(e: Engine, fp: Fingerprint, chunks: seq<string>): Engine
  {
    if chunks == [] then e else StoreChunk(StoreAll(e, fp, chunks[..|chunks| - 1]), fp, chunks[|chunks| - 1])
  }

  function Prints(fp: Fingerprint, chunks: seq<string>): (r: seq<string>)
    ensures |r| == |chunks| && forall i :: 0 <= i < |chunks| ==> r[i] == fp(chunks[i])
  {
    seq(|chunks|, i requires 0 <= i < |chunks| => fp(chunks[i]))
  }

  lemma {:induction false} StoreAllCounts(e: Engine, fp: Fingerprint, chunks: seq<string>, f: string)
    ensures var e' := StoreAll(e, fp, chunks);
            && e'.files == e.files && e.index.Keys <= e'.index.Keys
            && Count(e', f) == Count(e, f) + multiset(Prints(fp, chunks))[f]
  {
    if chunks != [] {
      var front, last := chunks[..|chunks| - 1], chunks[|chunks| - 1];
      StoreAllCounts(e, fp, front, f);
      StoreChunkCounts(StoreAll(e, fp, front), fp, last);
      assert Prints(fp, chunks) == Prints(fp, front) + [fp(last)];
    }
  }

  lemma {:induction false} StoreAllOk(e: Engine, fp: Fingerprint, seen: set<string>, chunks: seq<string>)
    requires StoreOk(e, fp, seen) && forall i :: 0 <= i < |chunks| ==> chunks[i] in seen
    ensures var e' := StoreAll(e, fp, chunks);
            && StoreOk(e', fp, seen) && e.index.Keys <= e'.index.Keys && SameChunks(e, e')
            && Known(e', Prints(fp, chunks)) && Assemble(e', Prints(fp, chunks)) == Join(chunks)
  {
    if chunks != [] {
      var front, last := chunks[..|chunks| - 1], chunks[|chunks| - 1];
      assert front + [last] == chunks;
      var mid, e' := StoreAll(e, fp, front), StoreAll(e, fp, chunks);
      StoreAllOk(e, fp, seen, front);
      StoreChunkOk(mid, fp, seen, last);
      StoreChunkCounts(mid, fp, last);
      StoreTrans(e, mid, e', fp, seen);
      ReadOneMore(mid, e', fp, front, last);
    }
  }

  lemma ReadOneMore(mid: Engine, e': Engine, fp: Fingerprint, front: seq<string>, last: string)
    requires Known(mid, Prints(fp, front)) && Assemble(mid, Prints(fp, front)) == Join(front)
    requires SameChunks(mid, e') && mid.index.Keys <= e'.index.Keys
    requires fp(last) in e'.index && e'.index[fp(last)].address in e'.storage && Chunk(e', fp(last)) == last
    ensures var prints := Prints(fp, front + [last]);
            Known(e', prints) && Assemble(e', prints) == Join(front + [last])
  {
    var prints := Prints(fp, front + [last]);
    AssembleKept(mid, e', Prints(fp, front));
    assert prints == Prints(fp, front) + [fp(last)];
    assert prints[..|prints| - 1] == Prints(fp, front);
    assert (front + [last])[..|front|] == front;
  }

  lemma StoreTrans(e: Engine, mid: Engine, e': Engine, fp: Fingerprint, seen: set<string>)
    requires SameChunks(e, mid) && SameChunks(mid, e')
    requires e.index.Keys <= mid.index.Keys <= e'.index.Keys && StoreOk(mid, fp, seen)
    ensures SameChunks(e, e')
  {
    forall f | f in e.index && e.index[f].address in e.storage && f in e'.index
      ensures e'.index[f].address in e'.storage && Chunk(e', f) == Chunk(e, f)
    {
      assert EntryOk(mid, fp, seen, f);
    }
  }

  // ------------------------------------------------------------ releasing a chunk

  function Release(e: Engine, f: string): Engine
  {
    if f !in e.index then e
    else
      var m := e.index[f];
      if m.refCount - 1 == 0 then e.(storage := e.storage - {m.address}, index := e.index - {f})
      else e.(index := e.index[f := m.(refCount := m.refCount - 1)])
  }

  lemma ReleaseOk(e: Engine, fp: Fingerprint, seen: set<string>, f: string)
    requires StoreOk(e, fp, seen)
    ensures StoreOk(Release(e, f), fp, seen) && SameChunks(e, Release(e, f))
    ensures Release(e, f).index.Keys <= e.index.Keys
  {
    var e' := Release(e, f);
    if f in e.index {
      assert EntryOk(e, fp, seen, f);
      forall g | g in e'.index ensures EntryOk(e', fp, seen, g) && e'.index[g].address == e.index[g].address {
        assert EntryOk(e, fp, seen, g);
      }
      forall a | a in e'.storage
        ensures a < e'.nextAddress && fp(e'.storage[a]) in e'.index && e'.index[fp(e'.storage[a])].address == a
      {
        assert fp(e.storage[a]) in e.index;
      }
    }
  }

  lemma ReleaseCounts(e: Engine, f: string)
    requires Count(e, f) > 0
    ensures var e' := Release(e, f);
            e'.files == e.files && forall g :: Count(e', g) == Count(e, g) - if g == f then 1 else 0
  {
  }

  function ReleaseAll(e: Engine, fps: seq<string>): Engine
  {
    if fps == [] then e else Release(ReleaseAll(e, fps[..|fps| - 1]), fps[|fps| - 1])
  }

  lemma {:induction false} ReleaseAllCounts(e: Engine, fps: seq<string>)
    requires forall f :: multiset(fps)[f] <= Count(e, f)
    ensures var e' := ReleaseAll(e, fps);
            e'.files == e.files && forall f :: Count(e', f) == Count(e, f) - multiset(fps)[f]
  {
    if fps != [] {
      var front, last := fps[..|fps| - 1], fps[|fps| - 1];
      assert fps == front + [last];
      assert multiset(fps) == multiset(front) + multiset{last};
      ReleaseAllCounts(e, front);
      ReleaseCounts(ReleaseAll(e, front), last);
    }
  }

  lemma {:induction false} ReleaseAllOk(e: Engine, fp: Fingerprint, seen: set<string>, fps: seq<string>)
    requires StoreOk(e, fp, seen)
    ensures var e' := ReleaseAll(e, fps);
            StoreOk(e', fp, seen) && e'.index.Keys <= e.index.Keys && SameChunks(e, e')
  {
    if fps != [] {
      var front, last := fps[..|fps| - 1], fps[|fps| - 1];
      var mid, e' := ReleaseAll(e, front), ReleaseAll(e, fps);
      ReleaseAllOk(e, fp, seen, front);
      ReleaseOk(mid, fp, seen, last);
      forall f | f in e.index && e.index[f].address in e.storage && f in e'.index
        ensures e'.index[f].address in e'.storage && Chunk(e', f) == Chunk(e, f)
      {
        assert f in mid.index && EntryOk(mid, fp, seen, f);
      }
    }
  }

  // ------------------------------------------------------------ files: three calls

  function Wrote(e: Engine, fp: Fingerprint, name: string, chunks: seq<string>): Engine
  {
    var stored := StoreAll(e, fp, chunks);
    stored.(files := stored.files[name := Prints(fp, chunks)])
  }

  function Deleted(e: Engine, name: string): Engine
  {
    if name !in e.files then e
    else
      var released := ReleaseAll(e, e.files[name]);
      released.(files := released.files - {name})
  }

  /** Reading a name that is not there adds it with no chunks. */
  function Listed(e: Engine, name: string): Engine
  {
    if name in e.files then e else e.(files := e.files[name := []])
  }

  function Written(written: map<string, string>, name: string): string
  {
    if name in written then written[name] else ""
  }

  /** Files whose chunks all survive read as before. */
  lemma FileKept(e: Engine, e': Engine, fp: Fingerprint, seen: set<string>, name: string, refs: multiset<string>)
    requires StoreOk(e, fp, seen) && SameChunks(e, e') && Covers(e', refs)
    requires name in e.files && Known(e, e.files[name]) && multiset(e.files[name]) <= refs
    ensures Known(e', e.files[name]) && Assemble(e', e.files[name]) == Assemble(e, e.files[name])
  {
    var fps := e.files[name];
    forall i | 0 <= i < |fps| ensures fps[i] in e'.index {
      assert fps[i] in multiset(fps);
      assert Count(e', fps[i]) > 0;
    }
    AssembleKept(e, e', fps);
  }

  lemma WriteCovers(e: Engine, fp: Fingerprint, name: string, chunks: seq<string>)
    requires Covers(e, All(e.files))
    ensures var e' := Wrote(e, fp, name, chunks);
            Covers(e', All(e'.files)) && e'.files == e.files[name := Prints(fp, chunks)]
  {
    var e' := Wrote(e, fp, name, chunks);
    var prints := Prints(fp, chunks);
    StoreAllCounts(e, fp, chunks, "");
    AllOfUpdate(e.files, name, prints);
    if name in e.files {
      AllSplits(e.files, name);
    }
    forall f ensures All(e'.files)[f] <= Count(e', f) {
      StoreAllCounts(e, fp, chunks, f);
      assert Count(e', f) == Count(StoreAll(e, fp, chunks), f);
      assert All(e.files - {name})[f] <= All(e.files)[f] by {
        if name !in e.files {
          assert e.files - {name} == e.files;
        }
      }
    }
  }

  lemma OtherFileAfterWrite(e: Engine, fp: Fingerprint, seen: set<string>, name: string, chunks: seq<string>, fps: seq<string>)
    requires StoreOk(e, fp, seen) && forall i :: 0 <= i < |chunks| ==> chunks[i] in seen
    requires Known(e, fps)
    ensures var e' := Wrote(e, fp, name, chunks);
            Known(e', fps) && Assemble(e', fps) == Assemble(e, fps)
  {
    StoreAllOk(e, fp, seen, chunks);
    AssembleKept(e, Wrote(e, fp, name, chunks), fps);
  }

  lemma FileAfterWrite(e: Engine, fp: Fingerprint, seen: set<string>, name: string, chunks: seq<string>)
    requires StoreOk(e, fp, seen) && forall i :: 0 <= i < |chunks| ==> chunks[i] in seen
    ensures var e', prints := Wrote(e, fp, name, chunks), Prints(fp, chunks);
            StoreOk(e', fp, seen) && Known(e', prints) && Assemble(e', prints) == Join(chunks)
  {
    var stored, e' := StoreAll(e, fp, chunks), Wrote(e, fp, name, chunks);
    StoreAllOk(e, fp, seen, chunks);
    StoreOkIgnoresFiles(stored, e', fp, seen);
    AssembleKept(stored, e', Prints(fp, chunks));
  }

  lemma ReadableUpdated(e: Engine, e': Engine, written: map<string, string>, name: string, fps: seq<string>, data: string)
    requires Readable(e, written) && e'.files == e.files[name := fps] && FileOk(e', fps, data)
    requires forall n :: n in e.files && n != name ==> FileOk(e', e.files[n], written[n])
    ensures Readable(e', written[name := data])
  {
  }

  lemma WriteReadable(e: Engine, fp: Fingerprint, seen: set<string>, written: map<string, string>, name: string, chunks: seq<string>)
    requires StoreOk(e, fp, seen) && Readable(e, written) && forall i :: 0 <= i < |chunks| ==> chunks[i] in seen
    ensures Readable(Wrote(e, fp, name, chunks), written[name := Join(chunks)])
  {
    var e' := Wrote(e, fp, name, chunks);
    StoreAllCounts(e, fp, chunks, "");
    FileAfterWrite(e, fp, seen, name, chunks);
    forall n | n in e.files && n != name ensures FileOk(e', e.files[n], written[n]) {
      OtherReadable(e, fp, seen, name, chunks, e.files[n], written[n]);
    }
    ReadableUpdated(e, e', written, name, Prints(fp, chunks), Join(chunks));
  }

  lemma OtherReadable(e: Engine, fp: Fingerprint, seen: set<string>, name: string, chunks: seq<string>, fps: seq<string>, data: string)
    requires StoreOk(e, fp, seen) && forall i :: 0 <= i < |chunks| ==> chunks[i] in seen
    requires FileOk(e, fps, data)
    ensures FileOk(Wrote(e, fp, name, chunks), fps, data)
  {
    OtherFileAfterWrite(e, fp, seen, name, chunks, fps);
  }

  /** Writing a file, new or not, makes it read as the data, and every other file as
      before. */
  lemma WriteKeeps(e: Engine, fp: Fingerprint, seen: set<string>, written: map<string, string>, name: string, chunks: seq<string>)
    requires Valid(e, fp, seen, written) && forall i :: 0 <= i < |chunks| ==> chunks[i] in seen
    ensures Valid(Wrote(e, fp, name, chunks), fp, seen, written[name := Join(chunks)])
  {
    WriteCovers(e, fp, name, chunks);
    FileAfterWrite(e, fp, seen, name, chunks);
    WriteReadable(e, fp, seen, written, name, chunks);
  }

  lemma StoreOkIgnoresFiles(e: Engine, e': Engine, fp: Fingerprint, seen: set<string>)
    requires StoreOk(e, fp, seen) && e' == e.(files := e'.files)
    ensures StoreOk(e', fp, seen)
  {
    forall f | f in e'.index ensures EntryOk(e', fp, seen, f) {
      assert EntryOk(e, fp, seen, f);
    }
  }

  lemma DeleteCounts(e: Engine, name: string)
    requires Covers(e, All(e.files)) && name in e.files
    ensures var e' := Deleted(e, name);
            && e'.files == e.files - {name}
            && (forall f :: Count(e', f) == Count(e, f) - multiset(e.files[name])[f])
            && Covers(e', All(e'.files))
  {
    var e' := Deleted(e, name);
    AllSplits(e.files, name);
    ReleaseAllCounts(e, e.files[name]);
    forall f ensures Count(e', f) == Count(ReleaseAll(e, e.files[name]), f) {
    }
  }

  /** Deleting a file never takes a chunk away from another file. */
  lemma DeleteKeeps(e: Engine, fp: Fingerprint, seen: set<string>, written: map<string, string>, name: string)
    requires Valid(e, fp, seen, written)
    ensures Valid(Deleted(e, name), fp, seen, written - {name})
  {
    var e' := Deleted(e, name);
    if name in e.files {
      var released := ReleaseAll(e, e.files[name]);
      DeleteCounts(e, name);
      ReleaseAllOk(e, fp, seen, e.files[name]);
      StoreOkIgnoresFiles(released, e', fp, seen);
      var written' := written - {name};
      forall n | n in e'.files ensures FileOk(e', e'.files[n], written'[n]) {
        assert FileOk(e, e.files[n], written[n]);
        AllSplits(e'.files, n);
        FileKept(e, e', fp, seen, n, All(e'.files));
      }
    } else {
      assert written - {name} == written;
    }
  }

  lemma {:induction false} FileOkIgnoresFiles(e: Engine, e': Engine, fps: seq<string>, data: string)
    requires FileOk(e, fps, data) && e' == e.(files := e'.files)
    ensures FileOk(e', fps, data)
    decreases |fps|
  {
    if fps != [] {
      var front := fps[..|fps| - 1];
      FileOkIgnoresFiles(e, e', front, Assemble(e, front));
    }
  }

  lemma ReadCovers(e: Engine, name: string)
    requires Covers(e, All(e.files))
    ensures Covers(Listed(e, name), All(Listed(e, name).files))
  {
    if name !in e.files {
      AllOfUpdate(e.files, name, []);
      assert All(Listed(e, name).files) == All(e.files);
      assert Listed(e, name).index == e.index;
    }
  }

  lemma ReadKeeps(e: Engine, fp: Fingerprint, seen: set<string>, written: map<string, string>, name: string)
    requires Valid(e, fp, seen, written) && name !in e.files
    ensures Valid(Listed(e, name), fp, seen, written[name := ""])
  {
    var e' := Listed(e, name);
    ReadCovers(e, name);
    StoreOkIgnoresFiles(e, e', fp, seen);
    forall n | n in e.files && n != name ensures FileOk(e', e.files[n], written[n]) {
      FileOkIgnoresFiles(e, e', e.files[n], written[n]);
    }
    ReadableUpdated(e, e', written, name, [], "");
  }

  /** Equal chunks are stored once. */
  lemma StoredOnce(e: Engine, fp: Fingerprint, seen: set<string>, a: nat, b: nat)
    requires StoreOk(e, fp, seen) && a in e.storage && b in e.storage && e.storage[a] == e.storage[b]
    ensures a == b
  {
  }

  // ---------------------------------------------------------- when counts are exact

  /** How many references to f are counted that no file has. */
  ghost function Surplus(e: Engine, f: string): int
  {
    Count(e, f) - All(e.files)[f]
  }

  /** Overwriting a file never gives back its old references: they become surplus. */
  lemma WriteSurplus(e: Engine, fp: Fingerprint, name: string, chunks: seq<string>, f: string)
    ensures Surplus(Wrote(e, fp, name, chunks), f) ==
            Surplus(e, f) + if name in e.files then multiset(e.files[name])[f] else 0
  {
    var e' := Wrote(e, fp, name, chunks);
    var prints := Prints(fp, chunks);
    StoreAllCounts(e, fp, chunks, f);
    assert Count(e', f) == Count(StoreAll(e, fp, chunks), f);
    AllOfUpdate(e.files, name, prints);
    if name in e.files {
      AllSplits(e.files, name);
    }
  }

  lemma DeleteSurplus(e: Engine, name: string, f: string)
    requires Covers(e, All(e.files))
    ensures Surplus(Deleted(e, name), f) == Surplus(e, f)
  {
    if name in e.files {
      DeleteCounts(e, name);
      AllSplits(e.files, name);
    }
  }

  lemma ReadSurplus(e: Engine, name: string, f: string)
    ensures Surplus(Listed(e, name), f) == Surplus(e, f)
  {
    if name !in e.files {
      AllOfUpdate(e.files, name, []);
    }
  }

  /** No write of this name has stored chunks that are still listed. */
  predicate Unused(e: Engine, name: string)
  {
    name !in e.files || e.files[name] == []
  }

  /** A write leaves the counts exact if and only if they were and the name had no stored
      chunks. */
  lemma WriteKeepsExactIff(e: Engine, fp: Fingerprint, name: string, chunks: seq<string>)
    requires Covers(e, All(e.files))
    ensures Exact(Wrote(e, fp, name, chunks)) <==> Exact(e) && Unused(e, name)
  {
    var e' := Wrote(e, fp, name, chunks);
    forall f ensures All(e'.files)[f] == Count(e', f) <==>
                     All(e.files)[f] == Count(e, f) && (name in e.files ==> multiset(e.files[name])[f] == 0)
    {
      WriteSurplus(e, fp, name, chunks, f);
      assert All(e.files)[f] <= Count(e, f);
    }
    if !Unused(e, name) {
      assert e.files[name][0] in multiset(e.files[name]);
    }
  }

  /** Deleting and reading make no surplus and take none away. */
  lemma DeleteKeepsExact(e: Engine, name: string)
    requires Covers(e, All(e.files))
    ensures Exact(Deleted(e, name)) <==> Exact(e)
  {
    var e' := Deleted(e, name);
    forall f ensures All(e'.files)[f] == Count(e', f) <==> All(e.files)[f] == Count(e, f) {
      DeleteSurplus(e, name, f);
    }
  }

  lemma ReadKeepsExact(e: Engine, name: string)
    ensures Exact(Listed(e, name)) <==> Exact(e)
  {
    var e' := Listed(e, name);
    forall f ensures All(e'.files)[f] == Count(e', f) <==> All(e.files)[f] == Count(e, f) {
      ReadSurplus(e, name, f);
    }
  }

  /** With exact counts the store holds exactly the chunks that some file refers to. */
  lemma ExactStoresOnlyReferenced(e: Engine, fp: Fingerprint, seen: set<string>, f: string)
    requires StoreOk(e, fp, seen) && Exact(e)
    ensures f in e.index <==> exists n :: n in e.files && f in e.files[n]
  {
    AllContains(e.files, f);
    if f in e.index {
      assert EntryOk(e, fp, seen, f);
    }
  }

  // ---------------------------------------------------------------------- whole runs

  const CHUNK_SIZE: nat := 8

  datatype Call = WriteCall(name: string, data: string) | ReadCall(name: string) | DeleteCall(name: string)

  const EMPTY := Engine(0, map[], map[], map[])

  function AfterCall(e: Engine, fp: Fingerprint, call: Call): Engine
  {
    match call
    case WriteCall(name, data) => Wrote(e, fp, name, Split(data, CHUNK_SIZE))
    case ReadCall(name) => Listed(e, name)
    case DeleteCall(name) => Deleted(e, name)
  }

  function After(fp: Fingerprint, calls: seq<Call>): Engine
  {
    if calls == [] then EMPTY else AfterCall(After(fp, calls[..|calls| - 1]), fp, calls[|calls| - 1])
  }

  /** The last write or delete of the name was a write, of something. */
  predicate Holding(calls: seq<Call>, name: string)
  {
    if calls == [] then false
    else
      var last := calls[|calls| - 1];
      if last.ReadCall? || last.name != name then Holding(calls[..|calls| - 1], name)
      else last.WriteCall? && last.data != ""
  }

  /** Some write hit a name that held something. */
  predicate Overwrites(calls: seq<Call>)
  {
    calls != [] &&
    var front, last := calls[..|calls| - 1], calls[|calls| - 1];
    Overwrites(front) || (last.WriteCall? && Holding(front, last.name))
  }

  lemma CallCovers(e: Engine, fp: Fingerprint, call: Call)
    requires Covers(e, All(e.files))
    ensures var e' := AfterCall(e, fp, call);
            Covers(e', All(e'.files))
  {
    match call
    case WriteCall(name, data) => WriteCovers(e, fp, name, Split(data, CHUNK_SIZE));
    case ReadCall(name) => ReadCovers(e, name);
    case DeleteCall(name) =>
      if name in e.files {
        DeleteCounts(e, name);
      }
  }

  lemma {:induction false} RunCovers(fp: Fingerprint, calls: seq<Call>)
    ensures Covers(After(fp, calls), All(After(fp, calls).files))
    decreases |calls|
  {
    if calls != [] {
      RunCovers(fp, calls[..|calls| - 1]);
      CallCovers(After(fp, calls[..|calls| - 1]), fp, calls[|calls| - 1]);
    }
  }

  lemma UnusedAfterCall(e: Engine, fp: Fingerprint, call: Call, name: string)
    requires Covers(e, All(e.files))
    ensures Unused(AfterCall(e, fp, call), name) <==>
            if call.ReadCall? || call.name != name then Unused(e, name)
            else call.DeleteCall? || call.data == ""
  {
    match call
    case WriteCall(n, data) => StoreAllCounts(e, fp, Split(data, CHUNK_SIZE), "");
    case ReadCall(_) =>
    case DeleteCall(n) =>
      if n in e.files {
        DeleteCounts(e, n);
      }
  }

  /** Whether a name has stored chunks can be told from the calls. */
  lemma {:induction false} HoldingIsUsed(fp: Fingerprint, calls: seq<Call>, name: string)
    ensures Holding(calls, name) <==> !Unused(After(fp, calls), name)
    decreases |calls|
  {
    if calls != [] {
      var front := calls[..|calls| - 1];
      HoldingIsUsed(fp, front, name);
      RunCovers(fp, front);
      UnusedAfterCall(After(fp, front), fp, calls[|calls| - 1], name);
    }
  }

  /** After a run the counts are exact if and only if no write hit a name that held
      something; once they are not, nothing makes them exact again. */
  lemma {:induction false} RunExactIff(fp: Fingerprint, calls: seq<Call>)
    ensures Exact(After(fp, calls)) <==> !Overwrites(calls)
    decreases |calls|
  {
    if calls != [] {
      var front, last := calls[..|calls| - 1], calls[|calls| - 1];
      var e := After(fp, front);
      RunExactIff(fp, front);
      RunCovers(fp, front);
      match last
      case WriteCall(name, data) =>
        WriteKeepsExactIff(e, fp, name, Split(data, CHUNK_SIZE));
        HoldingIsUsed(fp, front, name);
      case ReadCall(name) => ReadKeepsExact(e, name);
      case DeleteCall(name) => DeleteKeepsExact(e, name);
    }
  }

  function WrittenBy(calls: seq<Call>): map<string, string>
  {
    if calls == [] then map[]
    else
      var written := WrittenBy(calls[..|calls| - 1]);
      match calls[|calls| - 1]
      case WriteCall(name, data) => written[name := data]
      case ReadCall(name) => if name in written then written else written[name := ""]
      case DeleteCall(name) => written - {name}
  }

  predicate Changes(call: Call, name: string)
  {
    call.name == name && !call.ReadCall?
  }

  /** What a file holds was written by the last call that changed it, unless that was a
      delete or there was none: then it reads as empty. */
  lemma {:induction false} LastChangeDecides(calls: seq<Call>, name: string, i: int)
    requires -1 <= i < |calls| && forall j :: i < j < |calls| ==> !Changes(calls[j], name)
    requires i >= 0 ==> Changes(calls[i], name)
    ensures Written(WrittenBy(calls), name) == if i >= 0 && calls[i].WriteCall? then calls[i].data else ""
    decreases |calls|
  {
    if i < |calls| - 1 {
      LastChangeDecides(calls[..|calls| - 1], name, i);
    }
  }

  /** The chunks of all written data are among these. */
  predicate WritesWithin(calls: seq<Call>, seen: set<string>)
  {
    forall i :: 0 <= i < |calls| && calls[i].WriteCall? ==> ChunksIn(calls[i].data, seen)
  }

  predicate ChunksIn(data: string, seen: set<string>)
  {
    forall i :: 0 <= i < |Split(data, CHUNK_SIZE)| ==> Split(data, CHUNK_SIZE)[i] in seen
  }

  /** After any run of calls, overwrites included, every file reads as what was last written
      to it, as long as fingerprints do not collide on the chunks in use. */
  lemma {:induction false} RunReadsLastWritten(fp: Fingerprint, seen: set<string>, calls: seq<Call>)
    requires CollisionFree(fp, seen) && WritesWithin(calls, seen)
    ensures Valid(After(fp, calls), fp, seen, WrittenBy(calls))
    decreases |calls|
  {
    if calls != [] {
      var front, last := calls[..|calls| - 1], calls[|calls| - 1];
      var e := After(fp, front);
      RunReadsLastWritten(fp, seen, front);
      match last
      case WriteCall(name, data) =>
        assert ChunksIn(data, seen);
        WriteKeeps(e, fp, seen, WrittenBy(front), name, Split(data, CHUNK_SIZE));
        SplitJoins(data, CHUNK_SIZE);
      case ReadCall(name) =>
        if name !in e.files {
          ReadKeeps(e, fp, seen, WrittenBy(front), name);
        }
      case DeleteCall(name) => DeleteKeeps(e, fp, seen, WrittenBy(front), name);
    }
  }

  /** An overwritten file leaves its old chunk in the store for good: after writing "x" and
      then "y" under one name, and even after deleting it, "x" is stored and counted although
      no file names it. */
  lemma OverwrittenChunkStays(fp: Fingerprint, calls: seq<Call>)
    requires fp("x") != fp("y")
    requires calls == [WriteCall("f", "x"), WriteCall("f", "y"), DeleteCall("f")]
    ensures var e := After(fp, calls);
            e.files == map[] && fp("x") in e.index && e.index[fp("x")].address in e.storage && Chunk(e, fp("x")) == "x"
  {
    var one := StoreChunk(EMPTY, fp, "x").(files := map["f" := [fp("x")]]);
    OneChunk(EMPTY, fp, "x");
    assert calls[..1] == [WriteCall("f", "x")] && calls[..1][..0] == [];
    assert After(fp, calls[..1]) == one;
    var two := StoreChunk(one, fp, "y").(files := map["f" := [fp("y")]]);
    OneChunk(one, fp, "y");
    assert calls[..2][..1] == calls[..1] && calls[..2][1] == WriteCall("f", "y");
    assert one.files["f" := [fp("y")]] == two.files;
    assert After(fp, calls[..2]) == two;
    assert ReleaseAll(two, [fp("y")]) == Release(two, fp("y")) by {
      assert [fp("y")][..0] == [];
    }
  }

  lemma OneChunk(e: Engine, fp: Fingerprint, chunk: string)
    requires 0 < |chunk| <= CHUNK_SIZE
    ensures Wrote(e, fp, "f", Split(chunk, CHUNK_SIZE)) ==
            StoreChunk(e, fp, chunk).(files := e.files["f" := [fp(chunk)]])
  {
    var chunks := Split(chunk, CHUNK_SIZE);
    assert chunks == [chunk] && chunks[..|chunks| - 1] == [];
    assert StoreAll(e, fp, []) == e;
    var stored := StoreAll(e, fp, chunks);
    assert stored == StoreChunk(e, fp, chunk);
    assert stored.files == e.files;
    var prints := Prints(fp, chunks);
    assert prints == [fp(chunk)];
  }

  // --------------------------------------------------------------------- the class

  class DataReductionEngine {
    const fingerPrint: Fingerprint
    var nextAddress: nat
    var storage: map<nat, string>
    var index: map<string, Meta>
    var files: map<string, seq<string>>

    /** The chunks that may occur in this engine's lifetime. */
    ghost const seen: set<string>
    /** History: the data last written to each listed name. */
    ghost var written: map<string, string>

    function View(): Engine
      reads this
    {
      Engine(nextAddress, storage, index, files)
    }

    ghost predicate Ok()
      reads this
    {
      Valid(View(), fingerPrint, seen, written)
    }

    constructor (fp: Fingerprint, ghost chunks: set<string>)
      requires CollisionFree(fp, chunks)
      ensures Ok() && Exact(View()) && fingerPrint == fp && seen == chunks && written == map[]
    {
      fingerPrint, seen := fp, chunks;
      nextAddress, storage, index, files, written := 0, map[], map[], map[], map[];
    }

    method StoreOne(chunk: string) returns (fp: string)
      modifies this`nextAddress, this`storage, this`index
      ensures fp == fingerPrint(chunk) && View() == StoreChunk(old(View()), fingerPrint, chunk)
      ensures nextAddress == old(nextAddress) + if fp in old(index) then 0 else 1
    {
      fp := fingerPrint(chunk);
      if fp in index {
        index := index[fp := index[fp].(refCount := index[fp].refCount + 1)];
      } else {
        var address := nextAddress;
        nextAddress := nextAddress + 1;
        storage := storage[address := chunk];
        index := index[fp := Meta(address, 1)];
      }
    }

    method StoreChunks(chunks: seq<string>) returns (prints: seq<string>)
      modifies this`nextAddress, this`storage, this`index
      ensures prints == Prints(fingerPrint, chunks) && View() == StoreAll(old(View()), fingerPrint, chunks)
    {
      prints := [];
      for i := 0 to |chunks|
        invariant prints == Prints(fingerPrint, chunks[..i])
        invariant View() == StoreAll(old(View()), fingerPrint, chunks[..i])
      {
        assert chunks[..i + 1][..i] == chunks[..i];
        var fp := StoreOne(chunks[i]);
        prints := prints + [fp];
      }
      assert chunks[..|chunks|] == chunks;
    }

    /** From now on the file reads as data, and every other file as before. The counts are
        exact afterwards if and only if they were and the name had no stored chunks. */
    method WriteFile(name: string, data: string)
      requires Ok() && forall i :: 0 <= i < |Split(data, CHUNK_SIZE)| ==> Split(data, CHUNK_SIZE)[i] in seen
      modifies this
      ensures Ok() && written == old(written)[name := data]
      ensures name in files && |files[name]| == (|data| + 7) / 8
      ensures Exact(View()) <==> old(Exact(View())) && (name !in old(files) || old(files)[name] == [])
    {
      var chunks := SplitData(data, CHUNK_SIZE);
      SplitJoins(data, CHUNK_SIZE);
      SplitCount(data);
      ghost var e := View();
      WriteKeeps(e, fingerPrint, seen, written, name, chunks);
      WriteKeepsExactIff(e, fingerPrint, name, chunks);
      StoreFile(name, chunks);
      written := written[name := data];
    }

    method StoreFile(name: string, chunks: seq<string>)
      modifies this`index, this`storage, this`nextAddress, this`files
      ensures View() == Wrote(old(View()), fingerPrint, name, chunks)
      ensures name in files && |files[name]| == |chunks|
    {
      StoreAllCounts(View(), fingerPrint, chunks, "");
      var prints := StoreChunks(chunks);
      files := files[name := prints];
    }

    method Collect(fps: seq<string>) returns (data: string)
      requires Known(View(), fps)
      ensures data == Assemble(View(), fps)
    {
      data := "";
      for i := 0 to |fps|
        invariant data == Assemble(View(), fps[..i])
      {
        assert fps[..i + 1][..i] == fps[..i];
        var meta := index[fps[i]];
        data := data + storage[meta.address];
      }
      assert fps[..|fps|] == fps;
    }

    /** Returns what was last written; a name that is not there reads as empty. */
    method ReadFile(name: string) returns (data: string)
      requires Ok()
      modifies this`files, this`written
      ensures Ok() && data == Written(old(written), name)
      ensures written == old(written)[name := data]
      ensures Exact(View()) <==> old(Exact(View()))
    {
      if name !in files {
        ReadKeeps(View(), fingerPrint, seen, written, name);
        ReadKeepsExact(View(), name);
        files := files[name := []];
        written := written[name := ""];
      }
      assert FileOk(View(), files[name], written[name]);
      data := Collect(files[name]);
      assert old(written)[name := data] == written;
    }

    method ReleaseOne(fp: string)
      requires fp in index
      modifies this`storage, this`index
      ensures View() == Release(old(View()), fp)
    {
      var meta := index[fp];
      index := index[fp := meta.(refCount := meta.refCount - 1)];
      if index[fp].refCount == 0 {
        storage := storage - {meta.address};
        index := index - {fp};
        assert index == old(index) - {fp};
      }
    }

    method ReleaseChunks(fps: seq<string>)
      requires forall f :: multiset(fps)[f] <= Count(View(), f)
      modifies this`storage, this`index
      ensures View() == ReleaseAll(old(View()), fps)
    {
      for i := 0 to |fps|
        invariant View() == ReleaseAll(old(View()), fps[..i])
      {
        assert fps[..i + 1][..i] == fps[..i];
        PrefixStillCounted(old(View()), fps, i);
        ReleaseOne(fps[i]);
      }
      assert fps[..|fps|] == fps;
    }

    method DeleteFile(name: string)
      requires Ok()
      modifies this
      ensures Ok() && written == old(written) - {name}
      ensures Exact(View()) <==> old(Exact(View()))
    {
      ghost var e := View();
      DeleteKeeps(e, fingerPrint, seen, written, name);
      DeleteKeepsExact(e, name);
      if name !in files {
        assert written - {name} == written;
        return;
      }
      AllSplits(files, name);
      ReleaseFile(name);
      written := written - {name};
    }

    method ReleaseFile(name: string)
      requires name in files && forall f :: multiset(files[name])[f] <= Count(View(), f)
      modifies this`storage, this`index, this`files
      ensures View() == Deleted(old(View()), name)
    {
      ReleaseAllCounts(View(), files[name]);
      ReleaseChunks(files[name]);
      files := files - {name};
    }
  }

  lemma PrefixStillCounted(e: Engine, fps: seq<string>, i: nat)
    requires i < |fps| && forall f :: multiset(fps)[f] <= Count(e, f)
    ensures fps[i] in ReleaseAll(e, fps[..i]).index
  {
    assert fps == fps[..i] + [fps[i]] + fps[i + 1..];
    assert multiset(fps) == multiset(fps[..i]) + multiset{fps[i]} + multiset(fps[i + 1..]);
    ReleaseAllCounts(e, fps[..i]);
    var f := fps[i];
    assert multiset(fps)[f] <= Count(e, f);
    assert Count(ReleaseAll(e, fps[..i]), f) > 0;
  }
}
