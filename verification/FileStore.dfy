/** What moving, renaming, appending and deleting do to a store that holds files (src/modules/meta_data). */
module FileStore {
  import opened Text
  import opened Keys
  import opened Database
  import opened MetaData

  // ----- The invariant of a stored file -----

  function ChunkCount(m: Store, n: Name, p: Name): nat {
    var c := Number(Value(m, CountKey(n, p)));
    if c < 0 then 0 else c
  }

  predicate CountOk(m: Store, n: Name, p: Name) {
    CountKey(n, p) in m ==> m[CountKey(n, p)] == Dec(ChunkCount(m, n, p))
  }

  /** A chunk's metadata is all absent, or all present with a 16-bit port and the chunk's own index. */
  predicate ChunkOk(m: Store, n: Name, p: Name, i: nat) {
    if MetaKey(n, p, i, Addr) in m then
      && MetaKey(n, p, i, Port) in m && MetaKey(n, p, i, Index) in m
      && m[MetaKey(n, p, i, Port)] == ToString(ToInt16(Number(m[MetaKey(n, p, i, Port)])))
      && m[MetaKey(n, p, i, Index)] == Dec(i)
    else
      MetaKey(n, p, i, Port) !in m && MetaKey(n, p, i, Index) !in m
  }

  ghost predicate FileOk(m: Store, n: Name, p: Name) {
    CountOk(m, n, p) && forall i: nat :: ChunkOk(m, n, p, i)
  }

  datatype Place = Place(addr: string, port: Int16)

  /** The server a chunk's metadata names. */
  function PlaceOf(m: Store, n: Name, p: Name, i: nat): Option<Place> {
    if MetaKey(n, p, i, Addr) in m
    then Some(Place(m[MetaKey(n, p, i, Addr)], ToInt16(Number(Value(m, MetaKey(n, p, i, Port))))))
    else None
  }

  lemma ChunkOkMovable(m: Store, n: Name, p: Name, i: nat)
    requires ChunkOk(m, n, p, i)
    ensures Movable(m, n, p, i) && TargetIndex(m, n, p, i) == i
    ensures MetaRead(m, n, p, i) == match PlaceOf(m, n, p, i)
                                    case None => []
                                    case Some(a) => [a.addr, ToString(a.port), Dec(i)]
  {
    if MetaKey(n, p, i, Addr) in m {
      StoiToString(ToInt16(Number(m[MetaKey(n, p, i, Port)])));
      StoiToString(i);
    }
  }

  // ----- Moving chunks -----

  function ChunkKeys(n: Name, p: Name, i: nat): set<string> {
    {DataKey(n, p, i)} + MetaKeys(n, p, i)
  }

  ghost predicate SameChunk(m: Store, m': Store, n: Name, p: Name, i: nat) {
    Same(m, m', DataKey(n, p, i)) && forall f: Field :: Same(m, m', MetaKey(n, p, i, f))
  }

  /** Chunk i of (n, p) in m is chunk i of (n', p') in m', and nothing is left of it at the old name. */
  ghost predicate ChunkMoved(m: Store, m': Store, n: Name, p: Name, i: nat, n': Name, p': Name) {
    && DataKey(n', p', i) in m' && m'[DataKey(n', p', i)] == Value(m, DataKey(n, p, i))
    && (MetaKey(n, p, i, Addr) in m ==>
          forall f: Field :: MetaKey(n', p', i, f) in m' && m'[MetaKey(n', p', i, f)] == Value(m, MetaKey(n, p, i, f)))
    && (MetaKey(n, p, i, Addr) !in m ==> forall f: Field :: Same(m, m', MetaKey(n', p', i, f)))
    && DataKey(n, p, i) !in m' && forall f: Field :: MetaKey(n, p, i, f) !in m'
  }

  /** Every key that belongs to neither of the two chunks is as it was. */
  ghost predicate OnlyChunksChanged(m: Store, m': Store, n: Name, p: Name, n': Name, p': Name, i: nat) {
    forall key: string :: key !in ChunkKeys(n, p, i) && key !in ChunkKeys(n', p', i) ==> Same(m, m', key)
  }

  lemma ChunkOkFields(m: Store, n: Name, p: Name, i: nat)
    requires ChunkOk(m, n, p, i)
    ensures var r := MetaRead(m, n, p, i);
            if MetaKey(n, p, i, Addr) in m then
              && |r| == 3 && r[0] == m[MetaKey(n, p, i, Addr)]
              && MetaKey(n, p, i, Port) in m && ToString(ToInt16(Number(r[1]))) == m[MetaKey(n, p, i, Port)]
              && MetaKey(n, p, i, Index) in m && Dec(i) == m[MetaKey(n, p, i, Index)]
            else r == []
  {
    hide Encode, Stoi;
  }

  /** What a chunk that may hold another index in its metadata is stored as at index j: the data and the fields, the
      port cut to 16 bits, with that index; and nothing is left of it where it was. */
  lemma RelocatedReads(m: Store, n: Name, p: Name, i: nat, n': Name, p': Name, j: nat)
    requires Movable(m, n, p, i)
    ensures var r, m' := MetaRead(m, n, p, i), RelocatedTo(m, n, p, i, n', p', j);
            && DataKey(n', p', j) in m' && m'[DataKey(n', p', j)] == Value(m, DataKey(n, p, i))
            && (|r| >= 2 ==> MetaRead(m', n', p', j) == [r[0], ToString(ToInt16(Number(r[1]))), Dec(j)])
            && ((n, p, i) != (n', p', j) ==> DataKey(n, p, i) !in m' && forall f: Field :: MetaKey(n, p, i, f) !in m')
            && forall key: string :: key !in ChunkKeys(n, p, i) && key !in ChunkKeys(n', p', j) ==> Same(m, m', key)
  {
    hide Encode, Decode, Stoi, ToInt16, RelocatedTo, MetaRead, ChunkKeys;
    RelocatedRecorded(m, n, p, i, n', p', j);
    RelocatedGone(m, n, p, i, n', p', j);
  }

  lemma RelocatedRecorded(m: Store, n: Name, p: Name, i: nat, n': Name, p': Name, j: nat)
    requires Movable(m, n, p, i)
    ensures var r, m' := MetaRead(m, n, p, i), RelocatedTo(m, n, p, i, n', p', j);
            && DataKey(n', p', j) in m' && m'[DataKey(n', p', j)] == Value(m, DataKey(n, p, i))
            && (|r| >= 2 ==> MetaRead(m', n', p', j) == [r[0], ToString(ToInt16(Number(r[1]))), Dec(j)])
  {
    hide Encode, Decode, Stoi, ToInt16, Readable;
    EncodeDecode();
    var r := MetaRead(m, n, p, i);
    if |r| >= 2 {
      RecordedReads(m - {DataKey(n, p, i)} - MetaKeys(n, p, i), n', p', j, Value(m, DataKey(n, p, i)), r[0],
                    ToInt16(Number(r[1])));
    }
  }

  lemma RecordedReads(m: Store, n: Name, p: Name, j: nat, data: string, addr: string, port: Int16)
    ensures var m' := Recorded(m[DataKey(n, p, j) := data], n, p, j, addr, port);
            && DataKey(n, p, j) in m' && m'[DataKey(n, p, j)] == data
            && MetaRead(m', n, p, j) == [addr, ToString(port), Dec(j)]
  {
    hide Encode, Decode, Stoi;
    EncodeDecode();
  }

  lemma RelocatedGone(m: Store, n: Name, p: Name, i: nat, n': Name, p': Name, j: nat)
    ensures var m' := RelocatedTo(m, n, p, i, n', p', j);
            && ((n, p, i) != (n', p', j) ==> DataKey(n, p, i) !in m' && forall f: Field :: MetaKey(n, p, i, f) !in m')
            && forall key: string :: key !in ChunkKeys(n, p, i) && key !in ChunkKeys(n', p', j) ==> Same(m, m', key)
  {
    hide Encode, Decode, Stoi, MetaRead;
    EncodeDecode();
    var m' := RelocatedTo(m, n, p, i, n', p', j);
    if (n, p, i) != (n', p', j) {
      forall f: Field
        ensures MetaKey(n, p, i, f) !in m'
      {
        assert f.Addr? || f.Port? || f.Index?;
        assert MetaKey(n, p, i, f) !in MetaKeys(n', p', j) && MetaKey(n, p, i, f) != DataKey(n', p', j);
      }
    }
  }

  lemma RelocatedChunk(m: Store, n: Name, p: Name, i: nat, n': Name, p': Name)
    requires ChunkOk(m, n, p, i) && (n, p) != (n', p')
    ensures ChunkMoved(m, Relocated(m, n, p, i, n', p'), n, p, i, n', p')
    ensures OnlyChunksChanged(m, Relocated(m, n, p, i, n', p'), n, p, n', p', i)
  {
    hide Encode, Decode, Stoi, MetaRead, TargetIndex, ChunkOk;
    EncodeDecode();
    ChunkOkMovable(m, n, p, i);
    ChunkOkFields(m, n, p, i);
    var m' := Relocated(m, n, p, i, n', p');
    if MetaKey(n, p, i, Addr) in m {
      forall f: Field
        ensures MetaKey(n, p, i, f) !in m'
        ensures MetaKey(n', p', i, f) in m' && m'[MetaKey(n', p', i, f)] == Value(m, MetaKey(n, p, i, f))
      {
        assert f.Addr? || f.Port? || f.Index?;
      }
    } else {
      forall f: Field
        ensures MetaKey(n, p, i, f) !in m' && Same(m, m', MetaKey(n', p', i, f))
      {
        assert f.Addr? || f.Port? || f.Index?;
      }
    }
  }

  lemma OtherChunkSame(m: Store, m': Store, n: Name, p: Name, n': Name, p': Name, i: nat, a: Name, b: Name, j: nat)
    requires OnlyChunksChanged(m, m', n, p, n', p', i)
    requires j != i || ((a, b) != (n, p) && (a, b) != (n', p'))
    ensures SameChunk(m, m', a, b, j)
  {
    hide Encode, Decode;
    EncodeDecode();
    assert Same(m, m', DataKey(a, b, j));
    forall f: Field
      ensures Same(m, m', MetaKey(a, b, j, f))
    {
      assert MetaKey(a, b, j, f) !in ChunkKeys(n, p, i) + ChunkKeys(n', p', i);
    }
  }

  /** The first k chunks of (n, p) relocated one after the other. */
  function RelocatedChunks(m: Store, n: Name, p: Name, n': Name, p': Name, k: nat): Store {
    if k == 0 then m else Relocated(RelocatedChunks(m, n, p, n', p', k - 1), n, p, k - 1, n', p')
  }

  ghost predicate Outside(key: string, n: Name, p: Name, k: nat) {
    forall i: nat :: i < k ==> key !in ChunkKeys(n, p, i)
  }

  /** All k chunks are moved, chunks behind them are not, and no key of another file or kind is touched. */
  ghost predicate ChunksMoved(m: Store, m': Store, n: Name, p: Name, n': Name, p': Name, k: nat) {
    && (forall i: nat :: i < k ==> ChunkMoved(m, m', n, p, i, n', p'))
    && (forall i: nat :: i >= k ==> SameChunk(m, m', n, p, i) && SameChunk(m, m', n', p', i))
    && (forall key: string :: Outside(key, n, p, k) && Outside(key, n', p', k) ==> Same(m, m', key))
  }

  lemma {:induction false} RelocateChunks(m: Store, n: Name, p: Name, n': Name, p': Name, k: nat)
    requires (forall i: nat :: i < k ==> ChunkOk(m, n, p, i)) && (n, p) != (n', p')
    ensures ChunksMoved(m, RelocatedChunks(m, n, p, n', p', k), n, p, n', p', k)
  {
    hide Encode, ChunkKeys, SameChunk, ChunkMoved, ChunkOk, Relocated, OnlyChunksChanged;
    if k == 0 {
      AllSameChunks(m);
      return;
    }
    var m1 := RelocatedChunks(m, n, p, n', p', k - 1);
    var m2 := RelocatedChunks(m, n, p, n', p', k);
    RelocateChunks(m, n, p, n', p', k - 1);
    assert SameChunk(m, m1, n, p, k - 1) && SameChunk(m, m1, n', p', k - 1);
    assert ChunkOk(m, n, p, k - 1);
    SameChunkOk(m, m1, n, p, k - 1);
    RelocatedChunk(m1, n, p, k - 1, n', p');
    forall i: nat
      ensures if i < k then ChunkMoved(m, m2, n, p, i, n', p')
              else SameChunk(m, m2, n, p, i) && SameChunk(m, m2, n', p', i)
    {
      if i != k - 1 {
        OtherChunkSame(m1, m2, n, p, n', p', k - 1, n, p, i);
        OtherChunkSame(m1, m2, n, p, n', p', k - 1, n', p', i);
        if i < k {
          KeepsMoved(m, m1, m2, n, p, i, n', p');
        } else {
          SameChunkTransitive(m, m1, m2, n, p, i);
          SameChunkTransitive(m, m1, m2, n', p', i);
        }
      } else {
        MovedFromSame(m, m1, m2, n, p, i, n', p');
      }
    }
    forall key: string | Outside(key, n, p, k) && Outside(key, n', p', k)
      ensures Same(m, m2, key)
    {
      assert Outside(key, n, p, k - 1) && Outside(key, n', p', k - 1);
      assert Same(m, m1, key);
      OutsideSame(m1, m2, n, p, n', p', k - 1, key);
    }
  }

  lemma OutsideSame(m: Store, m': Store, n: Name, p: Name, n': Name, p': Name, i: nat, key: string)
    requires OnlyChunksChanged(m, m', n, p, n', p', i) && key !in ChunkKeys(n, p, i) && key !in ChunkKeys(n', p', i)
    ensures Same(m, m', key)
  {
  }

  lemma AllSameChunks(m: Store)
    ensures forall n: Name, p: Name, i: nat :: SameChunk(m, m, n, p, i)
  {
  }

  lemma SameChunkOk(m: Store, m': Store, n: Name, p: Name, i: nat)
    requires SameChunk(m, m', n, p, i) && ChunkOk(m, n, p, i)
    ensures ChunkOk(m', n, p, i) && PlaceOf(m', n, p, i) == PlaceOf(m, n, p, i)
  {
    hide Encode;
    assert forall f: Field :: Same(m, m', MetaKey(n, p, i, f));
    assert Same(m, m', MetaKey(n, p, i, Addr)) && Same(m, m', MetaKey(n, p, i, Port)) &&
           Same(m, m', MetaKey(n, p, i, Index));
  }

  lemma SameChunkTransitive(m: Store, m1: Store, m2: Store, n: Name, p: Name, i: nat)
    requires SameChunk(m, m1, n, p, i) && SameChunk(m1, m2, n, p, i)
    ensures SameChunk(m, m2, n, p, i)
  {
    hide Encode;
    forall f: Field
      ensures Same(m, m2, MetaKey(n, p, i, f))
    {
      assert Same(m, m1, MetaKey(n, p, i, f)) && Same(m1, m2, MetaKey(n, p, i, f));
    }
  }

  /** A later change elsewhere does not disturb a chunk moved before. */
  lemma KeepsMoved(m: Store, m1: Store, m2: Store, n: Name, p: Name, i: nat, n': Name, p': Name)
    requires ChunkMoved(m, m1, n, p, i, n', p') && SameChunk(m1, m2, n, p, i) && SameChunk(m1, m2, n', p', i)
    ensures ChunkMoved(m, m2, n, p, i, n', p')
  {
    hide Encode;
    forall f: Field
      ensures Same(m1, m2, MetaKey(n, p, i, f)) && Same(m1, m2, MetaKey(n', p', i, f))
      ensures MetaKey(n, p, i, f) !in m2
      ensures MetaKey(n, p, i, Addr) !in m ==> Same(m, m2, MetaKey(n', p', i, f))
    {
      assert MetaKey(n, p, i, f) !in m1;
      assert MetaKey(n, p, i, Addr) !in m ==> Same(m, m1, MetaKey(n', p', i, f));
    }
  }

  /** A chunk untouched so far moves as it stood at first. */
  lemma MovedFromSame(m: Store, m1: Store, m2: Store, n: Name, p: Name, i: nat, n': Name, p': Name)
    requires SameChunk(m, m1, n, p, i) && SameChunk(m, m1, n', p', i) && ChunkMoved(m1, m2, n, p, i, n', p')
    ensures ChunkMoved(m, m2, n, p, i, n', p')
  {
    hide Encode;
    forall f: Field
      ensures Same(m, m1, MetaKey(n, p, i, f)) && Same(m, m1, MetaKey(n', p', i, f))
      ensures MetaKey(n, p, i, Addr) !in m ==> Same(m, m2, MetaKey(n', p', i, f))
    {
      assert Same(m, m1, MetaKey(n, p, i, Addr));
      assert MetaKey(n, p, i, Addr) !in m ==> Same(m1, m2, MetaKey(n', p', i, f));
    }
  }

  /** The next chunk to relocate is still in order, and will keep its index. */
  lemma NextMovable(m: Store, n: Name, p: Name, n': Name, p': Name, k: nat)
    requires (forall i: nat :: i <= k ==> ChunkOk(m, n, p, i)) && (n, p) != (n', p')
    ensures Movable(RelocatedChunks(m, n, p, n', p', k), n, p, k) &&
            TargetIndex(RelocatedChunks(m, n, p, n', p', k), n, p, k) == k
  {
    hide Encode, ChunkKeys;
    var m1 := RelocatedChunks(m, n, p, n', p', k);
    RelocateChunks(m, n, p, n', p', k);
    assert SameChunk(m, m1, n, p, k);
    SameChunkOk(m, m1, n, p, k);
    ChunkOkMovable(m1, n, p, k);
  }

  // ----- Moving, appending to and deleting files -----

  /** What file::move and file::rename make of the store: c chunks relocated, then both counts written. */
  function MovedFile(m: Store, n: Name, p: Name, n': Name, p': Name, c: nat): Store {
    RelocatedChunks(m, n, p, n', p', c)[CountKey(n, p) := Dec(0)][CountKey(n', p') := Dec(c)]
  }

  ghost predicate SameFile(m: Store, m': Store, n: Name, p: Name) {
    Same(m, m', CountKey(n, p)) && forall i: nat :: SameChunk(m, m', n, p, i)
  }

  /** All c chunks of (n, p) are chunks of (n', p'), which has c of them; (n, p) has none left; nothing else changed. */
  ghost predicate FileMoved(m: Store, m': Store, n: Name, p: Name, n': Name, p': Name, c: nat) {
    && (forall i: nat :: i < c ==> ChunkMoved(m, m', n, p, i, n', p'))
    && (forall i: nat :: i >= c ==> SameChunk(m, m', n, p, i) && SameChunk(m, m', n', p', i))
    && CountOk(m', n, p) && ChunkCount(m', n, p) == 0
    && CountOk(m', n', p') && ChunkCount(m', n', p') == c
    && (forall key: string ::
          Outside(key, n, p, c) && Outside(key, n', p', c) && key != CountKey(n, p) && key != CountKey(n', p') ==>
            Same(m, m', key))
  }

  lemma PutCount(m: Store, n: Name, p: Name, c: nat)
    ensures var m' := m[CountKey(n, p) := Dec(c)];
            && CountOk(m', n, p) && ChunkCount(m', n, p) == c
            && (forall a: Name, b: Name, i: nat :: SameChunk(m, m', a, b, i))
            && (forall a: Name, b: Name :: (a, b) != (n, p) ==> Same(m, m', CountKey(a, b)))
            && (forall key: string :: key != CountKey(n, p) ==> Same(m, m', key))
  {
    hide Encode, Decode;
    EncodeDecode();
    StoiToString(c);
  }

  /** Moving a file whose chunks are in order relocates all of it. */
  lemma MoveFile(m: Store, n: Name, p: Name, n': Name, p': Name, c: nat)
    requires (forall i: nat :: i < c ==> ChunkOk(m, n, p, i)) && (n, p) != (n', p')
    ensures FileMoved(m, MovedFile(m, n, p, n', p', c), n, p, n', p', c)
  {
    hide Encode, ChunkKeys, Outside, SameChunk, ChunkMoved, ChunkOk, RelocatedChunks;
    var m1 := RelocatedChunks(m, n, p, n', p', c);
    var m2 := m1[CountKey(n, p) := Dec(0)];
    var m3 := m2[CountKey(n', p') := Dec(c)];
    RelocateChunks(m, n, p, n', p', c);
    PutCount(m1, n, p, 0);
    PutCount(m2, n', p', c);
    assert Same(m2, m3, CountKey(n, p));
    forall i: nat
      ensures if i < c then ChunkMoved(m, m3, n, p, i, n', p')
              else SameChunk(m, m3, n, p, i) && SameChunk(m, m3, n', p', i)
    {
      SameChunkTransitive(m1, m2, m3, n, p, i);
      SameChunkTransitive(m1, m2, m3, n', p', i);
      if i < c {
        KeepsMoved(m, m1, m3, n, p, i, n', p');
      } else {
        SameChunkTransitive(m, m1, m3, n, p, i);
        SameChunkTransitive(m, m1, m3, n', p', i);
      }
    }
    forall key: string |
      Outside(key, n, p, c) && Outside(key, n', p', c) && key != CountKey(n, p) && key != CountKey(n', p')
      ensures Same(m, m3, key)
    {
      assert Same(m, m1, key) && Same(m1, m2, key) && Same(m2, m3, key);
    }
  }

  /** A key of the schema that is not a chunk key of the file lies outside it. */
  lemma KeyOutside(k: Key, n: Name, p: Name, c: nat)
    requires !((k.Data? || k.Meta?) && k.name == n && k.path == p && k.index < c)
    ensures Outside(Encode(k), n, p, c)
  {
    hide Encode, Decode;
    EncodeDecode();
  }

  lemma OtherFileSame(m: Store, m': Store, n: Name, p: Name, n': Name, p': Name, c: nat, a: Name, b: Name)
    requires FileMoved(m, m', n, p, n', p', c) && (a, b) != (n, p) && (a, b) != (n', p')
    ensures SameFile(m, m', a, b)
  {
    hide Encode, Decode, ChunkKeys, Outside;
    EncodeDecode();
    OtherKeySame(m, m', n, p, n', p', c, Count(a, b));
    forall i: nat
      ensures SameChunk(m, m', a, b, i)
    {
      OtherKeySame(m, m', n, p, n', p', c, Data(a, b, i));
      forall f: Field
        ensures Same(m, m', MetaKey(a, b, i, f))
      {
        OtherKeySame(m, m', n, p, n', p', c, Meta(a, b, i, f));
      }
    }
  }

  /** A move leaves every key of another file or kind alone. */
  lemma OtherKeySame(m: Store, m': Store, n: Name, p: Name, n': Name, p': Name, c: nat, k: Key)
    requires FileMoved(m, m', n, p, n', p', c)
    requires (k.Data? || k.Meta? || k.Count?) ==> (k.name, k.path) != (n, p) && (k.name, k.path) != (n', p')
    ensures Same(m, m', Encode(k))
  {
    hide Encode, Decode, ChunkKeys, Outside;
    EncodeDecode();
    KeyOutside(k, n, p, c);
    KeyOutside(k, n', p', c);
  }

  lemma SameFileOk(m: Store, m': Store, n: Name, p: Name)
    requires SameFile(m, m', n, p) && FileOk(m, n, p)
    ensures FileOk(m', n, p) && ChunkCount(m', n, p) == ChunkCount(m, n, p)
    ensures forall i: nat :: PlaceOf(m', n, p, i) == PlaceOf(m, n, p, i)
  {
    hide Encode;
    forall i: nat
      ensures ChunkOk(m', n, p, i) && PlaceOf(m', n, p, i) == PlaceOf(m, n, p, i)
    {
      SameChunkOk(m, m', n, p, i);
    }
  }

  /** A moved chunk reads back unchanged: its data (a missing one as empty) and its place. */
  lemma MovedChunkReads(m: Store, m': Store, n: Name, p: Name, i: nat, n': Name, p': Name)
    requires ChunkMoved(m, m', n, p, i, n', p') && ChunkOk(m, n, p, i) && ChunkOk(m, n', p', i)
    ensures Value(m', DataKey(n', p', i)) == Value(m, DataKey(n, p, i))
    ensures ChunkOk(m', n', p', i) && ChunkOk(m', n, p, i) && PlaceOf(m', n, p, i) == None
    ensures PlaceOf(m', n', p', i) == if PlaceOf(m, n, p, i) == None then PlaceOf(m, n', p', i) else PlaceOf(m, n, p, i)
  {
    hide Encode;
    assert MetaKey(n, p, i, Addr) !in m' && MetaKey(n, p, i, Port) !in m' && MetaKey(n, p, i, Index) !in m';
    if MetaKey(n, p, i, Addr) in m {
      assert MetaKey(n', p', i, Addr) in m' && MetaKey(n', p', i, Port) in m' && MetaKey(n', p', i, Index) in m';
    } else {
      assert Same(m, m', MetaKey(n', p', i, Addr)) && Same(m, m', MetaKey(n', p', i, Port)) &&
             Same(m, m', MetaKey(n', p', i, Index));
    }
  }

  /** A move keeps every file of the store in order. */
  lemma MoveKeepsOrder(m: Store, m': Store, n: Name, p: Name, n': Name, p': Name, c: nat, a: Name, b: Name)
    requires FileMoved(m, m', n, p, n', p', c) && FileOk(m, n, p) && FileOk(m, n', p') && FileOk(m, a, b)
    ensures FileOk(m', a, b)
  {
    hide Encode, ChunkKeys;
    if (a, b) != (n, p) && (a, b) != (n', p') {
      OtherFileSame(m, m', n, p, n', p', c, a, b);
      SameFileOk(m, m', a, b);
    } else {
      forall i: nat
        ensures ChunkOk(m', a, b, i)
      {
        assert ChunkOk(m, n, p, i) && ChunkOk(m, n', p', i);
        if i < c {
          MovedChunkReads(m, m', n, p, i, n', p');
        } else {
          SameChunkOk(m, m', n, p, i);
          SameChunkOk(m, m', n', p', i);
        }
      }
    }
  }

  /** No chunk key of the file exists: what a target must be for a move to lose nothing. */
  ghost predicate Unoccupied(m: Store, n: Name, p: Name) {
    forall i: nat, key: string :: key in ChunkKeys(n, p, i) ==> key !in m
  }

  /** Moving a file to an unoccupied place and back restores what every key reads, a stored count of 0 at the place left
      apart, and every chunk's metadata. */
  lemma MoveBack(m: Store, m1: Store, m2: Store, n: Name, p: Name, n': Name, p': Name)
    requires FileOk(m, n, p) && (n, p) != (n', p') && Unoccupied(m, n', p')
    requires FileMoved(m, m1, n, p, n', p', ChunkCount(m, n, p))
    requires FileMoved(m1, m2, n', p', n, p, ChunkCount(m1, n', p'))
    ensures ChunkCount(m2, n, p) == ChunkCount(m, n, p) && ChunkCount(m2, n', p') == 0
    ensures Unoccupied(m2, n', p')
    ensures forall key: string :: key != CountKey(n, p) && key != CountKey(n', p') ==> Value(m2, key) == Value(m, key)
    ensures forall i: nat, f: Field :: Same(m, m2, MetaKey(n, p, i, f))
  {
    hide Encode, Decode;
    EncodeDecode();
    var c := ChunkCount(m, n, p);
    forall i: nat
      ensures Value(m2, DataKey(n, p, i)) == Value(m, DataKey(n, p, i))
      ensures forall f: Field :: Same(m, m2, MetaKey(n, p, i, f))
      ensures forall key: string :: key in ChunkKeys(n', p', i) ==> key !in m2
    {
      ChunkBack(m, m1, m2, n, p, n', p', c, i);
    }
    forall i: nat, f: Field
      ensures Same(m, m2, MetaKey(n, p, i, f))
    {
      ChunkBack(m, m1, m2, n, p, n', p', c, i);
    }
    forall key: string | key != CountKey(n, p) && key != CountKey(n', p')
      ensures Value(m2, key) == Value(m, key)
    {
      if !Outside(key, n, p, c) {
        var i: nat :| i < c && key in ChunkKeys(n, p, i);
        BackAt(m, m2, n, p, i, key);
      } else if !Outside(key, n', p', c) {
        var i: nat :| i < c && key in ChunkKeys(n', p', i);
      } else {
        assert Same(m, m1, key) && Same(m1, m2, key);
      }
    }
  }

  lemma BackAt(m: Store, m2: Store, n: Name, p: Name, i: nat, key: string)
    requires Value(m2, DataKey(n, p, i)) == Value(m, DataKey(n, p, i)) &&
             forall f: Field :: Same(m, m2, MetaKey(n, p, i, f))
    requires key in ChunkKeys(n, p, i)
    ensures Value(m2, key) == Value(m, key)
  {
    hide Encode;
    if key != DataKey(n, p, i) {
      assert exists f: Field :: key == MetaKey(n, p, i, f);
      var f: Field :| key == MetaKey(n, p, i, f);
      assert Same(m, m2, MetaKey(n, p, i, f));
    }
  }

  lemma UnoccupiedChunk(m: Store, n: Name, p: Name, i: nat)
    requires Unoccupied(m, n, p)
    ensures DataKey(n, p, i) !in m && forall f: Field :: MetaKey(n, p, i, f) !in m
  {
    hide Encode;
    assert DataKey(n, p, i) in ChunkKeys(n, p, i);
    forall f: Field
      ensures MetaKey(n, p, i, f) !in m
    {
      assert f.Addr? || f.Port? || f.Index?;
      assert MetaKey(n, p, i, f) in ChunkKeys(n, p, i);
    }
  }

  lemma FieldBack(m: Store, m1: Store, m2: Store, n: Name, p: Name, n': Name, p': Name, c: nat, i: nat, f: Field)
    requires Unoccupied(m, n', p') && ChunkOk(m, n, p, i)
    requires FileMoved(m, m1, n, p, n', p', c) && FileMoved(m1, m2, n', p', n, p, c)
    ensures Same(m, m2, MetaKey(n, p, i, f)) && MetaKey(n', p', i, f) !in m2
  {
    hide Encode, ChunkKeys;
    UnoccupiedChunk(m, n', p', i);
    if i >= c {
      assert SameChunk(m, m1, n, p, i) && SameChunk(m1, m2, n, p, i) && SameChunk(m, m1, n', p', i) &&
             SameChunk(m1, m2, n', p', i);
      assert Same(m, m1, MetaKey(n, p, i, f)) && Same(m1, m2, MetaKey(n, p, i, f));
      assert Same(m, m1, MetaKey(n', p', i, f)) && Same(m1, m2, MetaKey(n', p', i, f));
    } else {
      assert ChunkMoved(m, m1, n, p, i, n', p') && ChunkMoved(m1, m2, n', p', i, n, p);
      assert MetaKey(n', p', i, f) !in m2 && MetaKey(n, p, i, f) !in m1;
      if MetaKey(n, p, i, Addr) in m {
        assert MetaKey(n, p, i, f) in m by { assert f.Addr? || f.Port? || f.Index?; }
        assert MetaKey(n', p', i, Addr) in m1;
        assert MetaKey(n', p', i, f) in m1;
      } else {
        assert MetaKey(n, p, i, f) !in m by { assert f.Addr? || f.Port? || f.Index?; }
        assert Same(m, m1, MetaKey(n', p', i, Addr));
        assert Same(m1, m2, MetaKey(n, p, i, f));
      }
    }
  }

  lemma ChunkBack(m: Store, m1: Store, m2: Store, n: Name, p: Name, n': Name, p': Name, c: nat, i: nat)
    requires Unoccupied(m, n', p') && ChunkOk(m, n, p, i)
    requires FileMoved(m, m1, n, p, n', p', c) && FileMoved(m1, m2, n', p', n, p, c)
    ensures Value(m2, DataKey(n, p, i)) == Value(m, DataKey(n, p, i))
    ensures forall f: Field :: Same(m, m2, MetaKey(n, p, i, f))
    ensures forall key: string :: key in ChunkKeys(n', p', i) ==> key !in m2
  {
    hide Encode;
    forall f: Field
      ensures Same(m, m2, MetaKey(n, p, i, f)) && MetaKey(n', p', i, f) !in m2
    {
      FieldBack(m, m1, m2, n, p, n', p', c, i, f);
    }
    UnoccupiedChunk(m, n', p', i);
    if i < c {
      assert ChunkMoved(m, m1, n, p, i, n', p') && ChunkMoved(m1, m2, n', p', i, n, p);
    } else {
      assert SameChunk(m, m1, n, p, i) && SameChunk(m1, m2, n, p, i) && SameChunk(m, m1, n', p', i) &&
             SameChunk(m1, m2, n', p', i);
    }
  }

  // ----- Appending and deleting metadata -----

  /** What file::append_meta_data makes of the store when the object counts c chunks. */
  function AppendedMeta(m: Store, n: Name, p: Name, c: nat, a: Place): Store {
    Recorded(m, n, p, c, a.addr, a.port)[CountKey(n, p) := Dec(c + 1)]
  }

  /** What file::append makes of the store when the object counts c chunks. */
  function AppendedData(m: Store, n: Name, p: Name, c: nat, buffer: string): Store {
    m[DataKey(n, p, c) := buffer][CountKey(n, p) := Dec(c + 1)]
  }

  /** The only keys that may differ are the metadata of chunk i and the count of the file. */
  ghost predicate OnlyMetaChanged(m: Store, m': Store, n: Name, p: Name, i: nat) {
    forall key: string :: key !in MetaKeys(n, p, i) && key != CountKey(n, p) ==> Same(m, m', key)
  }

  lemma OtherMetaSame(m: Store, m': Store, n: Name, p: Name, i: nat)
    requires OnlyMetaChanged(m, m', n, p, i)
    ensures forall j: nat :: j != i ==> SameChunk(m, m', n, p, j)
    ensures forall a: Name, b: Name :: (a, b) != (n, p) ==> SameFile(m, m', a, b)
    ensures forall k: Key :: (k.User? || k.ListLength? || k.ListSlot? || k.Data?) ==> Same(m, m', Encode(k))
  {
    hide Encode, Decode;
    EncodeDecode();
    forall k: Key | k != Count(n, p) && !(k.Meta? && k.name == n && k.path == p && k.index == i)
      ensures Same(m, m', Encode(k))
    {
      assert Encode(k) !in MetaKeys(n, p, i);
    }
    forall a: Name, b: Name, j: nat | (a, b) != (n, p) || j != i
      ensures SameChunk(m, m', a, b, j)
    {
      forall f: Field
        ensures Same(m, m', MetaKey(a, b, j, f))
      {
      }
    }
  }

  /** An appended chunk reads back the place it was given; the file counts one more chunk; nothing else changed. */
  lemma AppendMeta(m: Store, n: Name, p: Name, c: nat, a: Place)
    ensures var m' := AppendedMeta(m, n, p, c, a);
            && PlaceOf(m', n, p, c) == Some(a) && ChunkOk(m', n, p, c)
            && CountOk(m', n, p) && ChunkCount(m', n, p) == c + 1
            && OnlyMetaChanged(m, m', n, p, c)
  {
    hide Encode, Decode;
    EncodeDecode();
    StoiToString(a.port);
    StoiToString(c + 1);
  }

  /** Deleting a chunk's metadata leaves no field of it. */
  lemma DeleteMeta(m: Store, n: Name, p: Name, i: nat)
    ensures var m' := m - MetaKeys(n, p, i);
            && PlaceOf(m', n, p, i) == None && ChunkOk(m', n, p, i)
            && (forall f: Field :: MetaKey(n, p, i, f) !in m')
            && Same(m, m', CountKey(n, p)) && OnlyMetaChanged(m, m', n, p, i)
  {
    hide Encode, Decode;
    EncodeDecode();
    var m' := m - MetaKeys(n, p, i);
    forall f: Field
      ensures MetaKey(n, p, i, f) !in m'
    {
      assert f.Addr? || f.Port? || f.Index?;
    }
  }

  /** Changing one chunk's metadata and the count keeps the whole store in order if it leaves those two in order. */
  lemma MetaKeepsOrder(m: Store, m': Store, n: Name, p: Name, i: nat, a: Name, b: Name)
    requires OnlyMetaChanged(m, m', n, p, i) && ChunkOk(m', n, p, i) && CountOk(m', n, p) && FileOk(m, a, b)
    ensures FileOk(m', a, b)
    ensures (a, b) != (n, p) ==> SameFile(m, m', a, b)
  {
    hide Encode;
    OtherMetaSame(m, m', n, p, i);
    if (a, b) != (n, p) {
      SameFileOk(m, m', a, b);
    } else {
      forall j: nat
        ensures ChunkOk(m', n, p, j)
      {
        if j != i {
          SameChunkOk(m, m', n, p, j);
        }
      }
    }
  }
}
