/** The invariant of the master's store, and what keeps it. */
module MasterStore {
  import opened Text
  import opened Keys
  import opened Database
  import opened MetaData
  import opened FileStore
  import opened Files

  /** Every chunk a file counts has metadata. */
  ghost predicate Whole(m: Store, n: Name, p: Name) {
    forall i: nat :: i < ChunkCount(m, n, p) ==> PlaceOf(m, n, p, i).Some?
  }

  ghost predicate FileInOrder(m: Store, n: Name, p: Name) {
    FileOk(m, n, p) && Whole(m, n, p)
  }

  /** What is stored of files has the right form, though a counted chunk may be without metadata: every handler keeps
      this, however it ends. */
  ghost predicate FilesOk(m: Store) {
    forall n: Name, p: Name :: FileOk(m, n, p)
  }

  /** Besides, every counted chunk of every file has metadata. */
  ghost predicate InOrder(m: Store) {
    forall n: Name, p: Name :: FileInOrder(m, n, p)
  }

  lemma InOrderFiles(m: Store)
    ensures InOrder(m) <==> FilesOk(m) && forall n: Name, p: Name :: Whole(m, n, p)
  {
    hide FileOk, Whole;
    if InOrder(m) {
      forall n: Name, p: Name
        ensures FileOk(m, n, p) && Whole(m, n, p)
      {
        assert FileInOrder(m, n, p);
      }
    }
  }

  lemma EmptyInOrder()
    ensures InOrder(map[])
  {
  }

  lemma SameFileInOrder(m: Store, m': Store, n: Name, p: Name)
    requires SameFile(m, m', n, p) && FileInOrder(m, n, p)
    ensures FileInOrder(m', n, p) && ChunkCount(m', n, p) == ChunkCount(m, n, p)
    ensures forall i: nat :: PlaceOf(m', n, p, i) == PlaceOf(m, n, p, i)
  {
    hide Encode;
    SameFileOk(m, m', n, p);
  }

  /** Files that agree on every field of a name agree as files. */
  ghost predicate SameFiles(m: Store, m': Store) {
    forall n: Name, p: Name :: SameFile(m, m', n, p)
  }

  lemma SameFilesOk(m: Store, m': Store)
    requires SameFiles(m, m') && FilesOk(m)
    ensures FilesOk(m')
  {
    hide SameFile, FileOk;
    forall n: Name, p: Name
      ensures FileOk(m', n, p)
    {
      SameFileOk(m, m', n, p);
    }
  }

  lemma SameFilesInOrder(m: Store, m': Store)
    requires SameFiles(m, m') && InOrder(m)
    ensures InOrder(m')
  {
    hide SameFile, FileInOrder;
    forall n: Name, p: Name
      ensures FileInOrder(m', n, p)
    {
      SameFileInOrder(m, m', n, p);
    }
  }

  /** List operations and user records touch no file. */
  lemma ListKeepsFiles(m: Store, m': Store, l: Name)
    requires OnlyListChanged(m, m', l)
    ensures SameFiles(m, m') && forall u: Name :: Same(m, m', Encode(User(u)))
  {
    hide Encode, Decode;
    EncodeDecode();
    forall k: Key | !k.ListLength? && !k.ListSlot?
      ensures Same(m, m', Encode(k))
    {
      assert !ListKey(Encode(k), l);
    }
    forall n: Name, p: Name
      ensures SameFile(m, m', n, p)
    {
      forall i: nat
        ensures SameChunk(m, m', n, p, i)
      {
        assert Same(m, m', Encode(Data(n, p, i)));
      }
    }
  }

  /** A change confined to one chunk's metadata and one count touches no list and no user. */
  lemma MetaKeepsList(m: Store, m': Store, n: Name, p: Name, i: nat, l: Name, len: nat)
    requires OnlyMetaChanged(m, m', n, p, i) && ListOk(m, l, len)
    ensures ListOk(m', l, len) && Items(m', l, len) == Items(m, l, len)
  {
    hide Encode;
    OtherMetaSame(m, m', n, p, i);
    KeysKeepList(m, m', l, len);
  }

  lemma KeysKeepList(m: Store, m': Store, l: Name, len: nat)
    requires forall k: Key :: k.ListLength? || k.ListSlot? ==> Same(m, m', Encode(k))
    requires ListOk(m, l, len)
    ensures ListOk(m', l, len) && Items(m', l, len) == Items(m, l, len)
  {
    hide Encode;
    assert Same(m, m', Encode(ListLength(l)));
    forall i: nat | i < len
      ensures Slot(l, i) in m' && Value(m', Slot(l, i)) == Value(m, Slot(l, i))
    {
      assert Same(m, m', Encode(ListSlot(l, i)));
    }
    assert Items(m', l, len) == Items(m, l, len);
  }

  lemma MoveKeepsList(m: Store, m': Store, n: Name, p: Name, n': Name, p': Name, c: nat, l: Name, len: nat)
    requires FileMoved(m, m', n, p, n', p', c) && ListOk(m, l, len)
    ensures ListOk(m', l, len) && Items(m', l, len) == Items(m, l, len)
  {
    hide Encode, FileMoved;
    forall k: Key | k.ListLength? || k.ListSlot?
      ensures Same(m, m', Encode(k))
    {
      OtherKeySame(m, m', n, p, n', p', c, k);
    }
    KeysKeepList(m, m', l, len);
  }

  /** Appending at the stored count extends the file by one place and keeps the invariant. */
  lemma AppendInOrder(m: Store, n: Name, p: Name, a: Place)
    requires FilesOk(m)
    ensures var c := ChunkCount(m, n, p);
            var m' := AppendedMeta(m, n, p, c, a);
            && FilesOk(m') && (InOrder(m) ==> InOrder(m')) && OnlyMetaChanged(m, m', n, p, c)
            && ChunkCount(m', n, p) == c + 1 && PlaceOf(m', n, p, c) == Some(a)
            && (forall i: nat :: i != c ==> PlaceOf(m', n, p, i) == PlaceOf(m, n, p, i))
            && (forall a: Name, b: Name :: (a, b) != (n, p) ==> SameFile(m, m', a, b))
  {
    hide Encode, OnlyMetaChanged, AppendedMeta;
    var c := ChunkCount(m, n, p);
    var m' := AppendedMeta(m, n, p, c, a);
    AppendMeta(m, n, p, c, a);
    OtherMetaSame(m, m', n, p, c);
    assert FileOk(m, n, p);
    MetaKeepsOrder(m, m', n, p, c, n, p);
    forall i: nat | i != c
      ensures PlaceOf(m', n, p, i) == PlaceOf(m, n, p, i)
    {
      SameChunkOk(m, m', n, p, i);
    }
    forall x: Name, y: Name
      ensures FileOk(m', x, y)
    {
      if (x, y) != (n, p) {
        assert FileOk(m, x, y);
        SameFileOk(m, m', x, y);
      }
    }
    if InOrder(m) {
      InOrderFiles(m);
      forall x: Name, y: Name
        ensures Whole(m', x, y)
      {
        assert Whole(m, x, y);
        if (x, y) != (n, p) {
          PlacesKept(m, m', x, y);
        }
      }
      InOrderFiles(m');
    }
  }

  /** Moving all chunks a file counts keeps the form of every file, whatever was stored at the target. */
  lemma MoveKeepsFiles(m: Store, n: Name, p: Name, n': Name, p': Name)
    requires FilesOk(m) && (n, p) != (n', p')
    ensures var c := ChunkCount(m, n, p);
            FilesOk(MovedFile(m, n, p, n', p', c)) && FileMoved(m, MovedFile(m, n, p, n', p', c), n, p, n', p', c)
  {
    hide Encode, MovedFile, ChunkMoved, SameChunk, Outside;
    var c := ChunkCount(m, n, p);
    var m' := MovedFile(m, n, p, n', p', c);
    assert FileOk(m, n, p) && FileOk(m, n', p');
    MoveFile(m, n, p, n', p', c);
    forall x: Name, y: Name
      ensures FileOk(m', x, y)
    {
      assert FileOk(m, x, y);
      MoveKeepsOrder(m, m', n, p, n', p', c, x, y);
    }
  }

  // ----- Uploads: places appended to one file -----

  const URL_LIST: Name := "file_url_list"

  /** Only metadata and count of one file and the list of URLs may differ. */
  ghost predicate OnlyPlacesChanged(m: Store, m': Store, n: Name, p: Name) {
    forall key: string ::
      (forall i: nat :: key !in MetaKeys(n, p, i)) && key != CountKey(n, p) && !ListKey(key, URL_LIST) ==>
        Same(m, m', key)
  }

  /** File (n, p) has got these places behind the ones it had; nothing but its metadata, its count and the list of URLs
      was touched. */
  ghost predicate Grown(m: Store, m': Store, n: Name, p: Name, places: seq<Place>) {
    var c := ChunkCount(m, n, p);
    && ChunkCount(m', n, p) == c + |places|
    && (forall i: nat :: PlaceOf(m', n, p, i) ==
                         if c <= i < c + |places| then Some(places[i - c]) else PlaceOf(m, n, p, i))
    && OnlyPlacesChanged(m, m', n, p)
  }

  lemma GrownSame(m: Store, n: Name, p: Name)
    ensures Grown(m, m, n, p, [])
  {
  }

  /** One more place, and a change to the list of URLs. */
  lemma GrownNext(m: Store, m1: Store, m2: Store, m3: Store, n: Name, p: Name, places: seq<Place>, a: Place)
    requires Grown(m, m1, n, p, places) && FilesOk(m1)
    requires m2 == AppendedMeta(m1, n, p, ChunkCount(m1, n, p), a) && OnlyListChanged(m2, m3, URL_LIST)
    ensures Grown(m, m3, n, p, places + [a]) && FilesOk(m3)
  {
    hide Encode, AppendedMeta, PlaceOf, ChunkCount, SameFile, FilesOk, Whole, ListKey;
    AppendInOrder(m1, n, p, a);
    ListKeepsFiles(m2, m3, URL_LIST);
    assert SameFile(m2, m3, n, p);
    SameFilesOk(m2, m3);
    PlacesKept(m2, m3, n, p);
    forall key: string |
      (forall i: nat :: key !in MetaKeys(n, p, i)) && key != CountKey(n, p) && !ListKey(key, URL_LIST)
      ensures Same(m, m3, key)
    {
      assert Same(m, m1, key) && Same(m1, m2, key) && Same(m2, m3, key);
    }
  }

  lemma PlacesKept(m: Store, m': Store, n: Name, p: Name)
    requires SameFile(m, m', n, p)
    ensures ChunkCount(m', n, p) == ChunkCount(m, n, p) && forall i: nat :: PlaceOf(m', n, p, i) == PlaceOf(m, n, p, i)
    ensures Whole(m', n, p) <==> Whole(m, n, p)
  {
    hide Encode;
    forall i: nat
      ensures PlaceOf(m', n, p, i) == PlaceOf(m, n, p, i)
    {
      assert SameChunk(m, m', n, p, i);
      assert Same(m, m', MetaKey(n, p, i, Addr)) && Same(m, m', MetaKey(n, p, i, Port));
    }
  }

  lemma GrownWhole(m: Store, m': Store, n: Name, p: Name, places: seq<Place>)
    requires Grown(m, m', n, p, places) && Whole(m, n, p)
    ensures Whole(m', n, p)
  {
    hide Encode, OnlyPlacesChanged, PlaceOf, ChunkCount;
  }

  /** A file that has grown is in order if it was, and so is the whole store. */
  lemma GrownInOrder(m: Store, m': Store, n: Name, p: Name, places: seq<Place>)
    requires Grown(m, m', n, p, places) && InOrder(m) && FilesOk(m')
    ensures InOrder(m')
  {
    hide Encode, OnlyPlacesChanged, PlaceOf, ChunkCount, FileOk, SameFile;
    OtherKeysKept(m, m', n, p);
    InOrderFiles(m);
    forall a: Name, b: Name
      ensures Whole(m', a, b)
    {
      assert Whole(m, a, b);
      if (a, b) != (n, p) {
        PlacesKept(m, m', a, b);
      }
    }
    InOrderFiles(m');
  }

  /** Such a change leaves every other file, all chunk data and all users alone. */
  lemma OtherKeysKept(m: Store, m': Store, n: Name, p: Name)
    requires OnlyPlacesChanged(m, m', n, p)
    ensures forall a: Name, b: Name :: (a, b) != (n, p) ==> SameFile(m, m', a, b)
    ensures forall k: Key :: k.User? || k.Data? ==> Same(m, m', Encode(k))
  {
    hide Encode, Decode;
    EncodeDecode();
    forall k: Key | !k.ListLength? && !k.ListSlot? && k != Count(n, p) && !(k.Meta? && k.name == n && k.path == p)
      ensures Same(m, m', Encode(k))
    {
      assert !ListKey(Encode(k), URL_LIST);
      assert forall i: nat :: Encode(k) !in MetaKeys(n, p, i);
    }
    forall a: Name, b: Name | (a, b) != (n, p)
      ensures SameFile(m, m', a, b)
    {
      forall i: nat
        ensures SameChunk(m, m', a, b, i)
      {
        assert Same(m, m', Encode(Data(a, b, i)));
      }
    }
  }

  /** The metadata read of a chunk is all of it or nothing. */
  lemma ChunksReadable(m: Store, n: Name, p: Name)
    requires FilesOk(m)
    ensures forall i: nat ::
              Readable(MetaRead(m, n, p, i)) && |MetaRead(m, n, p, i)| == if PlaceOf(m, n, p, i).Some? then 3 else 0
  {
    hide Encode, ChunkOk, PlaceOf;
    assert FileOk(m, n, p);
    forall i: nat
      ensures Readable(MetaRead(m, n, p, i)) && |MetaRead(m, n, p, i)| == if PlaceOf(m, n, p, i).Some? then 3 else 0
    {
      ChunkOkMovable(m, n, p, i);
    }
  }

  lemma ChunksOk(m: Store, n: Name, p: Name)
    requires FilesOk(m)
    ensures forall i: nat :: ChunkOk(m, n, p, i)
  {
    assert FileOk(m, n, p);
  }

  lemma CountsReadable(m: Store, n: Name, p: Name)
    requires FilesOk(m)
    ensures CountReadable(m, n, p)
  {
    hide Encode;
    assert FileOk(m, n, p);
    StoiToString(ChunkCount(m, n, p));
  }

  lemma ListDistinct(m: Store, n: nat)
    requires ListOk(m, URL_LIST, n)
    ensures Distinct(Items(m, URL_LIST, n))
  {
  }
}
