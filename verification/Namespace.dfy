/** A file with its copies in the name space: what moving and deleting all of them does to the store and to the list
    of file URLs. */
module Namespace {
  import opened Text
  import opened Keys
  import opened Database
  import opened MetaData
  import opened FileStore
  import opened MasterStore

  /** file::join_copy_name. */
  function CopyName(n: Name, i: nat): (r: Name)
    ensures |r| > |n|
  {
    DecFree(i, '|');
    var r := "copy-" + Dec(i) + "-" + n;
    r
  }

  /** The file itself and its copies. */
  function CopyOf(n: Name, i: nat): Name {
    if i == 0 then n else CopyName(n, i)
  }

  lemma CopiesDiffer(n: Name, i: nat, j: nat)
    requires CopyOf(n, i) == CopyOf(n, j)
    ensures i == j
  {
    if i > 0 && j > 0 {
      var a, b := Dec(i), Dec(j);
      assert |a| == |b|;
      assert CopyName(n, i)[5..5 + |a|] == a && CopyName(n, j)[5..5 + |b|] == b;
      DecInjective(i, j);
    }
  }

  lemma DigitsEnd(a: string, s: string, b: string, t: string)
    requires AllDigits(a) && AllDigits(b) && a + "-" + s == b + "-" + t
    ensures a == b && s == t
  {
    var x, y := a + "-" + s, b + "-" + t;
    assert x[|a|] == '-' && y[|b|] == '-';
    assert a == x[..|a|] && b == y[..|b|] && s == x[|a| + 1..] && t == y[|b| + 1..];
  }

  /** The name of a copy tells the file and the number, so that no two files share the name of a copy. */
  lemma CopyNameInjective(n: Name, i: nat, n': Name, i': nat)
    requires CopyName(n, i) == CopyName(n', i')
    ensures n == n' && i == i'
  {
    assert CopyName(n, i)[5..] == Dec(i) + "-" + n && CopyName(n', i')[5..] == Dec(i') + "-" + n';
    DigitsEnd(Dec(i), n, Dec(i'), n');
    DecInjective(i, i');
  }

  /** The name of copy 0 is the file's; the others begin with the word, the number and the separators the program uses.
      */
  lemma CopyOfReads(n: Name, i: nat)
    ensures CopyOf(n, 0) == n
    ensures i > 0 ==>
              var s, d := CopyOf(n, i), |CopyOf(n, i)| - |n| - 1;
              d > 5 && s[..5] == "copy-" && Stoi(s[5..d]) == Some(i) && s[d] == '-' && s[d + 1..] == n
  {
    if i > 0 {
      var s := CopyOf(n, i);
      StoiToString(i);
      assert s[5..5 + |Dec(i)|] == Dec(i) && s[5 + |Dec(i)| + 1..] == n && s[..5] == "copy-";
    }
  }

  lemma OtherCopies(n: Name, i: nat)
    requires i > 0
    ensures forall j: nat :: 0 < j && j != i ==> CopyName(n, i) != CopyName(n, j)
  {
    forall j: nat | 0 < j && j != i
      ensures CopyName(n, i) != CopyName(n, j)
    {
      if CopyOf(n, i) == CopyOf(n, j) {
        CopiesDiffer(n, i, j);
      }
    }
  }

  function Added(s: seq<string>, url: string): seq<string> {
    if url in s then s else s + [url]
  }

  // ----- The list of URLs -----

  function CopyUrl(n: Name, p: Name, j: nat): string {
    CountKey(CopyOf(n, j), p)
  }

  lemma CopyUrlInjective(n: Name, p: Name, j: nat, p': Name, j': nat)
    requires CopyUrl(n, p, j) == CopyUrl(n, p', j')
    ensures p == p' && j == j'
  {
    hide Encode;
    EncodeInjective(Count(CopyOf(n, j), p), Count(CopyOf(n, j'), p'));
    CopiesDiffer(n, j, j');
  }

  /** The list after k copies have been moved: each URL is taken out and the new one added at the end. */
  function MovedUrls(s: seq<string>, n: Name, p: Name, q: Name, k: nat): seq<string> {
    if k == 0 then s
    else Added(Without(MovedUrls(s, n, p, q, k - 1), CopyUrl(n, p, k - 1)), CopyUrl(n, q, k - 1))
  }

  ghost predicate IsCopyUrl(x: string, n: Name, p: Name, k: nat) {
    exists j: nat :: j < k && x == CopyUrl(n, p, j)
  }

  lemma NextCopyUrl(x: string, n: Name, p: Name, k: nat)
    ensures IsCopyUrl(x, n, p, k) <==> k > 0 && (IsCopyUrl(x, n, p, k - 1) || x == CopyUrl(n, p, k - 1))
  {
    hide CopyUrl;
    if k > 0 && x == CopyUrl(n, p, k - 1) {
      assert IsCopyUrl(x, n, p, k);
    }
  }

  /** The URL of a copy at the old path is the new one of an earlier copy at no time. */
  lemma NotNewUrl(n: Name, p: Name, q: Name, k: nat)
    ensures !IsCopyUrl(CopyUrl(n, p, k), n, q, k)
  {
    hide CopyUrl;
    if IsCopyUrl(CopyUrl(n, p, k), n, q, k) {
      var j: nat :| j < k && CopyUrl(n, p, k) == CopyUrl(n, q, j);
      CopyUrlInjective(n, p, k, q, j);
    }
  }

  lemma AddedDistinct(s: seq<string>, url: string)
    requires Distinct(s)
    ensures Distinct(Added(s, url))
    ensures forall x: string :: x in Added(s, url) <==> x in s || x == url
  {
  }

  /** As a set the list loses the old URLs and gains the new ones, and it stays free of duplicates. */
  lemma {:induction false} MovedUrlsSet(s: seq<string>, n: Name, p: Name, q: Name, k: nat)
    requires Distinct(s)
    ensures Distinct(MovedUrls(s, n, p, q, k))
    ensures forall x: string :: x in MovedUrls(s, n, p, q, k) <==>
              (x in s && !IsCopyUrl(x, n, p, k)) || IsCopyUrl(x, n, q, k)
  {
    hide Encode, CopyUrl, IsCopyUrl, Without, Distinct, Added;
    if k > 0 {
      MovedUrlsSet(s, n, p, q, k - 1);
      NotNewUrl(n, p, q, k - 1);
      var before := MovedUrls(s, n, p, q, k - 1);
      WithoutSet(before, CopyUrl(n, p, k - 1));
      AddedDistinct(Without(before, CopyUrl(n, p, k - 1)), CopyUrl(n, q, k - 1));
    }
    forall x: string
      ensures x in MovedUrls(s, n, p, q, k) <==> (x in s && !IsCopyUrl(x, n, p, k)) || IsCopyUrl(x, n, q, k)
    {
      NextCopyUrl(x, n, p, k);
      NextCopyUrl(x, n, q, k);
    }
  }

  /** The list after k copies have been deleted. */
  function RemovedUrls(s: seq<string>, n: Name, p: Name, k: nat): seq<string> {
    if k == 0 then s else Without(RemovedUrls(s, n, p, k - 1), CopyUrl(n, p, k - 1))
  }

  lemma {:induction false} RemovedUrlsSet(s: seq<string>, n: Name, p: Name, k: nat)
    requires Distinct(s)
    ensures Distinct(RemovedUrls(s, n, p, k))
    ensures forall x: string :: x in RemovedUrls(s, n, p, k) <==> x in s && !IsCopyUrl(x, n, p, k)
  {
    hide Encode, CopyUrl, IsCopyUrl, Without, Distinct;
    if k > 0 {
      RemovedUrlsSet(s, n, p, k - 1);
      WithoutSet(RemovedUrls(s, n, p, k - 1), CopyUrl(n, p, k - 1));
    }
    forall x: string
      ensures x in RemovedUrls(s, n, p, k) <==> x in s && !IsCopyUrl(x, n, p, k)
    {
      NextCopyUrl(x, n, p, k);
    }
  }

  // ----- Moving all copies -----

  lemma SameFileTransitive(m: Store, m1: Store, m2: Store, n: Name, p: Name)
    requires SameFile(m, m1, n, p) && SameFile(m1, m2, n, p)
    ensures SameFile(m, m2, n, p)
  {
    hide Encode;
    forall i: nat
      ensures SameChunk(m, m2, n, p, i)
    {
      SameChunkTransitive(m, m1, m2, n, p, i);
    }
  }

  lemma OneSame(m: Store, m': Store, n: Name, p: Name)
    requires SameFiles(m, m')
    ensures SameFile(m, m', n, p)
  {
  }

  lemma AllSame(m: Store)
    ensures SameFiles(m, m)
  {
  }

  /** The file is wholly at the new path: as many chunks, each with its data and its place, and nothing counted or
      placed at the old one. */
  ghost predicate MovedWhole(m: Store, m': Store, n: Name, p: Name, q: Name) {
    var c := ChunkCount(m, n, p);
    && ChunkCount(m', n, q) == c && ChunkCount(m', n, p) == 0
    && forall i: nat :: i < c ==>
         && PlaceOf(m, n, p, i).Some? && PlaceOf(m', n, q, i) == PlaceOf(m, n, p, i) && PlaceOf(m', n, p, i) == None
         && Value(m', DataKey(n, q, i)) == Value(m, DataKey(n, p, i))
  }

  lemma FileMovedWhole(m: Store, n: Name, p: Name, q: Name)
    requires FilesOk(m) && Whole(m, n, p) && p != q
    ensures MovedWhole(m, MovedFile(m, n, p, n, q, ChunkCount(m, n, p)), n, p, q)
    ensures FilesOk(MovedFile(m, n, p, n, q, ChunkCount(m, n, p)))
    ensures forall a: Name, b: Name :: (a, b) != (n, p) && (a, b) != (n, q) ==>
              SameFile(m, MovedFile(m, n, p, n, q, ChunkCount(m, n, p)), a, b)
  {
    hide Encode, MovedFile, PlaceOf, ChunkMoved, SameFile, Outside, SameChunk, ChunkOk;
    var c := ChunkCount(m, n, p);
    var m' := MovedFile(m, n, p, n, q, c);
    MoveKeepsFiles(m, n, p, n, q);
    assert FileOk(m, n, p) && FileOk(m, n, q);
    forall i: nat | i < c
      ensures PlaceOf(m, n, p, i).Some? && PlaceOf(m', n, q, i) == PlaceOf(m, n, p, i) && PlaceOf(m', n, p, i) == None
      ensures Value(m', DataKey(n, q, i)) == Value(m, DataKey(n, p, i))
    {
      MovedChunkReads(m, m', n, p, i, n, q);
    }
    forall a: Name, b: Name | (a, b) != (n, p) && (a, b) != (n, q)
      ensures SameFile(m, m', a, b)
    {
      OtherFileSame(m, m', n, p, n, q, c, a, b);
    }
  }

  /** What a move of one copy leaves: moved whole, or untouched if the new path is the old one. */
  ghost predicate MovedTo(m: Store, m': Store, n: Name, p: Name, q: Name) {
    if p == q then SameFile(m, m', n, p) else MovedWhole(m, m', n, p, q)
  }

  lemma MovedToKept(m: Store, m1: Store, m2: Store, n: Name, p: Name, q: Name)
    requires MovedTo(m, m1, n, p, q) && SameFile(m1, m2, n, p) && SameFile(m1, m2, n, q)
    ensures MovedTo(m, m2, n, p, q)
  {
    hide Encode, PlaceOf, ChunkCount, SameFile;
    if p == q {
      SameFileTransitive(m, m1, m2, n, p);
    } else {
      PlacesKept(m1, m2, n, p);
      PlacesKept(m1, m2, n, q);
      forall i: nat
        ensures Value(m2, DataKey(n, q, i)) == Value(m1, DataKey(n, q, i))
      {
        DataKept(m1, m2, n, q, i);
      }
    }
  }

  lemma DataKept(m: Store, m': Store, n: Name, p: Name, i: nat)
    requires SameFile(m, m', n, p)
    ensures Same(m, m', DataKey(n, p, i))
  {
    hide Encode;
    assert SameChunk(m, m', n, p, i);
  }

  lemma MovedToFromSame(m: Store, m1: Store, m2: Store, n: Name, p: Name, q: Name)
    requires SameFile(m, m1, n, p) && MovedTo(m1, m2, n, p, q)
    ensures MovedTo(m, m2, n, p, q)
  {
    hide Encode, PlaceOf, ChunkCount, SameFile;
    if p == q {
      SameFileTransitive(m, m1, m2, n, p);
    } else {
      PlacesKept(m, m1, n, p);
      forall i: nat
        ensures Value(m1, DataKey(n, p, i)) == Value(m, DataKey(n, p, i))
      {
        DataKept(m, m1, n, p, i);
      }
    }
  }

  /** The first k copies have been moved, the others not, and no other file was touched. */
  ghost predicate CopiesMoved(m: Store, m': Store, n: Name, p: Name, q: Name, k: nat) {
    && (forall j: nat :: j < k ==> MovedTo(m, m', CopyOf(n, j), p, q))
    && (forall a: Name, b: Name ::
          (forall j: nat :: j < k ==> (a, b) != (CopyOf(n, j), p) && (a, b) != (CopyOf(n, j), q)) ==>
          SameFile(m, m', a, b))
  }

  lemma CopiesMovedStart(m: Store, n: Name, p: Name, q: Name)
    ensures CopiesMoved(m, m, n, p, q, 0)
  {
    AllSame(m);
  }

  lemma CopiesMovedNext(m: Store, m1: Store, m2: Store, n: Name, p: Name, q: Name, k: nat)
    requires CopiesMoved(m, m1, n, p, q, k)
    requires MovedTo(m1, m2, CopyOf(n, k), p, q)
    requires forall a: Name, b: Name :: (a, b) != (CopyOf(n, k), p) && (a, b) != (CopyOf(n, k), q) ==>
               SameFile(m1, m2, a, b)
    ensures CopiesMoved(m, m2, n, p, q, k + 1)
  {
    hide Encode, MovedTo, SameFile, CopyOf;
    forall j: nat | j < k
      ensures CopyOf(n, j) != CopyOf(n, k)
    {
      if CopyOf(n, j) == CopyOf(n, k) {
        CopiesDiffer(n, j, k);
      }
    }
    forall j: nat | j < k + 1
      ensures MovedTo(m, m2, CopyOf(n, j), p, q)
    {
      if j < k {
        MovedToKept(m, m1, m2, CopyOf(n, j), p, q);
      } else {
        MovedToFromSame(m, m1, m2, CopyOf(n, k), p, q);
      }
    }
    forall a: Name, b: Name | forall j: nat :: j < k + 1 ==> (a, b) != (CopyOf(n, j), p) && (a, b) != (CopyOf(n, j), q)
      ensures SameFile(m, m2, a, b)
    {
      assert (a, b) != (CopyOf(n, k), p) && (a, b) != (CopyOf(n, k), q);
      SameFileTransitive(m, m1, m2, a, b);
    }
  }

  /** Moves leave a store in order as they found it. */
  lemma CopiesMovedInOrder(m: Store, m': Store, n: Name, p: Name, q: Name, k: nat)
    requires InOrder(m) && CopiesMoved(m, m', n, p, q, k) && FilesOk(m')
    ensures InOrder(m')
  {
    hide Encode, SameFile, PlaceOf, ChunkCount, FileOk, CopyOf;
    InOrderFiles(m);
    forall a: Name, b: Name
      ensures Whole(m', a, b)
    {
      assert Whole(m, a, b);
      if j: nat :| j < k && ((a, b) == (CopyOf(n, j), p) || (a, b) == (CopyOf(n, j), q)) {
        assert MovedTo(m, m', CopyOf(n, j), p, q);
        if p == q {
          PlacesKept(m, m', a, b);
        }
      } else {
        PlacesKept(m, m', a, b);
      }
    }
    InOrderFiles(m');
  }

  // ----- Deleting all copies -----

  /** The store after the metadata of the first k chunks has been deleted. */
  function DeletedMetas(m: Store, n: Name, p: Name, k: nat): Store {
    if k == 0 then m else DeletedMetas(m, n, p, k - 1) - MetaKeys(n, p, k - 1)
  }

  /** No field is left of the first k chunks; every other key is as it was. */
  ghost predicate MetasGone(m: Store, m': Store, n: Name, p: Name, k: nat) {
    && (forall i: nat :: i < k ==> PlaceOf(m', n, p, i) == None && ChunkOk(m', n, p, i))
    && (forall i: nat, f: Field :: i < k ==> MetaKey(n, p, i, f) !in m')
    && (forall i: nat :: i >= k ==> SameChunk(m, m', n, p, i))
    && (forall i: nat :: Same(m, m', DataKey(n, p, i))) && Same(m, m', CountKey(n, p))
    && (forall a: Name, b: Name :: (a, b) != (n, p) ==> SameFile(m, m', a, b))
  }

  ghost predicate KindsKept(m: Store, m': Store) {
    forall k: Key :: k.User? || k.ListLength? || k.ListSlot? ==> Same(m, m', Encode(k))
  }

  lemma {:induction false} DeleteMetas(m: Store, n: Name, p: Name, k: nat)
    ensures MetasGone(m, DeletedMetas(m, n, p, k), n, p, k) && KindsKept(m, DeletedMetas(m, n, p, k))
  {
    hide Encode, MetaKeys, PlaceOf, ChunkOk, SameFile, SameChunk;
    if k == 0 {
      AllSame(m);
      AllSameChunks(m);
    } else {
      DeleteMetas(m, n, p, k - 1);
      MetasGoneNext(m, DeletedMetas(m, n, p, k - 1), n, p, k - 1);
    }
  }

  lemma MetasGoneNext(m: Store, m1: Store, n: Name, p: Name, k: nat)
    requires MetasGone(m, m1, n, p, k) && KindsKept(m, m1)
    ensures MetasGone(m, m1 - MetaKeys(n, p, k), n, p, k + 1) && KindsKept(m, m1 - MetaKeys(n, p, k))
  {
    hide Encode, MetaKeys, OnlyMetaChanged, PlaceOf, ChunkOk, SameFile, SameChunk;
    var m2 := m1 - MetaKeys(n, p, k);
    DeleteMeta(m1, n, p, k);
    OtherMetaSame(m1, m2, n, p, k);
    forall i: nat
      ensures i < k + 1 ==> PlaceOf(m2, n, p, i) == None && ChunkOk(m2, n, p, i)
      ensures i >= k + 1 ==> SameChunk(m, m2, n, p, i)
    {
      if i != k {
        assert SameChunk(m1, m2, n, p, i);
        if i < k {
          SameChunkOk(m1, m2, n, p, i);
        } else {
          SameChunkTransitive(m, m1, m2, n, p, i);
        }
      }
    }
    forall i: nat
      ensures Same(m, m2, DataKey(n, p, i))
    {
      assert Same(m, m1, DataKey(n, p, i)) && Same(m1, m2, Encode(Data(n, p, i)));
    }
    forall a: Name, b: Name | (a, b) != (n, p)
      ensures SameFile(m, m2, a, b)
    {
      SameFileTransitive(m, m1, m2, a, b);
    }
    forall x: Key | x.User? || x.ListLength? || x.ListSlot?
      ensures Same(m, m2, Encode(x))
    {
      assert Same(m, m1, Encode(x)) && Same(m1, m2, Encode(x));
    }
    forall i: nat, f: Field | i < k + 1
      ensures MetaKey(n, p, i, f) !in m2
    {
      assert i < k ==> MetaKey(n, p, i, f) !in m1;
    }
  }

  lemma MetasGoneKept(m: Store, m1: Store, m2: Store, n: Name, p: Name, k: nat)
    requires MetasGone(m, m1, n, p, k) && SameFiles(m1, m2)
    ensures MetasGone(m, m2, n, p, k)
  {
    hide Encode, PlaceOf, ChunkOk, SameFile, SameChunk;
    assert SameFile(m1, m2, n, p);
    forall i: nat
      ensures i < k ==> PlaceOf(m2, n, p, i) == None && ChunkOk(m2, n, p, i)
      ensures i >= k ==> SameChunk(m, m2, n, p, i)
      ensures Same(m, m2, DataKey(n, p, i))
    {
      ChunkKept(m1, m2, n, p, i);
      if i < k {
        SameChunkOk(m1, m2, n, p, i);
      } else {
        SameChunkTransitive(m, m1, m2, n, p, i);
      }
      DataKept(m1, m2, n, p, i);
      assert Same(m, m1, DataKey(n, p, i));
    }
    forall i: nat, f: Field | i < k
      ensures MetaKey(n, p, i, f) !in m2
    {
      ChunkKept(m1, m2, n, p, i);
      FieldKept(m1, m2, n, p, i, f);
    }
    CountKept(m1, m2, n, p);
    forall a: Name, b: Name | (a, b) != (n, p)
      ensures SameFile(m, m2, a, b)
    {
      SameFileTransitive(m, m1, m2, a, b);
    }
  }

  lemma ChunkKept(m: Store, m': Store, n: Name, p: Name, i: nat)
    requires SameFile(m, m', n, p)
    ensures SameChunk(m, m', n, p, i)
  {
  }

  lemma CountKept(m: Store, m': Store, n: Name, p: Name)
    requires SameFile(m, m', n, p)
    ensures Same(m, m', CountKey(n, p))
  {
  }

  /** What a deletion leaves of one file: no chunk is counted, and no metadata of those counted before is left. */
  ghost predicate Cleared(m: Store, m': Store, n: Name, p: Name) {
    && ChunkCount(m', n, p) == 0
    && (forall i: nat, f: Field :: i < ChunkCount(m, n, p) ==> MetaKey(n, p, i, f) !in m')
    && (forall i: nat :: PlaceOf(m', n, p, i) == if i < ChunkCount(m, n, p) then None else PlaceOf(m, n, p, i))
  }

  lemma ClearFile(m: Store, m1: Store, n: Name, p: Name)
    requires FilesOk(m) && MetasGone(m, m1, n, p, ChunkCount(m, n, p))
    ensures var m2 := m1[CountKey(n, p) := Dec(0)];
            && Cleared(m, m2, n, p) && FilesOk(m2)
            && (forall a: Name, b: Name :: (a, b) != (n, p) ==> SameFile(m, m2, a, b))
  {
    hide Encode, PlaceOf, ChunkOk, SameChunk;
    var c, m2 := ChunkCount(m, n, p), m1[CountKey(n, p) := Dec(0)];
    PutCount(m1, n, p, 0);
    assert FileOk(m, n, p);
    forall i: nat
      ensures ChunkOk(m2, n, p, i) && PlaceOf(m2, n, p, i) == if i < c then None else PlaceOf(m, n, p, i)
    {
      if i >= c {
        SameChunkOk(m, m1, n, p, i);
      }
      SameChunkOk(m1, m2, n, p, i);
    }
    forall i: nat, f: Field | i < c
      ensures MetaKey(n, p, i, f) !in m2
    {
      FieldKept(m1, m2, n, p, i, f);
    }
    forall a: Name, b: Name
      ensures FileOk(m2, a, b) && ((a, b) != (n, p) ==> SameFile(m, m2, a, b))
    {
      if (a, b) != (n, p) {
        assert SameFile(m1, m2, a, b);
        SameFileTransitive(m, m1, m2, a, b);
        assert FileOk(m, a, b);
        SameFileOk(m, m2, a, b);
      }
    }
  }

  lemma FieldKept(m: Store, m': Store, n: Name, p: Name, i: nat, f: Field)
    requires SameChunk(m, m', n, p, i)
    ensures Same(m, m', MetaKey(n, p, i, f))
  {
  }

  lemma ClearedKept(m: Store, m1: Store, m2: Store, n: Name, p: Name)
    requires Cleared(m, m1, n, p) && SameFile(m1, m2, n, p)
    ensures Cleared(m, m2, n, p)
  {
    hide Encode, PlaceOf, ChunkCount, SameChunk;
    PlacesKept(m1, m2, n, p);
    forall i: nat, f: Field | i < ChunkCount(m, n, p)
      ensures MetaKey(n, p, i, f) !in m2
    {
      FieldKept(m1, m2, n, p, i, f);
    }
  }

  lemma ClearedFromSame(m: Store, m1: Store, m2: Store, n: Name, p: Name)
    requires SameFile(m, m1, n, p) && Cleared(m1, m2, n, p)
    ensures Cleared(m, m2, n, p)
  {
    hide Encode, PlaceOf, ChunkCount, SameFile;
    PlacesKept(m, m1, n, p);
  }

  ghost predicate CopiesCleared(m: Store, m': Store, n: Name, p: Name, k: nat) {
    && (forall j: nat :: j < k ==> Cleared(m, m', CopyOf(n, j), p))
    && (forall a: Name, b: Name :: (forall j: nat :: j < k ==> (a, b) != (CopyOf(n, j), p)) ==> SameFile(m, m', a, b))
  }

  lemma CopiesClearedStart(m: Store, n: Name, p: Name)
    ensures CopiesCleared(m, m, n, p, 0)
  {
    AllSame(m);
  }

  lemma CopiesClearedNext(m: Store, m1: Store, m2: Store, n: Name, p: Name, k: nat)
    requires CopiesCleared(m, m1, n, p, k) && Cleared(m1, m2, CopyOf(n, k), p)
    requires forall a: Name, b: Name :: (a, b) != (CopyOf(n, k), p) ==> SameFile(m1, m2, a, b)
    ensures CopiesCleared(m, m2, n, p, k + 1)
  {
    hide Encode, Cleared, SameFile, CopyOf;
    forall j: nat | j < k
      ensures CopyOf(n, j) != CopyOf(n, k)
    {
      if CopyOf(n, j) == CopyOf(n, k) {
        CopiesDiffer(n, j, k);
      }
    }
    forall j: nat | j < k + 1
      ensures Cleared(m, m2, CopyOf(n, j), p)
    {
      if j < k {
        ClearedKept(m, m1, m2, CopyOf(n, j), p);
      } else {
        ClearedFromSame(m, m1, m2, CopyOf(n, k), p);
      }
    }
    forall a: Name, b: Name | forall j: nat :: j < k + 1 ==> (a, b) != (CopyOf(n, j), p)
      ensures SameFile(m, m2, a, b)
    {
      assert (a, b) != (CopyOf(n, k), p);
      SameFileTransitive(m, m1, m2, a, b);
    }
  }

  /** Deletions that are carried through leave a store in order as they found it. */
  lemma CopiesClearedInOrder(m: Store, m': Store, n: Name, p: Name, k: nat)
    requires InOrder(m) && CopiesCleared(m, m', n, p, k) && FilesOk(m')
    ensures InOrder(m')
  {
    hide Encode, SameFile, PlaceOf, ChunkCount, FileOk, CopyOf;
    InOrderFiles(m);
    forall a: Name, b: Name
      ensures Whole(m', a, b)
    {
      assert Whole(m, a, b);
      if j: nat :| j < k && (a, b) == (CopyOf(n, j), p) {
        assert Cleared(m, m', CopyOf(n, j), p);
      } else {
        PlacesKept(m, m', a, b);
      }
    }
    InOrderFiles(m');
  }

  /** Deleting metadata keeps the form of every file, wherever it stops. */
  lemma DeletedFilesOk(m: Store, n: Name, p: Name, k: nat)
    requires FilesOk(m)
    ensures FilesOk(DeletedMetas(m, n, p, k))
  {
    hide Encode, DeletedMetas, ChunkOk, PlaceOf, SameChunk;
    var m' := DeletedMetas(m, n, p, k);
    DeleteMetas(m, n, p, k);
    forall a: Name, b: Name
      ensures FileOk(m', a, b)
    {
      assert FileOk(m, a, b);
      if (a, b) == (n, p) {
        assert Same(m, m', CountKey(n, p));
        forall i: nat
          ensures ChunkOk(m', n, p, i)
        {
          if i >= k {
            SameChunkOk(m, m', n, p, i);
          }
        }
      } else {
        SameFileOk(m, m', a, b);
      }
    }
  }

  /** A deletion stopped after k of the c chunks of a file leaves the store in order exactly when nothing was deleted:
      the count still covers chunks whose metadata is gone, and the next deletion would read fields that are not
      there. */
  lemma StoppedDeletionIff(m: Store, n: Name, p: Name, k: nat)
    requires InOrder(m) && k <= ChunkCount(m, n, p)
    ensures InOrder(DeletedMetas(m, n, p, k)) <==> k == 0
  {
    hide Encode, PlaceOf, ChunkOk;
    var m' := DeletedMetas(m, n, p, k);
    DeleteMetas(m, n, p, k);
    if k > 0 {
      assert Same(m, m', CountKey(n, p));
      assert PlaceOf(m', n, p, 0) == None && ChunkCount(m', n, p) == ChunkCount(m, n, p);
      assert !FileInOrder(m', n, p);
    }
  }
}
