/** What the master derives from stored metadata: the index of chunks by server, built at start-up, and the metadata a
    client is sent for a file. */
module Index {
  import opened Text
  import opened Keys
  import opened Database
  import opened MetaData
  import opened FileStore
  import opened Files
  import opened MasterStore
  import opened Namespace
  import opened Servers

  // ----- The index by server -----

  type ServerIndex = map<string, map<string, seq<nat>>>

  function Entry(ix: ServerIndex, s: string, u: string): seq<nat> {
    if s in ix && u in ix[s] then ix[s][u] else []
  }

  /** index[s][u].push_back(k), creating the row and the entry if they are not there. */
  function Push(ix: ServerIndex, s: string, u: string, k: nat): ServerIndex {
    var row := if s in ix then ix[s] else map[];
    ix[s := row[u := (if u in row then row[u] else []) + [k]]]
  }

  /** Neither rows nor entries are empty, so that the index is determined by what its entries hold. */
  predicate NoneEmpty(ix: ServerIndex) {
    forall s :: s in ix ==> ix[s] != map[] && forall u :: u in ix[s] ==> ix[s][u] != []
  }

  lemma IndexDetermined(ix: ServerIndex, ix': ServerIndex)
    requires NoneEmpty(ix) && NoneEmpty(ix') && forall s: string, u: string :: Entry(ix, s, u) == Entry(ix', s, u)
    ensures ix == ix'
  {
    RowsIncluded(ix, ix');
    RowsIncluded(ix', ix);
    forall s | s in ix
      ensures ix[s] == ix'[s]
    {
      forall u
        ensures (u in ix[s] <==> u in ix'[s]) && (u in ix[s] ==> ix[s][u] == ix'[s][u])
      {
        assert Entry(ix, s, u) == Entry(ix', s, u);
      }
    }
  }

  lemma RowsIncluded(ix: ServerIndex, ix': ServerIndex)
    requires NoneEmpty(ix) && forall s: string, u: string :: Entry(ix, s, u) == Entry(ix', s, u)
    ensures forall s :: s in ix ==> s in ix'
  {
    forall s | s in ix
      ensures s in ix'
    {
      var u :| u in ix[s];
      assert Entry(ix, s, u) == Entry(ix', s, u);
    }
  }

  /** Metadata of the chunk names the server with this joined address. */
  predicate OnServer(m: Store, n: Name, p: Name, k: nat, s: string) {
    PlaceOf(m, n, p, k).Some? && PlaceUrl(PlaceOf(m, n, p, k).value) == s
  }

  /** The chunks below c that are on server s, in ascending order. */
  function ChunksOn(m: Store, n: Name, p: Name, s: string, c: nat): seq<nat> {
    if c == 0 then [] else ChunksOn(m, n, p, s, c - 1) + if OnServer(m, n, p, c - 1, s) then [c - 1] else []
  }

  lemma {:induction false} ChunksOnExact(m: Store, n: Name, p: Name, s: string, c: nat)
    ensures forall k: nat :: k in ChunksOn(m, n, p, s, c) <==> k < c && OnServer(m, n, p, k, s)
    ensures forall i, j :: 0 <= i < j < |ChunksOn(m, n, p, s, c)| ==>
              ChunksOn(m, n, p, s, c)[i] < ChunksOn(m, n, p, s, c)[j]
  {
    hide OnServer;
    if c > 0 {
      ChunksOnExact(m, n, p, s, c - 1);
      var before := ChunksOn(m, n, p, s, c - 1);
      assert forall i :: 0 <= i < |before| ==> before[i] in before;
    }
  }

  /** A chunk with metadata is listed under one server only, the one at the place its metadata gives. */
  lemma ListedOnce(m: Store, n: Name, p: Name, c: nat, k: nat)
    requires k < c && PlaceOf(m, n, p, k).Some?
    ensures forall s: string :: k in ChunksOn(m, n, p, s, c) <==> s == PlaceUrl(PlaceOf(m, n, p, k).value)
    ensures forall a: Place :: k in ChunksOn(m, n, p, PlaceUrl(a), c) <==> PlaceOf(m, n, p, k) == Some(a)
  {
    hide PlaceOf, JoinServer;
    forall s: string
      ensures k in ChunksOn(m, n, p, s, c) <==> s == PlaceUrl(PlaceOf(m, n, p, k).value)
    {
      ChunksOnExact(m, n, p, s, c);
    }
    forall a: Place
      ensures PlaceUrl(a) == PlaceUrl(PlaceOf(m, n, p, k).value) ==> PlaceOf(m, n, p, k) == Some(a)
    {
      var b := PlaceOf(m, n, p, k).value;
      if PlaceUrl(a) == PlaceUrl(b) {
        JoinServerInjective(a.addr, a.port, b.addr, b.port);
      }
    }
  }

  ghost predicate IsFileUrl(u: string) {
    exists n: Name, p: Name :: u == CountKey(n, p)
  }

  /** Every item of the list of URLs is the URL of a file. */
  ghost predicate FileUrls(s: seq<string>) {
    forall u: string :: u in s ==> IsFileUrl(u)
  }

  lemma FileUrlAdded(s: seq<string>, n: Name, p: Name)
    requires FileUrls(s)
    ensures FileUrls(Added(s, CountKey(n, p)))
  {
    hide CountKey, IsFileUrl;
    FileUrl(n, p);
  }

  lemma FileUrlTaken(s: seq<string>, u: string)
    requires FileUrls(s) && Distinct(s)
    ensures FileUrls(Without(s, u))
  {
    hide IsFileUrl, Without;
    WithoutSet(s, u);
  }

  /** What the handlers do to the list keeps it a list of file URLs. */
  lemma FileUrlsKept(s: seq<string>, n: Name, p: Name, q: Name, k: nat)
    requires FileUrls(s) && Distinct(s)
    ensures FileUrls(Added(s, CountKey(n, p)))
    ensures FileUrls(MovedUrls(s, n, p, q, k)) && FileUrls(RemovedUrls(s, n, p, k))
  {
    hide CountKey, IsFileUrl, CopyUrl;
    assert IsFileUrl(CountKey(n, p)) by { FileUrl(n, p); }
    MovedUrlsSet(s, n, p, q, k);
    RemovedUrlsSet(s, n, p, k);
    forall x: string | x in MovedUrls(s, n, p, q, k)
      ensures IsFileUrl(x)
    {
      if IsCopyUrl(x, n, q, k) {
        var j: nat :| j < k && x == CopyUrl(n, q, j);
        FileUrl(CopyOf(n, j), q);
        CopyIsFile(n, q, j);
      }
    }
  }

  lemma FileUrl(n: Name, p: Name)
    ensures IsFileUrl(CountKey(n, p))
  {
  }

  lemma CopyIsFile(n: Name, p: Name, j: nat)
    ensures CopyUrl(n, p, j) == CountKey(CopyOf(n, j), p)
  {
  }

  /** The index of the files whose URLs are in `done`, with file (n, p) indexed up to chunk k and no other URL in it. */
  ghost predicate Indexed(m: Store, done: seq<string>, n: Name, p: Name, k: nat, ix: ServerIndex) {
    && (forall s: string :: Entry(ix, s, CountKey(n, p)) == ChunksOn(m, n, p, s, k))
    && (forall s: string, a: Name, b: Name :: (a, b) != (n, p) && CountKey(a, b) in done ==>
          Entry(ix, s, CountKey(a, b)) == ChunksOn(m, a, b, s, ChunkCount(m, a, b)))
    && (forall s: string, u: string :: u !in done && u != CountKey(n, p) ==> Entry(ix, s, u) == [])
    && NoneEmpty(ix)
  }

  /** The inverse of the stored metadata of all files in the list: entry [s][u] holds the chunks of file u on server
      s. */
  ghost predicate InverseIndex(m: Store, urls: seq<string>, ix: ServerIndex) {
    && (forall s: string, n: Name, p: Name :: CountKey(n, p) in urls ==>
          Entry(ix, s, CountKey(n, p)) == ChunksOn(m, n, p, s, ChunkCount(m, n, p)))
    && (forall s: string, u: string :: u !in urls ==> Entry(ix, s, u) == [])
    && NoneEmpty(ix)
  }

  /** What such an index says of its rows: every entry is an ascending list that is not empty, of a listed file; and a
      chunk of a listed file is in the entry of a server exactly if its metadata names that server. */
  lemma InverseRow(m: Store, urls: seq<string>, ix: ServerIndex, s: string, n: Name, p: Name)
    requires InverseIndex(m, urls, ix) && CountKey(n, p) in urls
    ensures forall k: nat ::
              (s in ix && CountKey(n, p) in ix[s] && k in ix[s][CountKey(n, p)]) <==>
              (k < ChunkCount(m, n, p) && PlaceOf(m, n, p, k).Some? && s == PlaceUrl(PlaceOf(m, n, p, k).value))
    ensures s in ix && CountKey(n, p) in ix[s] ==>
              var e := ix[s][CountKey(n, p)]; e != [] && forall i, j :: 0 <= i < j < |e| ==> e[i] < e[j]
  {
    hide CountKey, ChunkCount, PlaceUrl, PlaceOf, ChunksOn;
    ChunksOnExact(m, n, p, s, ChunkCount(m, n, p));
    var e := Entry(ix, s, CountKey(n, p));
    assert e == ChunksOn(m, n, p, s, ChunkCount(m, n, p));
    forall k: nat
      ensures (s in ix && CountKey(n, p) in ix[s] && k in ix[s][CountKey(n, p)]) <==> k in e
      ensures k in e <==>
              (k < ChunkCount(m, n, p) && PlaceOf(m, n, p, k).Some? && s == PlaceUrl(PlaceOf(m, n, p, k).value))
    {
    }
  }

  lemma RowsListed(m: Store, urls: seq<string>, ix: ServerIndex)
    requires InverseIndex(m, urls, ix)
    ensures forall s: string, u: string | s in ix && u in ix[s] :: u in urls
  {
    hide CountKey, ChunkCount, PlaceOf, ChunksOn;
    forall s: string, u: string | s in ix && u in ix[s]
      ensures u in urls
    {
      assert Entry(ix, s, u) == ix[s][u] != [];
    }
  }

  lemma IndexStart(m: Store, done: seq<string>, n: Name, p: Name, ix: ServerIndex)
    requires InverseIndex(m, done, ix) && CountKey(n, p) !in done
    ensures Indexed(m, done, n, p, 0, ix)
  {
    hide CountKey, PlaceOf, ChunkCount;
  }

  lemma PushEntry(ix: ServerIndex, s: string, u: string, k: nat)
    ensures forall s': string, u': string ::
              Entry(Push(ix, s, u, k), s', u') ==
              if (s', u') == (s, u) then Entry(ix, s, u) + [k] else Entry(ix, s', u')
    ensures NoneEmpty(ix) ==> NoneEmpty(Push(ix, s, u, k))
  {
    var ix' := Push(ix, s, u, k);
    if NoneEmpty(ix) {
      forall s' | s' in ix'
        ensures ix'[s'] != map[] && forall u' :: u' in ix'[s'] ==> ix'[s'][u'] != []
      {
        assert s' == s ==> u in ix'[s'];
      }
    }
  }

  lemma OtherUrl(a: Name, b: Name, n: Name, p: Name)
    requires CountKey(a, b) == CountKey(n, p)
    ensures (a, b) == (n, p)
  {
    EncodeInjective(Count(a, b), Count(n, p));
  }

  lemma IndexNext(m: Store, done: seq<string>, n: Name, p: Name, k: nat, ix: ServerIndex)
    requires Indexed(m, done, n, p, k, ix) && PlaceOf(m, n, p, k).Some?
    ensures Indexed(m, done, n, p, k + 1, Push(ix, PlaceUrl(PlaceOf(m, n, p, k).value), CountKey(n, p), k))
  {
    hide CountKey, PlaceOf, ChunkCount, Push, JoinServer, NoneEmpty, Entry;
    var s0 := PlaceUrl(PlaceOf(m, n, p, k).value);
    var ix' := Push(ix, s0, CountKey(n, p), k);
    PushEntry(ix, s0, CountKey(n, p), k);
    forall s: string, a: Name, b: Name | (a, b) != (n, p) && CountKey(a, b) in done
      ensures Entry(ix', s, CountKey(a, b)) == ChunksOn(m, a, b, s, ChunkCount(m, a, b))
    {
      if CountKey(a, b) == CountKey(n, p) {
        OtherUrl(a, b, n, p);
      }
    }
  }

  /** A chunk without metadata is passed over. */
  lemma IndexSkip(m: Store, done: seq<string>, n: Name, p: Name, k: nat, ix: ServerIndex)
    requires Indexed(m, done, n, p, k, ix) && PlaceOf(m, n, p, k).None?
    ensures Indexed(m, done, n, p, k + 1, ix)
  {
    hide CountKey, PlaceOf, ChunkCount, NoneEmpty, Entry;
    forall s: string
      ensures Entry(ix, s, CountKey(n, p)) == ChunksOn(m, n, p, s, k + 1)
    {
      assert ChunksOn(m, n, p, s, k + 1) == ChunksOn(m, n, p, s, k) + [];
    }
  }

  lemma IndexEnd(m: Store, done: seq<string>, n: Name, p: Name, ix: ServerIndex)
    requires Indexed(m, done, n, p, ChunkCount(m, n, p), ix)
    ensures InverseIndex(m, done + [CountKey(n, p)], ix)
  {
    hide CountKey, PlaceOf, ChunkCount, NoneEmpty, Entry, ChunksOn;
    forall s: string, a: Name, b: Name | CountKey(a, b) in done + [CountKey(n, p)]
      ensures Entry(ix, s, CountKey(a, b)) == ChunksOn(m, a, b, s, ChunkCount(m, a, b))
    {
      if CountKey(a, b) == CountKey(n, p) {
        OtherUrl(a, b, n, p);
      }
    }
  }

  // ----- The metadata of a file -----

  /** The metadata of the first k chunks, one after the other. */
  function Metas(m: Store, n: Name, p: Name, k: nat): seq<string> {
    if k == 0 then [] else Metas(m, n, p, k - 1) + MetaRead(m, n, p, k - 1)
  }

  /** What find_file_meta_data returns for k chunks: its accumulator is never cleared, so each round appends the
      metadata of all chunks up to that round's. */
  function GrowingMetas(m: Store, n: Name, p: Name, k: nat): seq<string> {
    if k == 0 then [] else GrowingMetas(m, n, p, k - 1) + Metas(m, n, p, k)
  }

  /** The fields of a place as a client gets them. */
  function Fields(a: Place, i: nat): seq<string> {
    [a.addr, ToString(a.port), Dec(i)]
  }

  lemma FieldsRead(m: Store, n: Name, p: Name, i: nat)
    requires FileOk(m, n, p)
    ensures MetaRead(m, n, p, i) == if PlaceOf(m, n, p, i).None? then [] else Fields(PlaceOf(m, n, p, i).value, i)
  {
    hide Encode, Stoi;
    assert ChunkOk(m, n, p, i);
    ChunkOkMovable(m, n, p, i);
  }

  lemma {:induction false} MetasLength(m: Store, n: Name, p: Name, k: nat)
    requires FileInOrder(m, n, p) && k <= ChunkCount(m, n, p)
    ensures |Metas(m, n, p, k)| == 3 * k
  {
    hide FileOk, ChunkCount, PlaceOf, MetaRead;
    if k > 0 {
      assert PlaceOf(m, n, p, k - 1).Some?;
      MetasLength(m, n, p, k - 1);
      FieldsRead(m, n, p, k - 1);
    }
  }

  /** Strings 3i to 3i+2 are the fields of chunk i. */
  lemma {:induction false} MetasAt(m: Store, n: Name, p: Name, k: nat, i: nat)
    requires FileInOrder(m, n, p) && i < k <= ChunkCount(m, n, p)
    ensures |Metas(m, n, p, k)| == 3 * k && PlaceOf(m, n, p, i).Some?
    ensures Metas(m, n, p, k)[3 * i..3 * i + 3] == Fields(PlaceOf(m, n, p, i).value, i)
  {
    hide FileOk, ChunkCount, PlaceOf, MetaRead, Fields;
    assert PlaceOf(m, n, p, i).Some?;
    MetasLength(m, n, p, k);
    MetasLength(m, n, p, k - 1);
    FieldsRead(m, n, p, i);
    hide Metas;
    var before, last := Metas(m, n, p, k - 1), MetaRead(m, n, p, k - 1);
    assert Metas(m, n, p, k) == before + last by { MetasNext(m, n, p, k); }
    if i < k - 1 {
      MetasAt(m, n, p, k - 1, i);
      SliceBefore(before, last, 3 * i, 3 * i + 3);
    } else {
      SliceLast(before, last);
    }
  }

  lemma MetasNext(m: Store, n: Name, p: Name, k: nat)
    requires k > 0
    ensures Metas(m, n, p, k) == Metas(m, n, p, k - 1) + MetaRead(m, n, p, k - 1)
  {
  }

  lemma SliceBefore(before: seq<string>, last: seq<string>, a: nat, b: nat)
    requires a <= b <= |before|
    ensures (before + last)[a..b] == before[a..b]
  {
  }

  lemma SliceLast(before: seq<string>, last: seq<string>)
    ensures (before + last)[|before|..|before| + |last|] == last
  {
  }

  /** For c chunks with metadata a client gets 3c(c+1)/2 strings, of which the last 3c are the metadata of all chunks in
      order, and those before are what it would get for one chunk less. */
  lemma {:induction false} GrowingMetasShape(m: Store, n: Name, p: Name, k: nat)
    requires FileInOrder(m, n, p) && k <= ChunkCount(m, n, p)
    ensures var all := GrowingMetas(m, n, p, k);
            && 2 * |all| == 3 * (k * (k + 1)) && |all| >= 3 * k && all[|all| - 3 * k..] == Metas(m, n, p, k)
            && (k > 0 ==> all[..|all| - 3 * k] == GrowingMetas(m, n, p, k - 1))
  {
    hide FileInOrder, ChunkCount, Metas;
    MetasLength(m, n, p, k);
    if k > 0 {
      GrowingMetasShape(m, n, p, k - 1);
      NextTriangle(k);
      var before, last := GrowingMetas(m, n, p, k - 1), Metas(m, n, p, k);
      assert (before + last)[|before|..] == last && (before + last)[..|before|] == before;
    }
  }

  lemma NextTriangle(k: nat)
    requires k > 0
    ensures 3 * ((k - 1) * k) + 2 * (3 * k) == 3 * (k * (k + 1))
  {
  }

  lemma {:induction false} MetasInThrees(m: Store, n: Name, p: Name, k: nat)
    requires FileOk(m, n, p)
    ensures |Metas(m, n, p, k)| % 3 == 0
  {
    hide FileOk, PlaceOf, MetaRead;
    if k > 0 {
      MetasInThrees(m, n, p, k - 1);
      FieldsRead(m, n, p, k - 1);
    }
  }

  /** The client's strings come in groups of three, even if some chunks have no metadata. */
  lemma {:induction false} GrowingMetasInThrees(m: Store, n: Name, p: Name, k: nat)
    requires FileOk(m, n, p)
    ensures |GrowingMetas(m, n, p, k)| % 3 == 0
  {
    hide FileOk, Metas;
    if k > 0 {
      GrowingMetasInThrees(m, n, p, k - 1);
      MetasInThrees(m, n, p, k);
    }
  }

  /** A client gets nothing exactly when no chunk has metadata. */
  lemma {:induction false} NothingSentIff(m: Store, n: Name, p: Name, k: nat)
    requires FileOk(m, n, p)
    ensures Metas(m, n, p, k) == [] <==> forall i: nat :: i < k ==> PlaceOf(m, n, p, i).None?
    ensures GrowingMetas(m, n, p, k) == [] <==> forall i: nat :: i < k ==> PlaceOf(m, n, p, i).None?
  {
    hide FileOk, PlaceOf, MetaRead;
    if k > 0 {
      NothingSentIff(m, n, p, k - 1);
      FieldsRead(m, n, p, k - 1);
    }
  }

  /** A client gets each chunk's metadata just once if and only if no chunk before the last has any: for a file that is
      in order, if and only if it has at most one chunk. */
  lemma SentOnceIff(m: Store, n: Name, p: Name, k: nat)
    requires FileOk(m, n, p)
    ensures GrowingMetas(m, n, p, k) == Metas(m, n, p, k) <==>
            forall i: nat :: i + 1 < k ==> PlaceOf(m, n, p, i).None?
    ensures Whole(m, n, p) && k <= ChunkCount(m, n, p) ==>
              (GrowingMetas(m, n, p, k) == Metas(m, n, p, k) <==> k <= 1)
  {
    hide FileOk, PlaceOf, MetaRead, Metas, ChunkCount;
    if k == 0 {
      NothingSentIff(m, n, p, 0);
    } else {
      var before, last := GrowingMetas(m, n, p, k - 1), Metas(m, n, p, k);
      NothingSentIff(m, n, p, k - 1);
      assert before == [] ==> before + last == last;
      assert before + last == last ==> |before| == 0;
      assert Whole(m, n, p) && 1 < k <= ChunkCount(m, n, p) ==> PlaceOf(m, n, p, 0).Some?;
    }
  }

  lemma PlaceNumber(a: Place)
    ensures ToInt16(Number(ToString(a.port))) == a.port
  {
    StoiToString(a.port);
  }

  lemma EmptyIndex(m: Store)
    ensures InverseIndex(m, [], map[])
  {
  }

  lemma StoredFields(m: Store, n: Name, p: Name, i: nat)
    requires FilesOk(m)
    ensures MetaRead(m, n, p, i) == if PlaceOf(m, n, p, i).None? then [] else Fields(PlaceOf(m, n, p, i).value, i)
    ensures PlaceOf(m, n, p, i).Some? ==>
              Stoi(ToString(PlaceOf(m, n, p, i).value.port)) == Some(PlaceOf(m, n, p, i).value.port)
  {
    hide Encode, PlaceOf, Fields, Stoi;
    assert FileOk(m, n, p);
    FieldsRead(m, n, p, i);
    if PlaceOf(m, n, p, i).Some? {
      StoiToString(PlaceOf(m, n, p, i).value.port);
    }
  }

  lemma InThrees(m: Store, n: Name, p: Name)
    requires FilesOk(m)
    ensures |GrowingMetas(m, n, p, ChunkCount(m, n, p))| % 3 == 0
  {
    hide Encode;
    assert FileOk(m, n, p);
    GrowingMetasInThrees(m, n, p, ChunkCount(m, n, p));
  }
}
