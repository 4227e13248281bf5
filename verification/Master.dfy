/** The master server's handlers over its store (src/core/master_server). */
module Master {
  import opened Text
  import opened Keys
  import opened Database
  import opened MetaData
  import opened FileStore
  import opened Files
  import opened MasterStore
  import opened Namespace
  import opened Segments
  import opened Placement
  import opened Servers
  import opened Index
  import opened Accounts
  import opened Uploads
  import opened Copies
  import opened Requests
  import Base64

  class MasterServer {
    const db: LevelDB
    const urls: LevelDBList
    const copies: nat
    const maxChunkSize: nat
    var clientId: string
    var isLogin: bool

    /** The list object agrees with the store, its items are file URLs, and what is stored of files is well formed. */
    ghost predicate Valid()
      reads this, db, urls, urls.db
    {
      urls.db == db && urls.name == URL_LIST && urls.Valid() && FileUrls(urls.Contents()) && FilesOk(db.m)
    }

    /** Starting on an empty store or on one left by another run. */
    constructor (db: LevelDB, copies: nat, maxChunkSize: nat, ghost n: nat)
      requires ListOk(db.m, URL_LIST, n) && FileUrls(Items(db.m, URL_LIST, n)) && FilesOk(db.m)
      ensures Valid() && this.db == db && this.copies == copies && this.maxChunkSize == maxChunkSize
      ensures fresh(urls) && urls.Contents() == Items(db.m, URL_LIST, n)
    {
      this.db, this.copies, this.maxChunkSize := db, copies, maxChunkSize;
      clientId, isLogin := "", false;
      urls := new LevelDBList(db, URL_LIST, n);
    }

    /** The loops of the constructor that index the stored chunks by server. */
    method BuildIndex() returns (ix: ServerIndex)
      requires Valid()
      ensures InverseIndex(db.m, urls.Contents(), ix)
      // a chunk of a listed file is in the entry of a server exactly if its metadata names that server
      ensures forall s: string, n: Name, p: Name, k: nat | CountKey(n, p) in urls.Contents() ::
                (s in ix && CountKey(n, p) in ix[s] && k in ix[s][CountKey(n, p)]) <==>
                (k < ChunkCount(db.m, n, p) && PlaceOf(db.m, n, p, k).Some? &&
                 s == PlaceUrl(PlaceOf(db.m, n, p, k).value))
      ensures forall s: string, u: string | s in ix && u in ix[s] :: u in urls.Contents()
    {
      hide Encode, CountKey, FilesOk, ListOk, InverseIndex, PlaceOf, PlaceUrl, ChunkCount, Items;
      ix := map[];
      assert InverseIndex(db.m, [], ix) by { EmptyIndex(db.m); }
      ghost var all := urls.Contents();
      ListDistinct(db.m, urls.length);
      var i := 0;
      while i < urls.length
        invariant i <= urls.length && InverseIndex(db.m, all[..i], ix)
      {
        var url := urls.At(i);
        assert url in all && url !in all[..i] && all[..i] + [url] == all[..i + 1];
        ghost var n: Name, p: Name :| url == CountKey(n, p);
        ix := IndexFile(url, ix, n, p, all[..i]);
        i := i + 1;
      }
      assert all[..urls.length] == all;
      forall s: string, n: Name, p: Name | CountKey(n, p) in all
        ensures forall k: nat ::
                  (s in ix && CountKey(n, p) in ix[s] && k in ix[s][CountKey(n, p)]) <==>
                  (k < ChunkCount(db.m, n, p) && PlaceOf(db.m, n, p, k).Some? &&
                   s == PlaceUrl(PlaceOf(db.m, n, p, k).value))
      {
        InverseRow(db.m, all, ix, s, n, p);
      }
      RowsListed(db.m, all, ix);
    }

    /** The inner loop: every chunk of one file goes to the row of the server its metadata names. */
    method IndexFile(url: string, before: ServerIndex, ghost n: Name, ghost p: Name, ghost done: seq<string>)
      returns (ix: ServerIndex)
      requires Valid() && url == CountKey(n, p) && url !in done && InverseIndex(db.m, done, before)
      ensures InverseIndex(db.m, done + [url], ix)
    {
      hide Encode, CountKey, FilesOk, FileUrls, ListOk, InverseIndex, Indexed, Push, JoinServer, MetaRead, PlaceOf,
           ChunkCount, CountReadable;
      hide Stoi;
      ix := before;
      CountKeyUrl(n, p);
      CountsReadable(db.m, n, p);
      IndexStart(db.m, done, n, p, ix);
      var file := new File.FromUrl(url);
      var _ := file.Open(db);
      var k := 0;
      while k < file.count
        invariant file.Valid() && file.name == n && file.path == p && file.db == db
        invariant k <= file.count == ChunkCount(db.m, n, p) && Indexed(db.m, done, n, p, k, ix)
      {
        ChunksReadable(db.m, n, p);
        StoredFields(db.m, n, p, k);
        var _, arr := file.ReadChunkMetaData(k, []);
        if arr != [] {
          PlaceNumber(PlaceOf(db.m, n, p, k).value);
          IndexNext(db.m, done, n, p, k, ix);
          ix := Push(ix, JoinServer(arr[0], Stoi(arr[1]).value), file.url, k);
        } else {
          IndexSkip(db.m, done, n, p, k, ix);
        }
        k := k + 1;
      }
      file.Close();
      IndexEnd(db.m, done, n, p, ix);
    }

    /** The metadata of a file, as a client gets it. */
    method FindFileMetaData(url: string, ghost n: Name, ghost p: Name) returns (res: seq<string>)
      requires Valid() && url == CountKey(n, p)
      ensures res == GrowingMetas(db.m, n, p, ChunkCount(db.m, n, p))
    {
      hide Encode, CountKey, FilesOk, FileUrls, MetaRead, ChunkCount, CountReadable, Readable, LevelDBList.Valid,
           LevelDBList.Contents;
      CountKeyUrl(n, p);
      CountsReadable(db.m, n, p);
      ChunksReadable(db.m, n, p);
      var file := new File.FromUrl(url);
      var _ := file.Open(db);
      file.Close();
      var arr: seq<string>, i := [], 0;
      res := [];
      while i < file.count
        invariant i <= file.count == ChunkCount(db.m, n, p) && file.Valid() && file.name == n && file.path == p &&
                  fresh(file)
        invariant arr == Metas(db.m, n, p, i) && res == GrowingMetas(db.m, n, p, i)
      {
        var _ := file.Open(db);
        var _, arr' := file.ReadChunkMetaData(i, arr);
        arr := arr';
        ghost var before := res;
        for k := 0 to |arr|
          invariant res == before + arr[..k]
        {
          res := res + [arr[k]];
        }
        assert arr[..|arr|] == arr;
        file.Close();
        i := i + 1;
      }
    }

    /** deal_with_101: the answer takes the strings three at a time. */
    method SendFileMetaData(name: Name, path: Name) returns (data: string, customize: seq<string>)
      requires Valid()
      ensures data == "File Find!" && customize == GrowingMetas(db.m, name, path, ChunkCount(db.m, name, path))
    {
      hide Encode, FilesOk, FileUrls, ListOk, ChunkCount, GrowingMetas;
      CountKeyUrl(name, path);
      var result := FindFileMetaData(name + "|" + path, name, path);
      InThrees(db.m, name, path);
      data, customize := "File Find!", [];
      var i := 0;
      while i < |result|
        invariant i <= |result| && i % 3 == 0 && customize == result[..i]
      {
        customize := customize + [result[i]];
        i := i + 1;
        customize := customize + [result[i]];
        i := i + 1;
        customize := customize + [result[i]];
        i := i + 1;
      }
    }

    method Register(user: Name, pwd: seq<bv8>) returns (ok: bool)
      modifies db
      ensures ok == (Value(old(db.m), user) == "") && db.m == Registered(old(db.m), user, pwd)
      // a refused registration leaves the stored password, a granted one stores the encoded one
      ensures db.m == if ok then old(db.m)[user := Base64.Encode(pwd)] else old(db.m)
      ensures old(Valid()) ==> Valid() && urls.Contents() == old(urls.Contents())
      ensures InOrder(old(db.m)) ==> InOrder(db.m)
    {
      hide Encode, FilesOk, InOrder, FileUrls, ListOk, Items, Base64.Encode;
      UserKey(user);
      var encrypted := Base64.EncryptPwd(pwd);
      var _, temp := db.Get(user, "");
      RegisterFrame(db.m, user, pwd);
      if FilesOk(db.m) {
        SameFilesOk(db.m, Registered(db.m, user, pwd));
      }
      if InOrder(db.m) {
        SameFilesInOrder(db.m, Registered(db.m, user, pwd));
      }
      if temp == "" {
        var _ := db.Put(user, encrypted);
        return true;
      }
      return false;
    }

    method Login(user: Name, pwd: seq<bv8>) returns (ok: bool)
      modifies this`clientId, this`isLogin
      ensures ok == LoginOk(db.m, user, pwd) == (Value(db.m, user) == Base64.Encode(pwd))
      ensures if ok then clientId == user && isLogin else clientId == old(clientId) && isLogin == old(isLogin)
    {
      UserKey(user);
      var _, gotPwd := db.Get(user, "");
      var encrypted := Base64.EncryptPwd(pwd);
      if gotPwd == encrypted {
        clientId, isLogin := user, true;
        return true;
      }
      return false;
    }

    /** The macro of the upload loop: the chunk just ended is recorded on its server. */
    method CloseChunk(file: File, server: ServerInfo)
      requires Valid() && file.Valid()
      modifies db, urls, file
      ensures Valid() && file.Valid() && file.name == old(file.name) && file.path == old(file.path) &&
              file.url == old(file.url)
      ensures urls.Contents() == Added(old(urls.Contents()), file.url)
      ensures file.count == ChunkCount(old(db.m), file.name, file.path) + 1
      ensures exists m: Store ::
                && m == AppendedMeta(old(db.m), file.name, file.path, file.count - 1, PlaceFor(server))
                && OnlyListChanged(m, db.m, URL_LIST)
    {
      hide Encode, CountKey, FilesOk, FileUrls, ListOk, OnlyMetaChanged;
      CountsReadable(db.m, file.name, file.path);
      var _ := file.Open(db);
      ghost var m0, c := db.m, file.count;
      var _ := file.AppendMetaData(server.addr, ToInt16(server.port));
      AppendInOrder(m0, file.name, file.path, PlaceFor(server));
      MetaKeepsList(m0, db.m, file.name, file.path, c, URL_LIST, urls.length);
      ghost var m := db.m;
      FileUrlAdded(urls.Contents(), file.name, file.path);
      var _ := urls.PushBack(file.url);
      ListKeepsFiles(m, db.m, URL_LIST);
      SameFilesOk(m, db.m);
      file.Close();
    }

    /** The upload loop of deal_with_104 for packages of one file. The first server is given, and choose(i) is the i-th
        random choice; package t is stored lost(t) times with its reply lost before it is acknowledged. */
    method UploadLoop(name: Name, path: Name, first: ServerInfo, data0: string, rest: seq<Message>,
                      choose: nat -> ServerInfo, lost: nat -> nat)
      returns (end: UploadEnd, sent: seq<Send>, file: File?, ghost segs: seq<seq<string>>, ghost open: seq<string>)
      requires Valid()
      modifies db, urls
      ensures Valid()
      ensures end != NoFile ==> file != null && fresh(file) && file.Valid() && file.name == name && file.path == path
      ensures end != Leased && (end == Finished ==> file.count == ChunkCount(db.m, name, path))
      // what was received was sent on, cut greedily
      ensures UploadResult(end, segs, open, data0, rest, maxChunkSize)
      ensures sent == SentSoFar(segs, open, first, choose, lost)
      // every closed chunk is recorded on the server that received it
      ensures InOrder(old(db.m)) ==> InOrder(db.m)
      ensures RecordedChunks(old(db.m), db.m, old(urls.Contents()), urls.Contents(), name, path, first, choose, |segs|)
    {
      hide Encode, Grown, FilesOk, FileUrls, InOrder, Uploading, AllSends, SentSoFar, Cutting, Greedy, Flatten, ListOk,
           ServerUrl, UploadResult, Stream, NextEnd, ChunkCount, CountKey, Added, Items, Full, Size, PlacesOf, UrlsOf,
           PlaceFor, PlaceOf, ToInt16, JoinServer, SegmentSends, OnlyPlacesChanged, File.Valid, MasterServer.Valid,
           LevelDBList.Contents;
      ghost var stream := Stream(data0, rest);
      segs, open, sent, file := [], [], [], null;
      var server, cur := first, data0;
      var sum: nat, chunks: nat, pos: nat := 0, 0, 0;
      GrownSame(db.m, name, path);
      UploadStart(stream, maxChunkSize, first, choose, lost);
      ghost var m0, items0 := db.m, urls.Contents();
      assert RecordedChunks(m0, db.m, items0, urls.Contents(), name, path, first, choose, 0) by {
        assert PlacesOf(first, choose, 0) == [];
      }
      hide RecordedChunks;
      while true
        invariant Valid() && (file == null <==> pos == 0) && (pos > 0 ==> maxChunkSize > 0)
        invariant file != null ==> fresh(file) && file.Valid() && file.name == name && file.path == path
        invariant pos <= |rest| && cur == stream[pos] && chunks == |segs|
        invariant Uploading(stream, pos, segs, open, sum, maxChunkSize, sent, first, choose, lost) &&
                  server == ServerAt(first, choose, |segs|)
        invariant RecordedChunks(m0, db.m, items0, urls.Contents(), name, path, first, choose, |segs|)
        invariant InOrder(m0) ==> InOrder(db.m)
        decreases |rest| - pos, if sum >= maxChunkSize then 1 else 0
      {
        if sum >= maxChunkSize || cur == FILE_END {
          if file == null {
            end := NoFile;
            UploadStopped(end, data0, rest, pos, segs, open, sum, maxChunkSize, sent, first, choose, lost);
            return;
          }
          UploadClose(stream, pos, segs, open, sum, maxChunkSize, sent, first, choose, lost);
          RecordChunk(file, m0, items0, first, choose, chunks);
          chunks := chunks + 1;
          segs, open := segs + [open], [];
          if sum < maxChunkSize {
            end := Finished;
            UploadFinished(data0, rest, pos, segs, maxChunkSize);
            return;
          }
          sum := 0;
          server := choose(chunks - 1);
        } else {
          UploadPackage(stream, pos, segs, open, sum, maxChunkSize, sent, first, choose, lost);
          sum := sum + |cur|;
          file := new File.FromName(name, path);
          sent := SendPackage(sent, ServerUrl(server), chunks, cur, lost(pos));
          open := open + [cur];
          end := NextEnd(rest, pos);
          if end != Finished {
            UploadStopped(end, data0, rest, pos + 1, segs, open, sum, maxChunkSize, sent, first, choose, lost);
            return;
          }
          StreamNext(data0, rest, pos);
          cur, pos := rest[pos].data, pos + 1;
        }
      }
    }

    /** The upload as a whole. */
    method Upload(name: Name, path: Name, first: ServerInfo, data0: string, rest: seq<Message>,
                  choose: nat -> ServerInfo, lost: nat -> nat)
      returns (end: UploadEnd, sent: seq<Send>, file: File?, ghost segs: seq<seq<string>>, ghost open: seq<string>)
      requires Valid()
      modifies db, urls
      ensures Valid()
      ensures end != NoFile ==> file != null && fresh(file) && file.Valid() && file.name == name && file.path == path
      ensures end != Leased && (end == Finished ==> file.count == ChunkCount(db.m, name, path))
      // what was received was sent on, cut greedily
      ensures UploadResult(end, segs, open, data0, rest, maxChunkSize)
      ensures sent == SentSoFar(segs, open, first, choose, lost)
      ensures forall k :: 0 <= k < |segs| && (end == Finished ==> k < |segs| - 1) ==>
                segs[k] != [] && Size(segs[k]) >= maxChunkSize && Size(segs[k][..|segs[k]| - 1]) < maxChunkSize
      ensures end == Finished ==> segs != [] && Size(segs[|segs| - 1]) < maxChunkSize
      ensures end == Finished ==> Flatten(segs) + ["file End"] <= Stream(data0, rest) && "file End" !in Flatten(segs)
      // after every full chunk another server is chosen, for the packages and for the metadata
      ensures forall i :: 0 <= i < |sent| ==>
                && sent[i].index <= |segs|
                && sent[i].server == ServerUrl(if sent[i].index == 0 then first else choose(sent[i].index - 1))
      ensures var c := ChunkCount(old(db.m), name, path);
              forall t: nat :: c <= t < c + |segs| ==>
                PlaceOf(db.m, name, path, t) == Some(PlaceFor(if t == c then first else choose(t - c - 1)))
      // every closed chunk is recorded on the server that received it
      ensures InOrder(old(db.m)) ==> InOrder(db.m)
      ensures RecordedChunks(old(db.m), db.m, old(urls.Contents()), urls.Contents(), name, path, first, choose, |segs|)
    {
      hide Encode, Grown, FilesOk, FileUrls, InOrder, ListOk, SentSoFar, UploadResult, RecordedChunks, ServerUrl, Size,
           Flatten, ChunkCount, PlaceOf, PlaceFor, LevelDBList.Contents, LevelDBList.Valid, File.Valid;
      ghost var m0, items0 := db.m, urls.Contents();
      end, sent, file, segs, open := UploadLoop(name, path, first, data0, rest, choose, lost);
      UploadSays(m0, db.m, items0, urls.Contents(), name, path, end, segs, open, data0, rest, maxChunkSize, sent, first,
                 choose, lost);
    }

    /** The loop that sends one package until it is acknowledged, which is after it has been stored. */
    method SendPackage(sent: seq<Send>, url: string, k: nat, data: string, times: nat) returns (sent': seq<Send>)
      ensures sent' == sent + SegmentSends(Again(data, times), url, k)
    {
      sent' := sent;
      var a := 0;
      while true
        invariant a <= times && sent' == sent + SegmentSends(Again(data, times)[..a], url, k)
        decreases times - a
      {
        sent' := sent' + [Send(url, k, data)];
        SegmentSendsNext(Again(data, times)[..a], [data], url, k);
        assert Again(data, times)[..a + 1] == Again(data, times)[..a] + [data];
        if a == times {
          break;
        }
        a := a + 1;
      }
      assert Again(data, times)[..times + 1] == Again(data, times);
    }

    /** CloseChunk as chunk k of the upload. */
    method RecordChunk(file: File, ghost m0: Store, ghost items0: seq<string>, first: ServerInfo,
                       choose: nat -> ServerInfo, k: nat)
      requires Valid() && file.Valid()
      requires RecordedChunks(m0, db.m, items0, urls.Contents(), file.name, file.path, first, choose, k)
      modifies db, urls, file
      ensures Valid() && file.Valid() && file.name == old(file.name) && file.path == old(file.path)
      ensures RecordedChunks(m0, db.m, items0, urls.Contents(), file.name, file.path, first, choose, k + 1)
      ensures file.count == ChunkCount(db.m, file.name, file.path) && (InOrder(m0) ==> InOrder(db.m))
    {
      hide Encode, Grown, FilesOk, FileUrls, InOrder, AppendedMeta, ListOk, ChunkCount, CountKey, Items, PlaceFor,
           Added, OnlyListChanged, LevelDBList.Contents;
      ghost var m1, items := db.m, urls.Contents();
      var server := ServerAt(first, choose, k);
      CloseChunk(file, server);
      ghost var m2 :| m2 == AppendedMeta(m1, file.name, file.path, file.count - 1, PlaceFor(server))
                      && OnlyListChanged(m2, db.m, URL_LIST);
      ghost var places := PlacesOf(first, choose, k);
      GrownNext(m0, m1, m2, db.m, file.name, file.path, places, PlaceFor(server));
      GrownCount(m0, m1, file.name, file.path, places);
      GrownCount(m0, db.m, file.name, file.path, places + [PlaceFor(server)]);
      RecordedNext(m0, m1, db.m, items0, items, file.name, file.path, first, choose, k);
      if InOrder(m0) {
        RecordedInOrder(m0, db.m, items0, urls.Contents(), file.name, file.path, first, choose, k + 1);
      }
    }

    /** The second half of deal_with_104: all copies of the file just uploaded, whose chunks all have metadata. */
    method MakeCopies(file: File, choose: nat -> ServerInfo, k: nat, synced: (nat, nat, nat) -> bool)
      requires Valid() && file.Valid() && Endless(choose)
      requires file.count == ChunkCount(db.m, file.name, file.path) && Whole(db.m, file.name, file.path)
      modifies db, urls
      ensures Valid() && (InOrder(old(db.m)) ==> InOrder(db.m))
      ensures forall i: nat :: 0 < i < copies ==>
                CopyDone(old(db.m), db.m, file.name, file.path, file.count, choose, synced, i)
      ensures forall a: Name, b: Name :: NoCopy(a, b, file.name, file.path, copies) ==> SameFile(old(db.m), db.m, a, b)
      ensures urls.Contents() == ListedCopies(old(urls.Contents()), file.name, file.path, synced, file.count, copies)
    {
      hide Encode, Grown, FilesOk, FileUrls, InOrder, ListOk, CopyDone, CopyPlaces, SameFile, Endless, Whole, CopyUrl,
           Added, CopyName, ChunkCount, PlaceOf, Sources, LevelDBList.Valid, LevelDBList.Contents;
      var n: Name, p: Name := file.name, file.path;
      var i, k' := 1, k;
      ghost var m0, items0 := db.m, urls.Contents();
      AllSame(m0);
      while i < copies
        invariant Valid() && 1 <= i && (i == 1 || i <= copies) && SameFile(m0, db.m, n, p)
        invariant forall i': nat :: 0 < i' < i && i' < copies ==>
                    CopyDone(m0, db.m, n, p, file.count, choose, synced, i')
        invariant forall a: Name, b: Name :: NoCopy(a, b, n, p, i) ==> SameFile(m0, db.m, a, b)
        invariant urls.Contents() == ListedCopies(items0, n, p, synced, file.count, i)
        decreases copies - i
      {
        ghost var m1 := db.m;
        PlacesKept(m0, m1, n, p);
        assert NoCopy(CopyName(n, i), p, n, p, i) by { OtherCopies(n, i); }
        ghost var places;
        k', places := MakeCopy(file, i, choose, k', synced);
        CopyKeeps(m0, m1, db.m, n, p, file.count, choose, synced, i, places);
        i := i + 1;
      }
      assert forall a: Name, b: Name :: NoCopy(a, b, n, p, copies) ==> NoCopy(a, b, n, p, i);
      assert ListedCopies(items0, n, p, synced, file.count, i) ==
             ListedCopies(items0, n, p, synced, file.count, copies);
      if InOrder(m0) {
        CopiesInOrder(m0, db.m, n, p, file.count, choose, synced, copies);
      }
    }

    /** deal_with_104: an upload that ends with the end mark is followed by the making of its copies. `choose` and
        `chooseCopy` are the random choices of the two parts. */
    method StoreFile(name: Name, path: Name, first: ServerInfo, data0: string, rest: seq<Message>,
                     choose: nat -> ServerInfo, lost: nat -> nat, chooseCopy: nat -> ServerInfo,
                     synced: (nat, nat, nat) -> bool, leased: bool)
      returns (end: UploadEnd, sent: seq<Send>, ghost segs: seq<seq<string>>, ghost open: seq<string>)
      requires Valid() && (!leased ==> Endless(chooseCopy) && Whole(db.m, name, path))
      modifies db, urls
      ensures Valid() && (InOrder(old(db.m)) ==> InOrder(db.m))
      // a file under a lease is left alone
      ensures (end == Leased <==> leased) && (leased ==> db.m == old(db.m) && segs == [] && open == [])
      ensures UploadResult(end, segs, open, data0, rest, maxChunkSize)
      ensures sent == SentSoFar(segs, open, first, choose, lost)
      // the file has a chunk for each segment, on the server that received it
      ensures ChunkCount(db.m, name, path) == ChunkCount(old(db.m), name, path) + |segs|
      ensures forall i :: 0 <= i < |sent| ==>
                && sent[i].index <= |segs|
                && sent[i].server == ServerUrl(if sent[i].index == 0 then first else choose(sent[i].index - 1))
      ensures var c := ChunkCount(old(db.m), name, path);
              forall t: nat :: c <= t < c + |segs| ==>
                PlaceOf(db.m, name, path, t) == Some(PlaceFor(if t == c then first else choose(t - c - 1)))
      // each copy has a chunk for each chunk that was copied, on another server
      ensures end == Finished ==> forall i: nat :: 0 < i < copies ==>
                CopyPlaced(old(db.m), db.m, name, path, chooseCopy, synced, i)
      ensures end == Finished && SmallPorts(chooseCopy) ==> forall i: nat :: 0 < i < copies ==>
                CopyApart(old(db.m), db.m, name, path, synced, i)
      // no other file is touched, and the list gains the file and its copies as far as anything was recorded of them
      ensures forall a: Name, b: Name ::
                (a, b) != (name, path) && (end == Finished ==> NoCopy(a, b, name, path, copies)) ==>
                SameFile(old(db.m), db.m, a, b)
      ensures var before, url := old(urls.Contents()), CountKey(name, path);
              var listed := if segs == [] then before else Added(before, url);
              urls.Contents() ==
              if end != Finished then listed
              else ListedCopies(listed, name, path, synced, ChunkCount(db.m, name, path), copies)
    {
      hide Encode, FilesOk, FileUrls, InOrder, ListOk, UploadResult, SentSoFar, Endless, CopyDone, CopyPlaced,
           CopyApart, SameFile, ChunkCount, PlaceOf, PlaceFor, Whole, CountKey, ListedCopies, SmallPorts,
           RecordedChunks, Added, OnlyPlacesChanged, CopyName, NoCopy, LevelDBList.Valid, LevelDBList.Contents,
           File.Valid, MasterServer.Valid;
      ghost var m0, items0 := db.m, urls.Contents();
      if leased {
        end, sent, segs, open := Leased, [], [], [];
        NothingUploaded(m0, name, path, data0, rest, maxChunkSize, first, choose, lost);
        return;
      }
      var file;
      end, sent, file, segs, open := Upload(name, path, first, data0, rest, choose, lost);
      ghost var m1 := db.m;
      RecordedFile(m0, m1, items0, urls.Contents(), name, path, first, choose, |segs|);
      if end != Finished {
        return;
      }
      MakeCopies(file, chooseCopy, 0, synced);
      UploadCopied(m0, m1, db.m, name, path, chooseCopy, synced, copies);
    }

    /** One copy of a file: every chunk is given a server other than the original's and copied there, and the copy is
        recorded chunk by chunk as far as that succeeds. */
    method MakeCopy(file: File, i: nat, choose: nat -> ServerInfo, k: nat, synced: (nat, nat, nat) -> bool)
      returns (k': nat, ghost places: seq<Place>)
      requires Valid() && file.Valid() && i > 0 && Endless(choose)
      requires file.count == ChunkCount(db.m, file.name, file.path) && Whole(db.m, file.name, file.path)
      modifies db, urls
      ensures Valid()
      ensures Grown(old(db.m), db.m, CopyName(file.name, i), file.path, places)
      ensures CopyPlaces(old(db.m), file.name, file.path, choose, synced, i, file.count, places)
      ensures urls.Contents() == if Sources(synced, i, file.count) == [] then old(urls.Contents())
                                 else Added(old(urls.Contents()), CopyUrl(file.name, file.path, i))
    {
      hide Encode, Grown, FilesOk, FileUrls, AppendedMeta, ListOk, SyncSucceeds, ServerUrl, PlaceUrl, Endless, PlaceFor,
           OnlyListChanged, ChunkCount, Whole, CopyPlaces;
      var n: Name, p: Name := file.name, file.path;
      ghost var m0, items0 := db.m, urls.Contents();
      var copy := new File.FromName(CopyName(n, i), p);
      GrownSame(m0, CopyName(n, i), p);
      NoPlaces(m0, n, p, choose, synced, i);
      k', places := k, [];
      var j := 0;
      while j < file.count
        invariant Valid() && copy.Valid() && fresh(copy) && copy.name == CopyName(n, i) && copy.path == p
        invariant j <= file.count && CopyPlaces(m0, n, p, choose, synced, i, j, places)
        invariant Grown(m0, db.m, CopyName(n, i), p, places)
        invariant urls.Contents() == if places == [] then items0 else Added(items0, CopyUrl(n, p, i))
      {
        var avoid := OriginalServer(file, j, m0, CopyName(n, i), places);
        var server;
        server, k' := ChooseOther(choose, k', avoid);
        var ok := TrySync(synced, i, j);
        CopyPlacesNext(m0, n, p, choose, synced, i, j, places, k' - 1);
        if ok {
          ghost var m1 := db.m;
          CloseChunk(copy, server);
          ghost var m2 :| m2 == AppendedMeta(m1, copy.name, copy.path, copy.count - 1, PlaceFor(server))
                          && OnlyListChanged(m2, db.m, URL_LIST);
          GrownNext(m0, m1, m2, db.m, CopyName(n, i), p, places, PlaceFor(server));
          places := places + [PlaceFor(server)];
        }
        j := j + 1;
      }
      PlacesSources(m0, n, p, choose, synced, i, j, places);
    }

    /** The joined address of the server that holds chunk j, read while a copy is being recorded. */
    method OriginalServer(file: File, j: nat, ghost m0: Store, ghost copy: Name, ghost places: seq<Place>)
      returns (url: string)
      requires Valid() && file.Valid() && Grown(m0, db.m, copy, file.path, places) && copy != file.name
      requires Whole(m0, file.name, file.path) && j < ChunkCount(m0, file.name, file.path)
      ensures PlaceOf(m0, file.name, file.path, j).Some? && url == PlaceUrl(PlaceOf(m0, file.name, file.path, j).value)
    {
      hide Encode, ListOk, FilesOk, FileUrls, Grown, PlaceOf, ChunkCount, ChunkOk, Whole;
      ghost var n: Name, p: Name := file.name, file.path;
      OriginalKept(m0, db.m, n, p, copy, places, j);
      ghost var a := PlaceOf(m0, n, p, j).value;
      var from := new Chunk.FromUrl(file.url, j);
      BuiltKeys(n, p, j);
      CountKeyUrl(n, p);
      ChunkOkMovable(db.m, n, p, j);
      StoiToString(j);
      PlaceNumber(a);
      var _ := from.Open(db);
      var _, _ := from.ReadMetaData([]);
      from.Close();
      url := JoinServer(from.addr, from.port);
    }

    /** Whether a URL is in the list. */
    method IsListed(url: string) returns (listed: bool)
      requires Valid()
      ensures listed <==> url in urls.Contents()
    {
      hide Encode, FilesOk, FileUrls;
      var i := 0;
      while i < urls.length
        invariant i <= urls.length && url !in urls.Contents()[..i]
      {
        var item := urls.At(i);
        if item == url {
          return true;
        }
        i := i + 1;
      }
      assert urls.Contents()[..urls.length] == urls.Contents();
      return false;
    }

    /** Opens a file and closes it again, which leaves its chunk count in the object. */
    method CountedFile(n: Name, p: Name) returns (file: File)
      requires Valid()
      ensures fresh(file) && file.Valid() && file.name == n && file.path == p && file.db == db
      ensures file.count == ChunkCount(db.m, n, p)
    {
      hide Encode, FilesOk, FileUrls;
      file := new File.FromName(n, p);
      CountsReadable(db.m, n, p);
      var _ := file.Open(db);
      file.Close();
    }

    /** The stored metadata of chunk i of a file, and the server it names if there is any. */
    method PlaceText(file: File, i: nat) returns (res: seq<string>, server: string)
      requires Valid() && file.Valid()
      ensures res == MetaRead(db.m, file.name, file.path, i) &&
              (res == [] <==> PlaceOf(db.m, file.name, file.path, i).None?)
      ensures server == ServerOf(db.m, file.name, file.path, i)
    {
      hide Encode, FilesOk, FileUrls, ListOk, ChunkCount, JoinServer, PlaceOf, MetaRead, Stoi;
      ChunksReadable(db.m, file.name, file.path);
      StoredFields(db.m, file.name, file.path, i);
      CountKeyUrl(file.name, file.path);
      BuiltKeys(file.name, file.path, i);
      var chunk := new Chunk.FromUrl(file.url, i);
      var _ := chunk.Open(db);
      var _, r := chunk.ReadMetaData([]);
      chunk.Close();
      res, server := r, if r == [] then "" else JoinServer(r[0], Stoi(r[1]).value);
    }

    /** The 122 requests for the chunks of one copy, each sent to the server its metadata names. Chunk k is the first
        that cannot be moved. */
    method AskMoves(file: File, newPath: Name, j: nat, replies: (nat, nat) -> Reply)
      returns (ok: bool, asked: seq<Request>, ghost k: nat)
      requires Valid() && file.Valid()
      ensures ok <==> forall i: nat :: i < file.count ==> Accepted(db.m, file.name, file.path, i, replies(j, i))
      ensures ok ==> asked == Asked(db.m, file.name, file.path, 122, [newPath], file.count)
      ensures k <= file.count && (ok <==> k == file.count)
      ensures forall i: nat :: i < k ==> Accepted(db.m, file.name, file.path, i, replies(j, i))
      ensures !ok ==> !Accepted(db.m, file.name, file.path, k, replies(j, k))
      ensures var c := if ok then k else AskedUpTo(db.m, file.name, file.path, k, replies(j, k));
              asked == Asked(db.m, file.name, file.path, 122, [newPath], c)
    {
      hide Encode, FilesOk, FileUrls, ListOk, MoveAccepted, ChunkCount, MetaRead, PlaceOf, JoinServer, ServerOf,
           AskedUpTo, Asked;
      asked := [];
      var i := 0;
      while i < file.count
        invariant i <= file.count && asked == Asked(db.m, file.name, file.path, 122, [newPath], i)
        invariant forall t: nat :: t < i ==> Accepted(db.m, file.name, file.path, t, replies(j, t))
      {
        var res, server := PlaceText(file, i);
        if res == [] {
          assert !Accepted(db.m, file.name, file.path, i, replies(j, i));
          AskedUpToIs(db.m, file.name, file.path, i, replies(j, i));
          return false, asked, i;
        }
        AskedNext(db.m, file.name, file.path, 122, [newPath], i);
        assert [newPath] + [Dec(i)] == [newPath, Dec(i)];
        AcceptedAnswer(replies(j, i));
        if replies(j, i).Answer? {
          asked := asked + [Request(server, 122, file.name, file.path, [newPath, Dec(i)])];
        }
        if !MoveAccepted(replies(j, i)) {
          AskedUpToIs(db.m, file.name, file.path, i, replies(j, i));
          return false, asked, i;
        }
        i := i + 1;
      }
      return true, asked, i;
    }

    /** deal_with_117: the file and all its copies get a new path. A run without a reply for a file that is listed and
        not leased has stopped at chunk k of copy j: that copy has been taken out of the list, and the files are as in
        m1. */
    method MovePath(name: Name, path: Name, newPath: Name, leased: bool, replies: (nat, nat) -> Reply)
      returns (reply: Option<string>, asked: seq<Request>, ghost j: nat, ghost k: nat, ghost m1: Store)
      requires Valid()
      modifies db, urls
      ensures Valid() && (reply == None || reply == Some("ok"))
      ensures reply.Some? <==>
                && !leased && CountKey(name, path) in old(urls.Contents())
                && forall a: nat, i: nat :: a < copies && i < ChunkCount(old(db.m), CopyOf(name, a), path) ==>
                     && PlaceOf(old(db.m), CopyOf(name, a), path, i).Some?
                     && replies(a, i).Answer? && (replies(a, i).bit != 124 || replies(a, i).data == "true")
      ensures reply.Some? ==> CopiesMoved(old(db.m), db.m, name, path, newPath, copies)
      ensures reply.Some? ==> InOrder(old(db.m)) ==> InOrder(db.m)
      ensures reply.Some? ==> urls.Contents() == MovedUrls(old(urls.Contents()), name, path, newPath, copies)
      // each of those chunks is asked for once, and no other
      ensures reply.Some? ==> AskedToMove(asked, old(db.m), name, path, newPath, copies, 0)
      ensures !leased && CountKey(name, path) in old(urls.Contents()) && reply.None? ==>
                var c := if PlaceOf(old(db.m), CopyOf(name, j), path, k).Some? &&
                  replies(j, k).Answer? then k + 1 else k;
                AskedToMove(asked, old(db.m), name, path, newPath, j, c)
      ensures leased || CountKey(name, path) !in old(urls.Contents()) ==>
                db.m == old(db.m) && urls.Contents() == old(urls.Contents()) && asked == []
      ensures !leased && CountKey(name, path) in old(urls.Contents()) && reply.None? ==>
                && MoveStoppedAt(old(db.m), m1, name, path, newPath, copies, replies, j, k) && SameFiles(m1, db.m)
                && urls.Contents() ==
                   Without(MovedUrls(old(urls.Contents()), name, path, newPath, j), CopyUrl(name, path, j))
                && (CountKey(name, path) in urls.Contents() <==> j > 0 && path == newPath)
                && (CountKey(name, newPath) in urls.Contents() <==>
                    j > 0 || (path != newPath && CountKey(name, newPath) in old(urls.Contents())))
    {
      hide Encode, FilesOk, FileUrls, InOrder, ListOk, CopiesMoved, MovedTo, Accepted, AllAccepted, Asked, ChunkCount,
           CopyOf, CopyUrl, SameFiles, LevelDBList.Valid, LevelDBList.Contents, ServerOf, PlaceOf, Without, CountKey,
           AskedToMove, AskedUpTo, MoveAccepted, MoveStoppedAt, Added, MovedUrls, CopiesAsked, Items;
      reply, asked, j, k, m1 := None, [], 0, 0, db.m;
      if leased {
        return;
      }
      BuiltKeys(name, path, 0);
      var listed := IsListed(CountKey(name, path));
      if !listed {
        return;
      }
      ghost var m0, items0 := db.m, urls.Contents();
      DistinctUrls();
      CopiesMovedStart(m0, name, path, newPath);
      NoneAccepted(m0, name, path, replies);
      NothingMoved(m0, items0, name, path, newPath);
      var i := 0;
      while i < copies
        invariant Valid() && i <= copies && CopiesMoved(m0, db.m, name, path, newPath, i)
        invariant urls.Contents() == MovedUrls(items0, name, path, newPath, i)
        invariant AllAccepted(m0, name, path, i, replies) && asked == CopiesAsked(m0, name, path, 122, [newPath], i)
      {
        j, m1 := i, db.m;
        NextMoved(m0, items0, name, path, newPath, i);
        var ok, more;
        ok, more, k := MoveCopy(name, path, newPath, i, replies, m0);
        asked := asked + more;
        if !ok {
          NotAllAccepted(m0, name, path, copies, replies, i, k);
          AllAcceptedIs(m0, name, path, copies, replies);
          RefusedListedIff(items0, name, path, newPath, i);
          assert MoveStoppedAt(m0, m1, name, path, newPath, copies, replies, j, k) by {
            MoveStops(m0, m1, name, path, newPath, copies, replies, j, k);
          }
          AskedUpToIs(m0, CopyOf(name, i), path, k, replies(i, k));
          MovesAskedOnce(m0, name, path, newPath, i, AskedUpTo(m0, CopyOf(name, i), path, k, replies(i, k)), asked);
          return;
        }
        AllAcceptedNext(m0, name, path, i, replies);
        i := i + 1;
      }
      if InOrder(m0) {
        CopiesMovedInOrder(m0, db.m, name, path, newPath, copies);
      }
      AllAcceptedIs(m0, name, path, copies, replies);
      MovesAskedOnce(m0, name, path, newPath, copies, 0, asked);
      reply := Some("ok");
    }

    /** One round of that loop: the URL leaves the list, every chunk server is told, and the file moves. */
    method MoveCopy(name: Name, path: Name, newPath: Name, j: nat, replies: (nat, nat) -> Reply, ghost m0: Store)
      returns (ok: bool, asked: seq<Request>, ghost k: nat)
      requires Valid() && CopiesMoved(m0, db.m, name, path, newPath, j)
      modifies db, urls
      ensures Valid()
      ensures k <= ChunkCount(m0, CopyOf(name, j), path) && (ok <==> k == ChunkCount(m0, CopyOf(name, j), path))
      ensures forall i: nat :: i < k ==> Accepted(m0, CopyOf(name, j), path, i, replies(j, i))
      ensures !ok ==> !Accepted(m0, CopyOf(name, j), path, k, replies(j, k)) && SameFiles(old(db.m), db.m)
      ensures !ok ==> urls.Contents() == Without(old(urls.Contents()), CopyUrl(name, path, j))
      ensures ok ==> CopiesMoved(m0, db.m, name, path, newPath, j + 1)
      ensures ok ==> urls.Contents() ==
                     Added(Without(old(urls.Contents()), CopyUrl(name, path, j)), CopyUrl(name, newPath, j))
      ensures var c := if ok then k else AskedUpTo(m0, CopyOf(name, j), path, k, replies(j, k));
              asked == Asked(m0, CopyOf(name, j), path, 122, [newPath], c)
    {
      hide Encode, FilesOk, FileUrls, ListOk, CopiesMoved, MovedTo, Accepted, AskedUpTo, MovedFile, CopyOf, SameFiles,
           Asked, ChunkCount, SameFile, OnlyListChanged, Without;
      var n := CopyOf(name, j);
      ghost var m1 := db.m;
      var file := CountedFile(n, path);
      UntouchedCount(m0, m1, name, path, newPath, j);
      DistinctUrls();
      FileUrlTaken(urls.Contents(), file.url);
      var _ := urls.RemoveValue(file.url);
      ghost var m2 := db.m;
      ListKeepsFiles(m1, m2, URL_LIST);
      SameFilesOk(m1, m2);
      assert SameFile(m1, m2, n, path) by { OneSame(m1, m2, n, path); }
      PlacesKept(m1, m2, n, path);
      ok, asked, k := AskMoves(file, newPath, j, replies);
      SameAccepted(m0, m2, n, path);
      SameAsked(m0, m2, n, path, 122, [newPath], if ok then k else AskedUpTo(m0, n, path, k, replies(j, k)));
      if !ok {
        return;
      }
      assert Whole(m2, n, path) by { AcceptedWhole(m2, n, path, j, replies); }
      CountsReadable(db.m, n, path);
      var _ := file.Open(db);
      ChunksOk(m2, n, path);
      var _ := file.Move(newPath);
      ghost var m3 := db.m;
      MovedStep(m1, m2, m3, n, path, newPath, urls.length);
      file.Close();
      FileUrlAdded(urls.Contents(), n, newPath);
      var _ := urls.PushBack(file.url);
      PushedStep(m1, m3, db.m, n, path, newPath);
      CopiesMovedNext(m0, m1, db.m, name, path, newPath, j);
    }

    lemma DistinctUrls()
      requires Valid()
      ensures Distinct(urls.Contents())
    {
      ListDistinct(db.m, urls.length);
    }

    /** deal_with_135: the file and all its copies are deleted, chunk by chunk and copy by copy. A run without a reply
        has stopped at chunk k of copy j, its store being m1 less the metadata of k chunks. */
    method DeleteFile(name: Name, path: Name, leased: bool, replies: (nat, nat) -> Reply)
      returns (reply: Option<string>, asked: seq<Request>, ghost j: nat, ghost k: nat, ghost m1: Store)
      requires Valid() && (!leased ==> CopiesWhole(db.m, name, path, copies))
      modifies db, urls
      ensures Valid() && (reply == None || reply == Some("true"))
      ensures reply.Some? <==>
                && !leased
                && forall a: nat, i: nat :: a < copies && i < ChunkCount(old(db.m), CopyOf(name, a), path) ==>
                     replies(a, i) == Answer(129, "true")
      ensures reply.Some? ==> CopiesCleared(old(db.m), db.m, name, path, copies)
      ensures reply.Some? ==> InOrder(old(db.m)) ==> InOrder(db.m)
      ensures reply.Some? ==> urls.Contents() == RemovedUrls(old(urls.Contents()), name, path, copies)
      // each of those chunks is asked for once, and no other
      ensures reply.Some? ==> AskedToDelete(asked, old(db.m), name, path, copies, 0)
      ensures !leased && reply.None? ==>
                var c := if replies(j, k).Answer? then k + 1 else k;
                AskedToDelete(asked, old(db.m), name, path, j, c)
      ensures leased ==> db.m == old(db.m) && urls.Contents() == old(urls.Contents()) && asked == []
      ensures !leased && reply.None? ==>
                && StoppedAt(old(db.m), m1, name, path, copies, replies, j, k)
                && db.m == DeletedMetas(m1, CopyOf(name, j), path, k)
                && urls.Contents() == RemovedUrls(old(urls.Contents()), name, path, j)
                && k < ChunkCount(old(db.m), CopyOf(name, j), path) && replies(j, k) != Answer(129, "true")
    {
      hide Encode, FilesOk, FileUrls, InOrder, Whole, ListOk, CopiesCleared, Cleared, DeletedMetas,
           LevelDBList.Contents, LevelDBList.Valid, ChunkCount;
      hide AllDeleted, SameFile, CopyUrl, DeleteAccepted, CopyOf, Asked, AskedToDelete, ServerOf;
      NoneDeleted(db.m, name, path, replies);
      asked := [];
      reply, j, k, m1 := None, 0, 0, db.m;
      if leased {
        return;
      }
      ghost var m0, items0 := db.m, urls.Contents();
      CopiesClearedStart(m0, name, path);
      AllAcceptedIs(m0, name, path, copies, replies);
      var i := 0;
      while i < copies
        invariant Valid() && i <= copies && CopiesCleared(m0, db.m, name, path, i)
        invariant urls.Contents() == RemovedUrls(items0, name, path, i)
        invariant AllDeleted(m0, name, path, i, replies) && asked == CopiesAsked(m0, name, path, 113, [], i)
      {
        j, m1 := i, db.m;
        UnclearedCount(m0, m1, name, path, i);
        var ok, more;
        ok, more, k := DeleteCopy(name, path, i, replies);
        ghost var c := if ok || replies(i, k) == Refused then k else k + 1;
        SameAsked(m0, m1, CopyOf(name, i), path, 113, [], c);
        asked := asked + more;
        if !ok {
          NotAllDeleted(m0, name, path, copies, replies, i, k);
          AcceptedDelete(replies(i, k));
          DeletesAskedOnce(m0, name, path, i, c, asked);
          return;
        }
        CopiesClearedNext(m0, m1, db.m, name, path, i);
        AllDeletedNext(m0, name, path, i, replies);
        i := i + 1;
      }
      if InOrder(m0) {
        CopiesClearedInOrder(m0, db.m, name, path, copies);
      }
      DeletesAskedOnce(m0, name, path, copies, 0, asked);
      reply := Some("true");
    }

    /** One round of that loop. */
    method DeleteCopy(name: Name, path: Name, j: nat, replies: (nat, nat) -> Reply)
      returns (ok: bool, asked: seq<Request>, ghost k: nat)
      requires Valid() && Whole(db.m, CopyOf(name, j), path)
      modifies db, urls
      ensures Valid()
      ensures k <= ChunkCount(old(db.m), CopyOf(name, j), path)
      ensures forall i: nat :: i < k ==> DeleteAccepted(replies(j, i))
      ensures ok <==> k == ChunkCount(old(db.m), CopyOf(name, j), path)
      ensures !ok ==> !DeleteAccepted(replies(j, k)) && db.m == DeletedMetas(old(db.m), CopyOf(name, j), path, k)
      ensures !ok ==> urls.Contents() == old(urls.Contents())
      ensures ok ==> Cleared(old(db.m), db.m, CopyOf(name, j), path)
      ensures ok ==> urls.Contents() == Without(old(urls.Contents()), CopyUrl(name, path, j))
      ensures ok ==> forall a: Name, b: Name :: (a, b) != (CopyOf(name, j), path) ==> SameFile(old(db.m), db.m, a, b)
      ensures asked == Asked(old(db.m), CopyOf(name, j), path, 113, [],
                             if ok || replies(j, k) == Refused then k else k + 1)
    {
      hide Encode, FilesOk, FileUrls, ListOk, Cleared, DeletedMetas, SameFile, DeleteAccepted, OnlyListChanged,
           ChunkCount, CopyOf;
      var n := CopyOf(name, j);
      ghost var m0 := db.m;
      var file := CountedFile(n, path);
      ok, asked, k := DeleteChunks(file, j, replies);
      if !ok {
        return;
      }
      ghost var m1 := db.m;
      DistinctUrls();
      FileUrlTaken(urls.Contents(), file.url);
      var _ := urls.RemoveValue(file.url);
      ghost var m2, len := db.m, urls.length;
      var _ := db.Put(file.url, ToString(0));
      ClearedStep(m0, m1, m2, n, path, len);
    }

    /** The 113 requests for the chunks of one copy; the metadata of each is deleted when its server has deleted the
        data. */
    method DeleteChunks(file: File, j: nat, replies: (nat, nat) -> Reply)
      returns (ok: bool, asked: seq<Request>, ghost k: nat)
      requires Valid() && file.Valid() && file.count == ChunkCount(db.m, file.name, file.path)
      requires Whole(db.m, file.name, file.path)
      modifies db, file
      ensures file.name == old(file.name) && file.path == old(file.path) && file.url == old(file.url)
      ensures Valid() && urls.Contents() == old(urls.Contents())
      ensures k <= old(file.count) && (ok <==> k == old(file.count))
      ensures (forall i: nat :: i < k ==> DeleteAccepted(replies(j, i))) && (!ok ==> !DeleteAccepted(replies(j, k)))
      ensures db.m == DeletedMetas(old(db.m), old(file.name), old(file.path), k)
      ensures asked == Asked(old(db.m), old(file.name), old(file.path), 113, [],
                             if ok || replies(j, k) == Refused then k else k + 1)
    {
      hide Encode, FilesOk, FileUrls, ListOk, DeletedMetas, MetaKeys, DeleteAccepted, ChunkCount, ServerOf, CountKey,
           CountReadable;
      asked := [];
      ghost var m0, n: Name, p: Name := db.m, file.name, file.path;
      var i := 0;
      assert db.m == DeletedMetas(m0, n, p, 0) by { NothingDeleted(m0, n, p); }
      while i < file.count
        invariant i <= file.count == old(file.count) && file.Valid() && file.name == n && file.path == p &&
                  file.url == old(file.url)
        invariant db.m == DeletedMetas(m0, n, p, i)
        invariant forall t: nat :: t < i ==> DeleteAccepted(replies(j, t))
        invariant asked == Asked(m0, n, p, 113, [], i)
      {
        var server := ServerToDelete(file, i, m0);
        AskedNext(m0, n, p, 113, [], i);
        assert [] + [Dec(i)] == [Dec(i)];
        if replies(j, i) != Refused {
          asked := asked + [Request(server, 113, file.name, file.path, [Dec(i)])];
        }
        AcceptedDelete(replies(j, i));
        if !DeleteAccepted(replies(j, i)) {
          k, ok := i, false;
          DeletedKeepsList(m0, n, p, i, urls.length);
          DeletedFilesOk(m0, n, p, i);
          return;
        }
        DropMeta(file, i, m0);
        i := i + 1;
      }
      k, ok := i, true;
      DeletedKeepsList(m0, n, p, i, urls.length);
      DeletedFilesOk(m0, n, p, i);
    }

    /** The server that chunk i of a file is on, its metadata being the next to be deleted. */
    method ServerToDelete(file: File, i: nat, ghost m0: Store) returns (server: string)
      requires file.Valid() && FilesOk(m0) && Whole(m0, file.name, file.path) &&
               i < ChunkCount(m0, file.name, file.path)
      requires db.m == DeletedMetas(m0, file.name, file.path, i)
      modifies file
      ensures file.Valid() && file.name == old(file.name) && file.path == old(file.path) && file.url == old(file.url)
      ensures file.count == ChunkCount(m0, file.name, file.path) && server == ServerOf(m0, file.name, file.path, i)
    {
      hide Encode, FilesOk, FileUrls, ListOk, DeletedMetas, MetaKeys, ChunkCount, ServerOf, JoinServer, MetaRead, Stoi;
      NextDeletable(m0, file.name, file.path, i);
      var _ := file.Open(db);
      var _, res := file.ReadChunkMetaData(i, []);
      file.Close();
      server := JoinServer(res[0], Stoi(res[1]).value);
    }

    /** Deletes the metadata of chunk i. */
    method DropMeta(file: File, i: nat, ghost m0: Store)
      requires file.Valid() && FilesOk(m0) && Whole(m0, file.name, file.path) &&
               i < ChunkCount(m0, file.name, file.path)
      requires db.m == DeletedMetas(m0, file.name, file.path, i)
      modifies db, file
      ensures file.Valid() && file.name == old(file.name) && file.path == old(file.path) && file.url == old(file.url)
      ensures file.count == ChunkCount(m0, file.name, file.path) &&
              db.m == DeletedMetas(m0, file.name, file.path, i + 1)
    {
      hide Encode, FilesOk, FileUrls, ListOk, DeletedMetas, MetaKeys, ChunkCount;
      NextDeletable(m0, file.name, file.path, i);
      var _ := file.Open(db);
      var _ := file.DelChunkMetaData(i);
      file.Close();
      OneMoreDeleted(m0, file.name, file.path, i);
    }

    /** Random choices until one differs from the server that holds the original. */
    method ChooseOther(choose: nat -> ServerInfo, k: nat, avoid: string) returns (server: ServerInfo, k': nat)
      requires Endless(choose)
      ensures k' > k && server == choose(k' - 1) && ServerUrl(server) != avoid
      ensures forall c: nat :: k <= c < k' - 1 ==> ServerUrl(choose(c)) == avoid
    {
      hide ServerUrl;
      assert OtherFrom(choose, k, avoid);
      ghost var j: nat :| j >= k && ServerUrl(choose(j)) != avoid;
      server, k' := choose(k), k + 1;
      while ServerUrl(server) == avoid
        invariant k < k' <= j + 1 && server == choose(k' - 1)
        invariant forall c: nat :: k <= c < k' - 1 ==> ServerUrl(choose(c)) == avoid
        decreases j - k'
      {
        server, k' := choose(k'), k' + 1;
      }
    }

    /** The retry loop around sync_chunk. */
    method TrySync(synced: (nat, nat, nat) -> bool, i: nat, j: nat) returns (ok: bool)
      ensures ok == SyncSucceeds(synced, i, j)
      ensures ok <==> exists k: nat :: k < 7 && synced(i, j, k)
    {
      var k: nat := 0;
      while true
        invariant k <= MAX_RETRY + 1 && forall a: nat :: a < k ==> !synced(i, j, a)
        decreases MAX_RETRY + 2 - k
      {
        if synced(i, j, k) {
          return true;
        }
        if k > MAX_RETRY {
          return false;
        }
        k := k + 1;
      }
    }
  }
}
