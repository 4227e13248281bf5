/** The copies of an uploaded file (src/core/master_server, the second part of deal_with_104). */
module Copies {
  import opened Text
  import opened Keys
  import opened Database
  import opened MetaData
  import opened FileStore
  import opened MasterStore
  import opened Namespace
  import opened Servers

  const MAX_RETRY: nat := 5

  /** A chunk is copied if one of the attempts 0..6 succeeds; a failed attempt is repeated while its number is at most
      5. */
  predicate SyncSucceeds(synced: (nat, nat, nat) -> bool, i: nat, j: nat) {
    exists k: nat :: k <= MAX_RETRY + 1 && synced(i, j, k)
  }

  /** The chunks among the first n that are copied to copy i, in ascending order. */
  function Sources(synced: (nat, nat, nat) -> bool, i: nat, n: nat): (r: seq<nat>)
    ensures |r| <= n && forall t :: 0 <= t < |r| ==> r[t] < n && SyncSucceeds(synced, i, r[t])
  {
    if n == 0 then []
    else Sources(synced, i, n - 1) + if SyncSucceeds(synced, i, n - 1) then [n - 1] else []
  }

  /** The place was made from a server that was chosen because its joined address differs from that of the original's
      place. */
  ghost predicate Elsewhere(a: Place, original: Option<Place>, choose: nat -> ServerInfo) {
    original.Some? && exists c: nat :: a == PlaceFor(choose(c)) && ServerUrl(choose(c)) != PlaceUrl(original.value)
  }

  ghost predicate SmallPorts(choose: nat -> ServerInfo) {
    forall c: nat :: -TWO_TO_15 <= choose(c).port < TWO_TO_15
  }

  /** For servers whose ports fit 16 bits a different joined address is a different place. */
  lemma ElsewhereDiffers(a: Place, original: Option<Place>, choose: nat -> ServerInfo)
    requires Elsewhere(a, original, choose) && SmallPorts(choose)
    ensures Some(a) != original
  {
    hide JoinServer, ToInt16;
    var c: nat :| a == PlaceFor(choose(c)) && ServerUrl(choose(c)) != PlaceUrl(original.value);
    PlaceNamesServerIff(choose(c));
  }

  /** From every choice on, a server with another joined address will be chosen at some time. */
  ghost predicate OtherFrom(choose: nat -> ServerInfo, k: nat, avoid: string) {
    exists j: nat :: j >= k && ServerUrl(choose(j)) != avoid
  }

  ghost predicate Endless(choose: nat -> ServerInfo) {
    forall k: nat, avoid: string :: OtherFrom(choose, k, avoid)
  }

  /** The places given to the chunks of copy i of a file whose first j chunks have been tried: one for each chunk that
      was copied, on another server than that chunk's. */
  ghost predicate CopyPlaces(m: Store, n: Name, p: Name, choose: nat -> ServerInfo, synced: (nat, nat, nat) -> bool,
                             i: nat, j: nat, places: seq<Place>) {
    var src := Sources(synced, i, j);
    && |places| == |src|
    && forall t: nat :: t < |src| ==> Elsewhere(places[t], PlaceOf(m, n, p, src[t]), choose)
  }

  lemma CopyPlacesNext(m: Store, n: Name, p: Name, choose: nat -> ServerInfo, synced: (nat, nat, nat) -> bool, i: nat,
                       j: nat, places: seq<Place>, c: nat)
    requires CopyPlaces(m, n, p, choose, synced, i, j, places)
    requires PlaceOf(m, n, p, j).Some? && ServerUrl(choose(c)) != PlaceUrl(PlaceOf(m, n, p, j).value)
    ensures var places' := if SyncSucceeds(synced, i, j) then places + [PlaceFor(choose(c))] else places;
            CopyPlaces(m, n, p, choose, synced, i, j + 1, places')
  {
    hide PlaceOf, SyncSucceeds, ServerUrl, PlaceUrl, PlaceFor, Elsewhere;
    ChosenElsewhere(c, PlaceOf(m, n, p, j), choose);
    assert Sources(synced, i, j + 1) == Sources(synced, i, j) + if SyncSucceeds(synced, i, j) then [j] else [];
  }

  lemma PlacesSources(m: Store, n: Name, p: Name, choose: nat -> ServerInfo, synced: (nat, nat, nat) -> bool, i: nat,
                      j: nat, places: seq<Place>)
    requires CopyPlaces(m, n, p, choose, synced, i, j, places)
    ensures places == [] <==> Sources(synced, i, j) == []
  {
  }

  lemma NoPlaces(m: Store, n: Name, p: Name, choose: nat -> ServerInfo, synced: (nat, nat, nat) -> bool, i: nat)
    ensures CopyPlaces(m, n, p, choose, synced, i, 0, [])
  {
  }

  lemma ChosenElsewhere(c: nat, original: Option<Place>, choose: nat -> ServerInfo)
    requires original.Some? && ServerUrl(choose(c)) != PlaceUrl(original.value)
    ensures Elsewhere(PlaceFor(choose(c)), original, choose)
  {
  }

  /** Chunk `at` of the copy has metadata, which names a server other than the original's. */
  ghost predicate CopiedTo(m: Store, copy: Name, p: Name, at: nat, original: Option<Place>, choose: nat -> ServerInfo) {
    PlaceOf(m, copy, p, at).Some? && Elsewhere(PlaceOf(m, copy, p, at).value, original, choose)
  }

  /** The chunks the copy had are as they were, and behind them stands one for each chunk of the file that was copied,
      in order and on another server. */
  ghost predicate CopyDone(m0: Store, m: Store, n: Name, p: Name, count: nat, choose: nat -> ServerInfo,
                           synced: (nat, nat, nat) -> bool, i: nat) {
    var copy, c, src := CopyName(n, i), ChunkCount(m0, CopyName(n, i), p), Sources(synced, i, count);
    && ChunkCount(m, copy, p) == c + |src|
    && (forall t: nat :: t < c ==> PlaceOf(m, copy, p, t) == PlaceOf(m0, copy, p, t))
    && (forall t: nat :: t < |src| ==> CopiedTo(m, copy, p, c + t, PlaceOf(m0, n, p, src[t]), choose))
  }

  lemma GrownCopyDone(m0: Store, m1: Store, m2: Store, n: Name, p: Name, count: nat, choose: nat -> ServerInfo,
                      synced: (nat, nat, nat) -> bool, i: nat, places: seq<Place>)
    requires SameFile(m0, m1, n, p) && SameFile(m0, m1, CopyName(n, i), p)
    requires Grown(m1, m2, CopyName(n, i), p, places) && CopyPlaces(m1, n, p, choose, synced, i, count, places)
    ensures CopyDone(m0, m2, n, p, count, choose, synced, i)
  {
    hide Encode, SameFile, PlaceOf, ChunkCount, OnlyPlacesChanged, Elsewhere, CopyName, Sources, Whole;
    PlacesKept(m0, m1, n, p);
    PlacesKept(m0, m1, CopyName(n, i), p);
    var c, src := ChunkCount(m0, CopyName(n, i), p), Sources(synced, i, count);
    forall t: nat | t < |src|
      ensures CopiedTo(m2, CopyName(n, i), p, c + t, PlaceOf(m0, n, p, src[t]), choose)
    {
      assert PlaceOf(m2, CopyName(n, i), p, c + t) == Some(places[t]);
      assert Elsewhere(places[t], PlaceOf(m1, n, p, src[t]), choose);
    }
  }

  lemma CopyDoneKept(m0: Store, m1: Store, m2: Store, n: Name, p: Name, count: nat, choose: nat -> ServerInfo,
                     synced: (nat, nat, nat) -> bool, i: nat)
    requires CopyDone(m0, m1, n, p, count, choose, synced, i) && SameFile(m1, m2, CopyName(n, i), p)
    ensures CopyDone(m0, m2, n, p, count, choose, synced, i)
  {
    hide Encode, SameFile, PlaceOf, ChunkCount, Sources, Elsewhere, Whole;
    PlacesKept(m1, m2, CopyName(n, i), p);
    var copy, c, src := CopyName(n, i), ChunkCount(m0, CopyName(n, i), p), Sources(synced, i, count);
    forall t: nat | t < |src|
      ensures CopiedTo(m2, copy, p, c + t, PlaceOf(m0, n, p, src[t]), choose)
    {
      assert CopiedTo(m1, copy, p, c + t, PlaceOf(m0, n, p, src[t]), choose);
    }
  }

  /** (a, b) is not one of the copies 1..k-1 of file n under path p. */
  ghost predicate NoCopy(a: Name, b: Name, n: Name, p: Name, k: nat) {
    forall i: nat :: 0 < i < k ==> (a, b) != (CopyName(n, i), p)
  }

  /** Making copy i completes it and disturbs neither the file nor the copies before it. */
  lemma CopyKeeps(m0: Store, m1: Store, m2: Store, n: Name, p: Name, count: nat, choose: nat -> ServerInfo,
                  synced: (nat, nat, nat) -> bool, i: nat, places: seq<Place>)
    requires i > 0 && SameFile(m0, m1, n, p)
    requires forall a: Name, b: Name :: NoCopy(a, b, n, p, i) ==> SameFile(m0, m1, a, b)
    requires forall j: nat :: 0 < j < i ==> CopyDone(m0, m1, n, p, count, choose, synced, j)
    requires Grown(m1, m2, CopyName(n, i), p, places) && CopyPlaces(m1, n, p, choose, synced, i, count, places)
    ensures SameFile(m0, m2, n, p)
    ensures forall j: nat :: 0 < j <= i ==> CopyDone(m0, m2, n, p, count, choose, synced, j)
    ensures forall a: Name, b: Name :: NoCopy(a, b, n, p, i + 1) ==> SameFile(m0, m2, a, b)
  {
    hide Encode, CopyDone, CopyPlaces, SameFile, OnlyPlacesChanged, CopyName;
    OtherKeysKept(m1, m2, CopyName(n, i), p);
    OtherCopies(n, i);
    CopyIsOther(n, i);
    SameFileTransitive(m0, m1, m2, n, p);
    assert NoCopy(CopyName(n, i), p, n, p, i);
    GrownCopyDone(m0, m1, m2, n, p, count, choose, synced, i, places);
    forall j: nat | 0 < j < i
      ensures CopyDone(m0, m2, n, p, count, choose, synced, j)
    {
      CopyDoneKept(m0, m1, m2, n, p, count, choose, synced, j);
    }
    forall a: Name, b: Name | NoCopy(a, b, n, p, i + 1)
      ensures SameFile(m0, m2, a, b)
    {
      assert NoCopy(a, b, n, p, i) && (a, b) != (CopyName(n, i), p);
      SameFileTransitive(m0, m1, m2, a, b);
    }
  }

  /** Making copies leaves a store in order as it found it. */
  lemma CopiesInOrder(m0: Store, m: Store, n: Name, p: Name, count: nat, choose: nat -> ServerInfo,
                      synced: (nat, nat, nat) -> bool, k: nat)
    requires InOrder(m0) && FilesOk(m)
    requires forall i: nat :: 0 < i < k ==> CopyDone(m0, m, n, p, count, choose, synced, i)
    requires forall a: Name, b: Name :: NoCopy(a, b, n, p, k) ==> SameFile(m0, m, a, b)
    ensures InOrder(m)
  {
    hide Encode, PlaceOf, ChunkCount, FileOk, CopyName, Sources, SameFile, Elsewhere;
    InOrderFiles(m0);
    forall a: Name, b: Name
      ensures Whole(m, a, b)
    {
      assert Whole(m0, a, b);
      if i: nat :| 0 < i < k && (a, b) == (CopyName(n, i), p) {
        CopyWhole(m0, m, n, p, count, choose, synced, i);
      } else {
        assert NoCopy(a, b, n, p, k);
        PlacesKept(m0, m, a, b);
      }
    }
    InOrderFiles(m);
  }

  lemma CopyWhole(m0: Store, m: Store, n: Name, p: Name, count: nat, choose: nat -> ServerInfo,
                  synced: (nat, nat, nat) -> bool, i: nat)
    requires CopyDone(m0, m, n, p, count, choose, synced, i) && Whole(m0, CopyName(n, i), p)
    ensures Whole(m, CopyName(n, i), p)
  {
    hide Encode, PlaceOf, ChunkCount, CopyName, Sources, Elsewhere;
    var copy, c, src := CopyName(n, i), ChunkCount(m0, CopyName(n, i), p), Sources(synced, i, count);
    forall t: nat | t < ChunkCount(m, copy, p)
      ensures PlaceOf(m, copy, p, t).Some?
    {
      if t >= c {
        assert CopiedTo(m, copy, p, c + (t - c), PlaceOf(m0, n, p, src[t - c]), choose);
      }
    }
  }

  /** What an upload with its copies has made of copy i: behind the chunks it had stands one for each chunk of the file
      that was copied, in order and on another server. */
  ghost predicate CopyPlaced(m0: Store, m: Store, n: Name, p: Name, choose: nat -> ServerInfo,
                             synced: (nat, nat, nat) -> bool, i: nat) {
    var copy, c, src := CopyName(n, i), ChunkCount(m0, CopyName(n, i), p), Sources(synced, i, ChunkCount(m, n, p));
    && ChunkCount(m, copy, p) == c + |src|
    && (forall t: nat :: t < c ==> PlaceOf(m, copy, p, t) == PlaceOf(m0, copy, p, t))
    && (forall t: nat :: t < |src| ==> CopiedTo(m, copy, p, c + t, PlaceOf(m, n, p, src[t]), choose))
  }

  lemma CopyPlacedFrom(m0: Store, m1: Store, m2: Store, n: Name, p: Name, choose: nat -> ServerInfo,
                       synced: (nat, nat, nat) -> bool, i: nat)
    requires SameFile(m0, m1, CopyName(n, i), p)
    requires ChunkCount(m2, n, p) == ChunkCount(m1, n, p)
    requires forall t: nat :: PlaceOf(m2, n, p, t) == PlaceOf(m1, n, p, t)
    requires CopyDone(m1, m2, n, p, ChunkCount(m1, n, p), choose, synced, i)
    ensures CopyPlaced(m0, m2, n, p, choose, synced, i)
  {
    hide Encode, SameFile, PlaceOf, ChunkCount, CopyName, Sources, Elsewhere, Whole;
    PlacesKept(m0, m1, CopyName(n, i), p);
    var copy, c, src := CopyName(n, i), ChunkCount(m0, CopyName(n, i), p), Sources(synced, i, ChunkCount(m2, n, p));
    forall t: nat | t < |src|
      ensures CopiedTo(m2, copy, p, c + t, PlaceOf(m2, n, p, src[t]), choose)
    {
      assert CopiedTo(m2, copy, p, c + t, PlaceOf(m1, n, p, src[t]), choose);
    }
  }

  /** The t-th new chunk of the copy and the chunk of the file it was copied from are on different servers. */
  ghost predicate Apart(m: Store, n: Name, p: Name, i: nat, at: nat, from: nat) {
    && PlaceOf(m, CopyName(n, i), p, at).Some? && PlaceOf(m, n, p, from).Some?
    && PlaceOf(m, CopyName(n, i), p, at) != PlaceOf(m, n, p, from)
  }

  /** So are all chunks recorded for copy i. */
  ghost predicate CopyApart(m0: Store, m: Store, n: Name, p: Name, synced: (nat, nat, nat) -> bool, i: nat) {
    var c, src := ChunkCount(m0, CopyName(n, i), p), Sources(synced, i, ChunkCount(m, n, p));
    forall t: nat :: t < |src| ==> Apart(m, n, p, i, c + t, src[t])
  }

  /** When all servers chosen for copies have ports that fit 16 bits, each recorded chunk of a copy is on a server other
      than that of the chunk it was copied from. */
  lemma CopiesApart(m0: Store, m: Store, n: Name, p: Name, choose: nat -> ServerInfo, synced: (nat, nat, nat) -> bool,
                    i: nat)
    requires CopyPlaced(m0, m, n, p, choose, synced, i) && SmallPorts(choose)
    ensures CopyApart(m0, m, n, p, synced, i)
  {
    hide Encode, PlaceOf, ChunkCount, CopyName, Sources, Elsewhere, SmallPorts;
    var copy, c, src := CopyName(n, i), ChunkCount(m0, CopyName(n, i), p), Sources(synced, i, ChunkCount(m, n, p));
    forall t: nat | t < |src|
      ensures Apart(m, n, p, i, c + t, src[t])
    {
      var original := PlaceOf(m, n, p, src[t]);
      assert CopiedTo(m, copy, p, c + t, original, choose);
      assert original.Some? by { ElsewhereSome(PlaceOf(m, copy, p, c + t).value, original, choose); }
      ElsewhereDiffers(PlaceOf(m, copy, p, c + t).value, original, choose);
    }
  }

  lemma ElsewhereSome(a: Place, original: Option<Place>, choose: nat -> ServerInfo)
    requires Elsewhere(a, original, choose)
    ensures original.Some?
  {
  }

  /** An upload that grew one file, followed by the making of its copies. */
  lemma UploadCopied(m0: Store, m1: Store, m: Store, n: Name, p: Name, choose: nat -> ServerInfo,
                     synced: (nat, nat, nat) -> bool, k: nat)
    requires OnlyPlacesChanged(m0, m1, n, p)
    requires forall i: nat :: 0 < i < k ==> CopyDone(m1, m, n, p, ChunkCount(m1, n, p), choose, synced, i)
    requires forall a: Name, b: Name :: NoCopy(a, b, n, p, k) ==> SameFile(m1, m, a, b)
    ensures ChunkCount(m, n, p) == ChunkCount(m1, n, p) && forall t: nat :: PlaceOf(m, n, p, t) == PlaceOf(m1, n, p, t)
    ensures forall i: nat :: 0 < i < k ==> CopyPlaced(m0, m, n, p, choose, synced, i)
    ensures SmallPorts(choose) ==> forall i: nat :: 0 < i < k ==> CopyApart(m0, m, n, p, synced, i)
    ensures forall a: Name, b: Name :: (a, b) != (n, p) && NoCopy(a, b, n, p, k) ==> SameFile(m0, m, a, b)
  {
    hide Encode, CopyDone, CopyPlaced, CopyApart, SameFile, ChunkCount, PlaceOf, SmallPorts, OnlyPlacesChanged,
         CopyName, Whole;
    OtherKeysKept(m0, m1, n, p);
    OriginalNoCopy(n, p, k);
    PlacesKept(m1, m, n, p);
    forall i: nat | 0 < i < k
      ensures CopyPlaced(m0, m, n, p, choose, synced, i)
      ensures SmallPorts(choose) ==> CopyApart(m0, m, n, p, synced, i)
    {
      CopyIsOther(n, i);
      CopyPlacedFrom(m0, m1, m, n, p, choose, synced, i);
      if SmallPorts(choose) {
        CopiesApart(m0, m, n, p, choose, synced, i);
      }
    }
    forall a: Name, b: Name | (a, b) != (n, p) && NoCopy(a, b, n, p, k)
      ensures SameFile(m0, m, a, b)
    {
      SameFileTransitive(m0, m1, m, a, b);
    }
  }

  lemma {:induction false} SourcesExact(synced: (nat, nat, nat) -> bool, i: nat, n: nat)
    ensures forall j: nat :: j in Sources(synced, i, n) <==> j < n && SyncSucceeds(synced, i, j)
    ensures forall t, u :: 0 <= t < u < |Sources(synced, i, n)| ==> Sources(synced, i, n)[t] < Sources(synced, i, n)[u]
  {
    hide SyncSucceeds;
    if n > 0 {
      SourcesExact(synced, i, n - 1);
    }
  }

  /** The first |s| numbers. */
  predicate Aligned(s: seq<nat>) {
    forall t :: 0 <= t < |s| ==> s[t] == t
  }

  /** No chunk was copied after one that was not. */
  ghost predicate NoGap(synced: (nat, nat, nat) -> bool, i: nat, n: nat) {
    forall j: nat, k: nat :: j < k < n && SyncSucceeds(synced, i, k) ==> SyncSucceeds(synced, i, j)
  }

  /** Chunk t of a fresh copy stands for chunk t of the file, for every chunk it has, exactly when no chunk was copied
      after one that was not. */
  lemma AlignedIff(synced: (nat, nat, nat) -> bool, i: nat, n: nat)
    ensures Aligned(Sources(synced, i, n)) <==> NoGap(synced, i, n)
  {
    hide SyncSucceeds, Sources;
    var src := Sources(synced, i, n);
    SourcesExact(synced, i, n);
    if Aligned(src) {
      forall j: nat, k: nat | j < k < n && SyncSucceeds(synced, i, k)
        ensures SyncSucceeds(synced, i, j)
      {
        var u :| 0 <= u < |src| && src[u] == k;
        assert src[j] == j;
      }
    }
    if NoGap(synced, i, n) {
      AscendingFromZero(src, |src|);
    }
  }

  /** An ascending sequence that with a number holds all smaller ones is 0, 1, 2, ... */
  lemma {:induction false} AscendingFromZero(s: seq<nat>, k: nat)
    requires k <= |s| && (forall t, u :: 0 <= t < u < |s| ==> s[t] < s[u])
    requires forall a: nat, b: nat :: a < b && b in s ==> a in s
    ensures forall t :: 0 <= t < k ==> s[t] == t
  {
    if k > 0 {
      AscendingFromZero(s, k - 1);
      assert k > 1 ==> s[k - 2] < s[k - 1];
      assert s[k - 1] >= k - 1 && s[k - 1] in s;
      assert k - 1 in s;
      var u :| 0 <= u < |s| && s[u] == k - 1;
    }
  }

  lemma {:induction false} AllSucceed(synced: (nat, nat, nat) -> bool, i: nat, n: nat)
    ensures |Sources(synced, i, n)| == n <==> forall j: nat :: j < n ==> SyncSucceeds(synced, i, j)
    ensures |Sources(synced, i, n)| == n ==> forall j: nat :: j < n ==> Sources(synced, i, n)[j] == j
  {
    hide SyncSucceeds;
    if n > 0 {
      AllSucceed(synced, i, n - 1);
    }
  }

  /** A copy that was fresh and whose chunks were all copied has as many chunks as the file, chunk t of it on a server
      other than that of chunk t of the file. */
  lemma FreshCopyComplete(m0: Store, m: Store, n: Name, p: Name, choose: nat -> ServerInfo,
                          synced: (nat, nat, nat) -> bool, i: nat)
    requires CopyPlaced(m0, m, n, p, choose, synced, i) && ChunkCount(m0, CopyName(n, i), p) == 0
    requires forall j: nat :: j < ChunkCount(m, n, p) ==> SyncSucceeds(synced, i, j)
    ensures ChunkCount(m, CopyName(n, i), p) == ChunkCount(m, n, p)
    ensures forall t: nat :: t < ChunkCount(m, n, p) ==> CopiedTo(m, CopyName(n, i), p, t, PlaceOf(m, n, p, t), choose)
    ensures SmallPorts(choose) ==> forall t: nat :: t < ChunkCount(m, n, p) ==> Apart(m, n, p, i, t, t)
  {
    hide Encode, ChunkCount, PlaceOf, CopyName, SyncSucceeds, CopiedTo, SmallPorts, Apart, Sources;
    AllSucceed(synced, i, ChunkCount(m, n, p));
    if SmallPorts(choose) {
      CopiesApart(m0, m, n, p, choose, synced, i);
    }
    var src := Sources(synced, i, ChunkCount(m, n, p));
    forall t: nat | t < ChunkCount(m, n, p)
      ensures CopiedTo(m, CopyName(n, i), p, t, PlaceOf(m, n, p, t), choose)
      ensures SmallPorts(choose) ==> Apart(m, n, p, i, t, t)
    {
      assert CopiedTo(m, CopyName(n, i), p, 0 + t, PlaceOf(m, n, p, src[t]), choose);
      assert SmallPorts(choose) ==> Apart(m, n, p, i, 0 + t, src[t]);
    }
  }

  /** The list of URLs after the copies 1..k-1 have been made: a copy is listed if any chunk of it was recorded. */
  function ListedCopies(s: seq<string>, n: Name, p: Name, synced: (nat, nat, nat) -> bool, count: nat,
                        k: nat): seq<string> {
    if k <= 1 then s
    else
      var before := ListedCopies(s, n, p, synced, count, k - 1);
      if Sources(synced, k - 1, count) == [] then before else Added(before, CopyUrl(n, p, k - 1))
  }

  /** Behind the list as it was, and keeping it free of duplicates, it holds just the copies of which a chunk was
      copied. */
  lemma {:induction false} ListedCopiesAre(s: seq<string>, n: Name, p: Name, synced: (nat, nat, nat) -> bool,
                                           count: nat, k: nat)
    ensures s <= ListedCopies(s, n, p, synced, count, k)
    ensures Distinct(s) ==> Distinct(ListedCopies(s, n, p, synced, count, k))
    ensures forall x: string :: x in ListedCopies(s, n, p, synced, count, k) <==>
              x in s || exists i: nat :: 0 < i < k && x == CopyUrl(n, p, i) && Sources(synced, i, count) != []
    decreases k
  {
    hide CopyUrl, Sources;
    if k > 1 {
      ListedCopiesAre(s, n, p, synced, count, k - 1);
      var before := ListedCopies(s, n, p, synced, count, k - 1);
      if Distinct(before) {
        AddedDistinct(before, CopyUrl(n, p, k - 1));
      }
    }
  }

  lemma OriginalNoCopy(n: Name, p: Name, k: nat)
    ensures NoCopy(n, p, n, p, k)
  {
    hide CopyName;
    forall i: nat | 0 < i < k
      ensures CopyName(n, i) != n
    {
      CopyIsOther(n, i);
    }
  }

  lemma CopyIsOther(n: Name, i: nat)
    ensures CopyName(n, i) != n
  {
  }

  /** Recording a copy does not disturb the original's places. */
  lemma OriginalKept(m0: Store, m: Store, n: Name, p: Name, copy: Name, places: seq<Place>, j: nat)
    requires Whole(m0, n, p) && FilesOk(m) && Grown(m0, m, copy, p, places) && copy != n && j < ChunkCount(m0, n, p)
    ensures ChunkOk(m, n, p, j) && PlaceOf(m0, n, p, j).Some? && PlaceOf(m, n, p, j) == PlaceOf(m0, n, p, j)
  {
    hide Encode, OnlyPlacesChanged, SameFile, ChunkOk, PlaceOf;
    OtherKeysKept(m0, m, copy, p);
    ChunksOk(m, n, p);
    PlacesKept(m0, m, n, p);
  }
}
