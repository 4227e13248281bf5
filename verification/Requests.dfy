/** What the handlers for moves and deletions ask of the chunk servers, and what they make of the store. */
module Requests {
  import opened Text
  import opened Keys
  import opened Database
  import opened MetaData
  import opened FileStore
  import opened Files
  import opened MasterStore
  import opened Namespace
  import opened Servers

  /** The answer to a request about one chunk: no connection, or a message. */
  datatype Reply = Refused | Answer(bit: int, data: string)

  /** A 122 request fails without a connection, and on an answer of the right kind that does not say "true". */
  predicate MoveAccepted(r: Reply) {
    r.Answer? && !(r.data != "true" && r.bit == 124)
  }

  /** A 113 request succeeds on exactly one answer. */
  predicate DeleteAccepted(r: Reply) {
    r == Answer(129, "true")
  }

  /** A request the master sends to a chunk server. */
  datatype Request = Request(server: string, bit: int, name: string, path: string, customize: seq<string>)

  /** The server that chunk i's metadata names. */
  function ServerOf(m: Store, n: Name, p: Name, i: nat): (r: string)
    ensures forall a: Place :: PlaceOf(m, n, p, i) == Some(a) ==> r == a.addr + ":" + ToString(a.port)
  {
    match PlaceOf(m, n, p, i)
    case None => ""
    case Some(a) => PlaceUrl(a)
  }

  /** The requests of one kind for the first c chunks of a file, each to the server of its chunk; the number of the
      chunk comes last. */
  function Asked(m: Store, n: Name, p: Name, bit: int, extra: seq<string>, c: nat): (r: seq<Request>)
    ensures |r| == c && forall i :: 0 <= i < c ==> r[i] == Request(ServerOf(m, n, p, i), bit, n, p, extra + [Dec(i)])
  {
    seq(c, i requires 0 <= i < c => Request(ServerOf(m, n, p, i), bit, n, p, extra + [Dec(i)]))
  }

  /** Those of the first k copies, copy by copy. */
  function CopiesAsked(m: Store, n: Name, p: Name, bit: int, extra: seq<string>, k: nat): seq<Request> {
    if k == 0 then []
    else
      var copy := CopyOf(n, k - 1);
      CopiesAsked(m, n, p, bit, extra, k - 1) + Asked(m, copy, p, bit, extra, ChunkCount(m, copy, p))
  }

  /** A chunk can be moved: its metadata names a server, and that accepts. */
  ghost predicate Accepted(m: Store, n: Name, p: Name, i: nat, r: Reply) {
    PlaceOf(m, n, p, i).Some? && MoveAccepted(r)
  }

  /** So can every chunk of the first k copies. */
  ghost predicate AllAccepted(m: Store, n: Name, p: Name, k: nat, replies: (nat, nat) -> Reply) {
    forall j: nat, i: nat :: j < k && i < ChunkCount(m, CopyOf(n, j), p) ==>
        Accepted(m, CopyOf(n, j), p, i, replies(j, i))
  }

  lemma NoneAccepted(m: Store, n: Name, p: Name, replies: (nat, nat) -> Reply)
    ensures AllAccepted(m, n, p, 0, replies)
  {
  }

  lemma AllAcceptedNext(m: Store, n: Name, p: Name, k: nat, replies: (nat, nat) -> Reply)
    requires AllAccepted(m, n, p, k, replies)
    requires forall i: nat :: i < ChunkCount(m, CopyOf(n, k), p) ==> Accepted(m, CopyOf(n, k), p, i, replies(k, i))
    ensures AllAccepted(m, n, p, k + 1, replies)
  {
    hide Encode, ChunkCount, CopyOf, Accepted;
    forall j: nat, i: nat | j < k + 1 && i < ChunkCount(m, CopyOf(n, j), p)
      ensures Accepted(m, CopyOf(n, j), p, i, replies(j, i))
    {
    }
  }

  lemma NotAllAccepted(m: Store, n: Name, p: Name, k: nat, replies: (nat, nat) -> Reply, j: nat, i: nat)
    requires j < k && i < ChunkCount(m, CopyOf(n, j), p) && !Accepted(m, CopyOf(n, j), p, i, replies(j, i))
    ensures !AllAccepted(m, n, p, k, replies)
  {
    hide Encode, ChunkCount, CopyOf, Accepted;
  }

  /** How many requests have been sent when chunk k is the first that cannot be moved: the last one goes to chunk k
      unless that has no metadata or its server cannot be reached. */
  function AskedUpTo(m: Store, n: Name, p: Name, k: nat, r: Reply): nat {
    if PlaceOf(m, n, p, k).None? || r == Refused then k else k + 1
  }

  lemma MoveStops(m: Store, m1: Store, n: Name, p: Name, q: Name, copies: nat, replies: (nat, nat) -> Reply, j: nat,
                  k: nat)
    requires j < copies && k < ChunkCount(m, CopyOf(n, j), p) && !Accepted(m, CopyOf(n, j), p, k, replies(j, k))
    requires forall i: nat :: i < k ==> Accepted(m, CopyOf(n, j), p, i, replies(j, i))
    requires AllAccepted(m, n, p, j, replies) && FilesOk(m1) && CopiesMoved(m, m1, n, p, q, j)
    ensures MoveStoppedAt(m, m1, n, p, q, copies, replies, j, k)
  {
    hide Accepted, ChunkCount, CopyOf, AllAccepted, FilesOk, CopiesMoved;
  }

  /** What has been listed and asked when no copy has been moved, and when one more has. */
  lemma NothingMoved(m: Store, s: seq<string>, n: Name, p: Name, q: Name)
    ensures MovedUrls(s, n, p, q, 0) == s && CopiesAsked(m, n, p, 122, [q], 0) == []
  {
  }

  lemma NextMoved(m: Store, s: seq<string>, n: Name, p: Name, q: Name, k: nat)
    ensures MovedUrls(s, n, p, q, k + 1) == Added(Without(MovedUrls(s, n, p, q, k), CopyUrl(n, p, k)), CopyUrl(n, q, k))
    ensures CopiesAsked(m, n, p, 122, [q], k + 1) ==
            CopiesAsked(m, n, p, 122, [q], k) +
            Asked(m, CopyOf(n, k), p, 122, [q], ChunkCount(m, CopyOf(n, k), p))
  {
  }

  lemma AskedUpToIs(m: Store, n: Name, p: Name, k: nat, r: Reply)
    ensures AskedUpTo(m, n, p, k, r) == if PlaceOf(m, n, p, k).Some? && r.Answer? then k + 1 else k
  {
    hide PlaceOf;
  }

  /** The copies before j are moved in m1, and chunk k of copy j is the first that cannot be moved. */
  ghost predicate MoveStoppedAt(m: Store, m1: Store, n: Name, p: Name, q: Name, copies: nat,
                                replies: (nat, nat) -> Reply, j: nat, k: nat) {
    && j < copies && k < ChunkCount(m, CopyOf(n, j), p) && !Accepted(m, CopyOf(n, j), p, k, replies(j, k))
    && (forall i: nat :: i < k ==> Accepted(m, CopyOf(n, j), p, i, replies(j, i))) && AllAccepted(m, n, p, j, replies)
    && FilesOk(m1) && CopiesMoved(m, m1, n, p, q, j)
  }

  /** What it takes for every chunk of the first k copies to be moved, and to be deleted. */
  lemma AllAcceptedIs(m: Store, n: Name, p: Name, k: nat, replies: (nat, nat) -> Reply)
    ensures AllAccepted(m, n, p, k, replies) <==>
            forall a: nat, i: nat :: a < k && i < ChunkCount(m, CopyOf(n, a), p) ==>
              && PlaceOf(m, CopyOf(n, a), p, i).Some?
              && replies(a, i).Answer? && (replies(a, i).bit != 124 || replies(a, i).data == "true")
    ensures AllDeleted(m, n, p, k, replies) <==>
            forall a: nat, i: nat :: a < k && i < ChunkCount(m, CopyOf(n, a), p) ==>
                replies(a, i) == Answer(129, "true")
  {
    hide PlaceOf, CopyOf, ChunkCount;
    forall a: nat, i: nat
      ensures Accepted(m, CopyOf(n, a), p, i, replies(a, i)) <==>
              && PlaceOf(m, CopyOf(n, a), p, i).Some?
              && replies(a, i).Answer? && (replies(a, i).bit != 124 || replies(a, i).data == "true")
    {
    }
  }

  lemma AcceptedAnswer(r: Reply)
    ensures MoveAccepted(r) ==> r.Answer?
  {
  }

  lemma SameAsked(m: Store, m': Store, n: Name, p: Name, bit: int, extra: seq<string>, c: nat)
    requires forall i: nat :: PlaceOf(m', n, p, i) == PlaceOf(m, n, p, i)
    ensures Asked(m', n, p, bit, extra, c) == Asked(m, n, p, bit, extra, c)
  {
    hide PlaceOf;
  }

  lemma AcceptedWhole(m: Store, n: Name, p: Name, j: nat, replies: (nat, nat) -> Reply)
    requires forall i: nat :: i < ChunkCount(m, n, p) ==> Accepted(m, n, p, i, replies(j, i))
    ensures Whole(m, n, p)
  {
    hide PlaceOf, ChunkCount, MoveAccepted;
    forall i: nat | i < ChunkCount(m, n, p)
      ensures PlaceOf(m, n, p, i).Some?
    {
      assert Accepted(m, n, p, i, replies(j, i));
    }
  }

  lemma SameAccepted(m: Store, m': Store, n: Name, p: Name)
    requires forall i: nat :: PlaceOf(m', n, p, i) == PlaceOf(m, n, p, i)
    ensures forall i: nat, r: Reply :: Accepted(m', n, p, i, r) <==> Accepted(m, n, p, i, r)
    ensures forall i: nat, r: Reply :: AskedUpTo(m', n, p, i, r) == AskedUpTo(m, n, p, i, r)
  {
    hide PlaceOf, MoveAccepted;
  }

  lemma AskedNext(m: Store, n: Name, p: Name, bit: int, extra: seq<string>, k: nat)
    ensures Asked(m, n, p, bit, extra, k + 1) ==
            Asked(m, n, p, bit, extra, k) + [Request(ServerOf(m, n, p, k), bit, n, p, extra + [Dec(k)])]
  {
    hide ServerOf;
  }

  /** A request to some chunk of the first j copies. */
  ghost predicate Due(m: Store, n: Name, p: Name, bit: int, extra: seq<string>, j: nat, r: Request) {
    exists a: nat, i: nat ::
      && a < j && i < ChunkCount(m, CopyOf(n, a), p)
      && r == Request(ServerOf(m, CopyOf(n, a), p, i), bit, CopyOf(n, a), p, extra + [Dec(i)])
  }

  /** Of the requests to the first j copies no two are the same, and there is just one to each of their chunks. */
  lemma {:induction false} CopiesAskedOnce(m: Store, n: Name, p: Name, bit: int, extra: seq<string>, j: nat)
    ensures var asked := CopiesAsked(m, n, p, bit, extra, j);
            && (forall t, u :: 0 <= t < u < |asked| ==> asked[t] != asked[u])
            && (forall r: Request :: r in asked <==> Due(m, n, p, bit, extra, j, r))
  {
    hide ServerOf, CopyOf, ChunkCount, Due, Asked;
    if j == 0 {
      NoneDue(m, n, p, bit, extra);
    } else {
      var c := ChunkCount(m, CopyOf(n, j - 1), p);
      CopiesAskedOnce(m, n, p, bit, extra, j - 1);
      AskedOnce(m, n, p, bit, extra, j - 1, c);
      assert CopiesAsked(m, n, p, bit, extra, j) ==
             CopiesAsked(m, n, p, bit, extra, j - 1) + Asked(m, CopyOf(n, j - 1), p, bit, extra, c);
      forall r: Request
        ensures Due(m, n, p, bit, extra, j, r) <==>
                Due(m, n, p, bit, extra, j - 1, r) || r in Asked(m, CopyOf(n, j - 1), p, bit, extra, c)
      {
        DueNext(m, n, p, bit, extra, j - 1, r);
      }
    }
  }

  /** And so it is with those to the first k chunks of copy j behind them. */
  lemma AskedOnce(m: Store, n: Name, p: Name, bit: int, extra: seq<string>, j: nat, k: nat)
    requires var before := CopiesAsked(m, n, p, bit, extra, j);
             && (forall t, u :: 0 <= t < u < |before| ==> before[t] != before[u])
             && (forall r: Request :: r in before <==> Due(m, n, p, bit, extra, j, r))
    ensures var asked := CopiesAsked(m, n, p, bit, extra, j) + Asked(m, CopyOf(n, j), p, bit, extra, k);
            forall t, u :: 0 <= t < u < |asked| ==> asked[t] != asked[u]
  {
    hide ServerOf, CopyOf, ChunkCount, Due, CopiesAsked;
    var before, last := CopiesAsked(m, n, p, bit, extra, j), Asked(m, CopyOf(n, j), p, bit, extra, k);
    forall t, u | 0 <= t < u < |before + last| && u >= |before|
      ensures (before + last)[t] != (before + last)[u]
    {
      var i := u - |before|;
      assert (before + last)[u] == last[i];
      if t < |before| {
        assert (before + last)[t] == before[t] && before[t] in before;
        DueApart(m, n, p, bit, extra, j, before[t]);
      } else {
        var h := t - |before|;
        assert (before + last)[t] == last[h];
        assert (extra + [Dec(h)])[|extra|] == Dec(h) && (extra + [Dec(i)])[|extra|] == Dec(i);
        if Dec(h) == Dec(i) {
          DecInjective(h, i);
        }
      }
    }
  }

  lemma NoneDue(m: Store, n: Name, p: Name, bit: int, extra: seq<string>)
    ensures forall r: Request :: !Due(m, n, p, bit, extra, 0, r)
  {
  }

  lemma DueNext(m: Store, n: Name, p: Name, bit: int, extra: seq<string>, j: nat, r: Request)
    ensures var c := ChunkCount(m, CopyOf(n, j), p);
            Due(m, n, p, bit, extra, j + 1, r) <==>
            Due(m, n, p, bit, extra, j, r) || r in Asked(m, CopyOf(n, j), p, bit, extra, c)
  {
    hide ServerOf, CopyOf, ChunkCount;
    var last := Asked(m, CopyOf(n, j), p, bit, extra, ChunkCount(m, CopyOf(n, j), p));
    if r in last {
      var i :| 0 <= i < |last| && last[i] == r;
      assert r == Request(ServerOf(m, CopyOf(n, j), p, i), bit, CopyOf(n, j), p, extra + [Dec(i)]);
    }
    if Due(m, n, p, bit, extra, j + 1, r) && !Due(m, n, p, bit, extra, j, r) {
      var a: nat, i: nat :| a < j + 1 && i < ChunkCount(m, CopyOf(n, a), p) &&
                            r == Request(ServerOf(m, CopyOf(n, a), p, i), bit, CopyOf(n, a), p, extra + [Dec(i)]);
      assert last[i] == r;
    }
  }

  lemma DueApart(m: Store, n: Name, p: Name, bit: int, extra: seq<string>, j: nat, r: Request)
    requires Due(m, n, p, bit, extra, j, r)
    ensures r.name != CopyOf(n, j)
  {
    hide ServerOf, CopyOf, ChunkCount;
    var a: nat, i: nat :| a < j && i < ChunkCount(m, CopyOf(n, a), p) &&
                          r == Request(ServerOf(m, CopyOf(n, a), p, i), bit, CopyOf(n, a), p, extra + [Dec(i)]);
    if CopyOf(n, a) == CopyOf(n, j) {
      CopiesDiffer(n, a, j);
    }
  }

  lemma DueOne(m: Store, n: Name, p: Name, bit: int, extra: seq<string>, j: nat, a: nat, i: nat)
    requires a < j && i < ChunkCount(m, CopyOf(n, a), p)
    ensures Due(m, n, p, bit, extra, j,
                Request(ServerOf(m, CopyOf(n, a), p, i), bit, CopyOf(n, a), p, extra + [Dec(i)]))
  {
    hide ServerOf, CopyOf, ChunkCount;
  }

  lemma DueWhich(m: Store, n: Name, p: Name, bit: int, extra: seq<string>, j: nat, r: Request) returns (a: nat, i: nat)
    requires Due(m, n, p, bit, extra, j, r)
    ensures a < j && i < ChunkCount(m, CopyOf(n, a), p)
    ensures r == Request(ServerOf(m, CopyOf(n, a), p, i), bit, CopyOf(n, a), p, extra + [Dec(i)])
  {
    hide ServerOf, CopyOf, ChunkCount;
    a, i :| a < j && i < ChunkCount(m, CopyOf(n, a), p) &&
            r == Request(ServerOf(m, CopyOf(n, a), p, i), bit, CopyOf(n, a), p, extra + [Dec(i)]);
  }

  /** There is just one request to each chunk of the first j copies and to the first k chunks of copy j, and no other:
      the 122 requests of a move. */
  ghost predicate AskedToMove(asked: seq<Request>, m: Store, n: Name, p: Name, q: Name, j: nat, k: nat) {
    && (forall t, u :: 0 <= t < u < |asked| ==> asked[t] != asked[u])
    && (forall a: nat, i: nat :: a < j && i < ChunkCount(m, CopyOf(n, a), p) ==>
          Request(ServerOf(m, CopyOf(n, a), p, i), 122, CopyOf(n, a), p, [q, Dec(i)]) in asked)
    && (forall i: nat :: i < k ==> Request(ServerOf(m, CopyOf(n, j), p, i), 122, CopyOf(n, j), p, [q, Dec(i)]) in asked)
    && forall r: Request :: r in asked ==>
         || (exists a: nat, i: nat ::
               && a < j && i < ChunkCount(m, CopyOf(n, a), p)
               && r == Request(ServerOf(m, CopyOf(n, a), p, i), 122, CopyOf(n, a), p, [q, Dec(i)]))
         || (exists i: nat :: i < k && r == Request(ServerOf(m, CopyOf(n, j), p, i), 122, CopyOf(n, j), p, [q, Dec(i)]))
  }

  lemma MovesAskedOnce(m: Store, n: Name, p: Name, q: Name, j: nat, k: nat, asked: seq<Request>)
    requires asked == CopiesAsked(m, n, p, 122, [q], j) + Asked(m, CopyOf(n, j), p, 122, [q], k)
    ensures AskedToMove(asked, m, n, p, q, j, k)
  {
    hide ServerOf, CopyOf, ChunkCount, CopiesAsked, Due, Asked;
    assert forall i: nat {:trigger Dec(i)} :: [q] + [Dec(i)] == [q, Dec(i)];
    CopiesAskedOnce(m, n, p, 122, [q], j);
    AskedOnce(m, n, p, 122, [q], j, k);
    var before, last := CopiesAsked(m, n, p, 122, [q], j), Asked(m, CopyOf(n, j), p, 122, [q], k);
    forall a: nat, i: nat | a < j && i < ChunkCount(m, CopyOf(n, a), p)
      ensures Request(ServerOf(m, CopyOf(n, a), p, i), 122, CopyOf(n, a), p, [q, Dec(i)]) in asked
    {
      DueOne(m, n, p, 122, [q], j, a, i);
    }
    forall i: nat | i < k
      ensures Request(ServerOf(m, CopyOf(n, j), p, i), 122, CopyOf(n, j), p, [q, Dec(i)]) in asked
    {
      assert last[i] == Request(ServerOf(m, CopyOf(n, j), p, i), 122, CopyOf(n, j), p, [q, Dec(i)]);
    }
    forall r: Request | r in asked
      ensures || (exists a: nat, i: nat ::
                    && a < j && i < ChunkCount(m, CopyOf(n, a), p)
                    && r == Request(ServerOf(m, CopyOf(n, a), p, i), 122, CopyOf(n, a), p, [q, Dec(i)]))
              || (exists i: nat ::
                    i < k && r == Request(ServerOf(m, CopyOf(n, j), p, i), 122, CopyOf(n, j), p, [q, Dec(i)]))
    {
      if r in before {
        var a, i := DueWhich(m, n, p, 122, [q], j, r);
        assert r == Request(ServerOf(m, CopyOf(n, a), p, i), 122, CopyOf(n, a), p, [q, Dec(i)]);
      } else {
        var i :| 0 <= i < |last| && last[i] == r;
        assert r == Request(ServerOf(m, CopyOf(n, j), p, i), 122, CopyOf(n, j), p, [q, Dec(i)]);
      }
    }
  }

  /** There is just one request to each chunk of the first j copies and to the first k chunks of copy j, and no other:
      the 113 requests of a deletion. */
  ghost predicate AskedToDelete(asked: seq<Request>, m: Store, n: Name, p: Name, j: nat, k: nat) {
    && (forall t, u :: 0 <= t < u < |asked| ==> asked[t] != asked[u])
    && (forall a: nat, i: nat :: a < j && i < ChunkCount(m, CopyOf(n, a), p) ==>
          Request(ServerOf(m, CopyOf(n, a), p, i), 113, CopyOf(n, a), p, [Dec(i)]) in asked)
    && (forall i: nat :: i < k ==> Request(ServerOf(m, CopyOf(n, j), p, i), 113, CopyOf(n, j), p, [Dec(i)]) in asked)
    && forall r: Request :: r in asked ==>
         || (exists a: nat, i: nat ::
               && a < j && i < ChunkCount(m, CopyOf(n, a), p)
               && r == Request(ServerOf(m, CopyOf(n, a), p, i), 113, CopyOf(n, a), p, [Dec(i)]))
         || (exists i: nat :: i < k && r == Request(ServerOf(m, CopyOf(n, j), p, i), 113, CopyOf(n, j), p, [Dec(i)]))
  }

  lemma DeletesAskedOnce(m: Store, n: Name, p: Name, j: nat, k: nat, asked: seq<Request>)
    requires asked == CopiesAsked(m, n, p, 113, [], j) + Asked(m, CopyOf(n, j), p, 113, [], k)
    ensures AskedToDelete(asked, m, n, p, j, k)
  {
    hide ServerOf, CopyOf, ChunkCount, CopiesAsked, Due, Asked;
    assert forall i: nat {:trigger Dec(i)} :: [] + [Dec(i)] == [Dec(i)];
    CopiesAskedOnce(m, n, p, 113, [], j);
    AskedOnce(m, n, p, 113, [], j, k);
    var before, last := CopiesAsked(m, n, p, 113, [], j), Asked(m, CopyOf(n, j), p, 113, [], k);
    forall a: nat, i: nat | a < j && i < ChunkCount(m, CopyOf(n, a), p)
      ensures Request(ServerOf(m, CopyOf(n, a), p, i), 113, CopyOf(n, a), p, [Dec(i)]) in asked
    {
      DueOne(m, n, p, 113, [], j, a, i);
    }
    forall i: nat | i < k
      ensures Request(ServerOf(m, CopyOf(n, j), p, i), 113, CopyOf(n, j), p, [Dec(i)]) in asked
    {
      assert last[i] == Request(ServerOf(m, CopyOf(n, j), p, i), 113, CopyOf(n, j), p, [Dec(i)]);
    }
    forall r: Request | r in asked
      ensures || (exists a: nat, i: nat ::
                    && a < j && i < ChunkCount(m, CopyOf(n, a), p)
                    && r == Request(ServerOf(m, CopyOf(n, a), p, i), 113, CopyOf(n, a), p, [Dec(i)]))
              || (exists i: nat ::
                    i < k && r == Request(ServerOf(m, CopyOf(n, j), p, i), 113, CopyOf(n, j), p, [Dec(i)]))
    {
      if r in before {
        var a, i := DueWhich(m, n, p, 113, [], j, r);
        assert r == Request(ServerOf(m, CopyOf(n, a), p, i), 113, CopyOf(n, a), p, [Dec(i)]);
      } else {
        var i :| 0 <= i < |last| && last[i] == r;
        assert r == Request(ServerOf(m, CopyOf(n, j), p, i), 113, CopyOf(n, j), p, [Dec(i)]);
      }
    }
  }

  /** The list that a move to path q refused at copy j leaves: the file is in it under the old path exactly if some copy
      had moved and the path is the same, so that the request can be made again, and under the new path exactly if some
      copy had moved or another file had that URL before. */
  lemma RefusedListedIff(s: seq<string>, n: Name, p: Name, q: Name, j: nat)
    requires Distinct(s)
    ensures var left := Without(MovedUrls(s, n, p, q, j), CopyUrl(n, p, j));
            && (CountKey(n, p) in left <==> j > 0 && p == q)
            && (CountKey(n, q) in left <==> j > 0 || (p != q && CountKey(n, q) in s))
  {
    hide CopyUrl, IsCopyUrl, Without, MovedUrls, CountKey, Distinct;
    MovedUrlsSet(s, n, p, q, j);
    WithoutSet(MovedUrls(s, n, p, q, j), CopyUrl(n, p, j));
    FileUrlIs(n, p, p, j);
    FileUrlIs(n, p, q, j);
    FileUrlIs(n, q, p, j);
    FileUrlIs(n, q, q, j);
  }

  /** The URL of the file itself is the one of its copy 0. */
  lemma FileUrlIs(n: Name, p: Name, q: Name, j: nat)
    ensures CountKey(n, p) == CopyUrl(n, q, j) <==> j == 0 && p == q
    ensures IsCopyUrl(CountKey(n, p), n, q, j) <==> j > 0 && p == q
  {
    hide CountKey;
    assert CountKey(n, p) == CopyUrl(n, p, 0);
    if CountKey(n, p) == CopyUrl(n, q, j) {
      CopyUrlInjective(n, p, 0, q, j);
    }
    if i: nat :| i < j && CountKey(n, p) == CopyUrl(n, q, i) {
      CopyUrlInjective(n, p, 0, q, i);
    }
  }

  /** Copy k has not been touched by the moves of the copies before it. */
  lemma UntouchedCount(m: Store, m': Store, n: Name, p: Name, q: Name, k: nat)
    requires CopiesMoved(m, m', n, p, q, k)
    ensures ChunkCount(m', CopyOf(n, k), p) == ChunkCount(m, CopyOf(n, k), p)
    ensures forall i: nat :: PlaceOf(m', CopyOf(n, k), p, i) == PlaceOf(m, CopyOf(n, k), p, i)
  {
    hide Encode, MovedTo, SameFile, CopyOf, ChunkCount;
    forall j: nat | j < k
      ensures CopyOf(n, j) != CopyOf(n, k)
    {
      if CopyOf(n, j) == CopyOf(n, k) {
        CopiesDiffer(n, j, k);
      }
    }
    PlacesKept(m, m', CopyOf(n, k), p);
  }

  /** Moving one file, the list having changed before. */
  lemma MovedStep(m1: Store, m2: Store, m3: Store, n: Name, p: Name, q: Name, len: nat)
    requires FilesOk(m2) && SameFiles(m1, m2) && Whole(m2, n, p) && ListOk(m2, URL_LIST, len)
    requires m3 == if q == p then m2 else MovedFile(m2, n, p, n, q, ChunkCount(m2, n, p))
    ensures FilesOk(m3) && MovedTo(m1, m3, n, p, q)
    ensures ListOk(m3, URL_LIST, len) && Items(m3, URL_LIST, len) == Items(m2, URL_LIST, len)
    ensures forall a: Name, b: Name :: (a, b) != (n, p) && (a, b) != (n, q) ==> SameFile(m1, m3, a, b)
  {
    hide Encode, FilesOk, Whole, ListOk, MovedFile, SameFile, FileMoved, MovedWhole;
    assert SameFile(m1, m2, n, p);
    if q != p {
      FileMovedWhole(m2, n, p, q);
      MovedToFromSame(m1, m2, m3, n, p, q);
      MoveKeepsFiles(m2, n, p, n, q);
      MoveKeepsList(m2, m3, n, p, n, q, ChunkCount(m2, n, p), URL_LIST, len);
      forall a: Name, b: Name | (a, b) != (n, p) && (a, b) != (n, q)
        ensures SameFile(m1, m3, a, b)
      {
        SameFileTransitive(m1, m2, m3, a, b);
      }
    }
  }

  /** Adding the new URL to the list after the move. */
  lemma PushedStep(m1: Store, m3: Store, m4: Store, n: Name, p: Name, q: Name)
    requires FilesOk(m3) && MovedTo(m1, m3, n, p, q) && OnlyListChanged(m3, m4, URL_LIST)
    requires forall a: Name, b: Name :: (a, b) != (n, p) && (a, b) != (n, q) ==> SameFile(m1, m3, a, b)
    ensures FilesOk(m4) && MovedTo(m1, m4, n, p, q)
    ensures forall a: Name, b: Name :: (a, b) != (n, p) && (a, b) != (n, q) ==> SameFile(m1, m4, a, b)
  {
    hide Encode, FilesOk, MovedTo, SameFile, OnlyListChanged;
    ListKeepsFiles(m3, m4, URL_LIST);
    SameFilesOk(m3, m4);
    assert SameFile(m3, m4, n, p) && SameFile(m3, m4, n, q);
    MovedToKept(m1, m3, m4, n, p, q);
    forall a: Name, b: Name | (a, b) != (n, p) && (a, b) != (n, q)
      ensures SameFile(m1, m4, a, b)
    {
      SameFileTransitive(m1, m3, m4, a, b);
    }
  }

  // ----- Deletion -----

  /** Every chunk server of the first k copies deletes its chunk. */
  ghost predicate AllDeleted(m: Store, n: Name, p: Name, k: nat, replies: (nat, nat) -> Reply) {
    forall j: nat, i: nat :: j < k && i < ChunkCount(m, CopyOf(n, j), p) ==> DeleteAccepted(replies(j, i))
  }

  lemma NoneDeleted(m: Store, n: Name, p: Name, replies: (nat, nat) -> Reply)
    ensures AllDeleted(m, n, p, 0, replies)
  {
  }

  lemma AllDeletedNext(m: Store, n: Name, p: Name, k: nat, replies: (nat, nat) -> Reply)
    requires AllDeleted(m, n, p, k, replies)
    requires forall i: nat :: i < ChunkCount(m, CopyOf(n, k), p) ==> DeleteAccepted(replies(k, i))
    ensures AllDeleted(m, n, p, k + 1, replies)
  {
    hide Encode, ChunkCount, CopyOf, DeleteAccepted;
    forall j: nat, i: nat | j < k + 1 && i < ChunkCount(m, CopyOf(n, j), p)
      ensures DeleteAccepted(replies(j, i))
    {
    }
  }

  lemma NotAllDeleted(m: Store, n: Name, p: Name, k: nat, replies: (nat, nat) -> Reply, j: nat, i: nat)
    requires j < k && i < ChunkCount(m, CopyOf(n, j), p) && !DeleteAccepted(replies(j, i))
    ensures !AllDeleted(m, n, p, k, replies)
  {
    hide Encode, ChunkCount, CopyOf, DeleteAccepted;
  }

  /** The copies before j are deleted in m1, and chunk k of copy j is the first whose server did not delete it. */
  ghost predicate StoppedAt(m: Store, m1: Store, n: Name, p: Name, copies: nat, replies: (nat, nat) -> Reply, j: nat,
                            k: nat) {
    && j < copies && k < ChunkCount(m, CopyOf(n, j), p) == ChunkCount(m1, CopyOf(n, j), p)
    && !DeleteAccepted(replies(j, k))
    && (forall i: nat :: i < k ==> DeleteAccepted(replies(j, i))) && AllDeleted(m, n, p, j, replies)
    && FilesOk(m1) && CopiesCleared(m, m1, n, p, j)
  }

  /** A stopped deletion keeps a store in order exactly when it stopped at the first chunk of a copy. */
  lemma StoppedInOrderIff(m: Store, m1: Store, n: Name, p: Name, copies: nat, replies: (nat, nat) -> Reply, j: nat,
                          k: nat)
    requires StoppedAt(m, m1, n, p, copies, replies, j, k) && InOrder(m)
    ensures InOrder(DeletedMetas(m1, CopyOf(n, j), p, k)) <==> k == 0
  {
    hide Encode, InOrder, FilesOk, DeletedMetas, CopiesCleared, AllDeleted;
    CopiesClearedInOrder(m, m1, n, p, j);
    StoppedDeletionIff(m1, CopyOf(n, j), p, k);
  }

  /** After a deletion the next metadata appended to a copy is that of chunk 0, and the copy counts one chunk. */
  lemma DeletedStartsAgain(m: Store, m': Store, n: Name, p: Name, k: nat, j: nat, a: Place)
    requires FilesOk(m') && CopiesCleared(m, m', n, p, k) && j < k
    ensures var copy := CopyOf(n, j);
            var m2 := AppendedMeta(m', copy, p, ChunkCount(m', copy, p), a);
            && FilesOk(m2) && (InOrder(m') ==> InOrder(m2)) && ChunkCount(m2, copy, p) == 1 &&
               PlaceOf(m2, copy, p, 0) == Some(a)
            && forall i: nat :: 0 < i < ChunkCount(m, copy, p) ==> PlaceOf(m2, copy, p, i) == None
  {
    hide Encode, InOrder, AppendedMeta, PlaceOf, SameFile, OnlyMetaChanged, CopyOf;
    assert Cleared(m, m', CopyOf(n, j), p);
    AppendInOrder(m', CopyOf(n, j), p, a);
  }

  lemma UnclearedCount(m: Store, m': Store, n: Name, p: Name, k: nat)
    requires CopiesCleared(m, m', n, p, k)
    ensures ChunkCount(m', CopyOf(n, k), p) == ChunkCount(m, CopyOf(n, k), p)
    ensures forall i: nat :: PlaceOf(m', CopyOf(n, k), p, i) == PlaceOf(m, CopyOf(n, k), p, i)
    ensures Whole(m', CopyOf(n, k), p) <==> Whole(m, CopyOf(n, k), p)
  {
    hide Encode, Cleared, SameFile, CopyOf, ChunkCount, Whole;
    forall j: nat | j < k
      ensures CopyOf(n, j) != CopyOf(n, k)
    {
      if CopyOf(n, j) == CopyOf(n, k) {
        CopiesDiffer(n, j, k);
      }
    }
    PlacesKept(m, m', CopyOf(n, k), p);
  }

  /** Every counted chunk of the first k copies has metadata. */
  ghost predicate CopiesWhole(m: Store, n: Name, p: Name, k: nat) {
    forall j: nat :: j < k ==> Whole(m, CopyOf(n, j), p)
  }

  lemma AcceptedDelete(r: Reply)
    ensures DeleteAccepted(r) ==> r != Refused
    ensures !DeleteAccepted(r) ==> r != Answer(129, "true")
  {
  }

  lemma NothingDeleted(m: Store, n: Name, p: Name)
    ensures DeletedMetas(m, n, p, 0) == m
  {
  }

  lemma OneMoreDeleted(m: Store, n: Name, p: Name, k: nat)
    ensures DeletedMetas(m, n, p, k + 1) == DeletedMetas(m, n, p, k) - MetaKeys(n, p, k)
  {
  }

  /** The next chunk to delete still has all its metadata, and the count can still be read. */
  lemma NextDeletable(m: Store, n: Name, p: Name, k: nat)
    requires FilesOk(m) && Whole(m, n, p) && k < ChunkCount(m, n, p)
    ensures var m' := DeletedMetas(m, n, p, k);
            && CountReadable(m', n, p) && ChunkCount(m', n, p) == ChunkCount(m, n, p)
            && Readable(MetaRead(m', n, p, k)) && |MetaRead(m', n, p, k)| == 3
            && Stoi(MetaRead(m', n, p, k)[1]).Some?
            && JoinServer(MetaRead(m', n, p, k)[0], Stoi(MetaRead(m', n, p, k)[1]).value) == ServerOf(m, n, p, k)
  {
    hide Encode, DeletedMetas, PlaceOf, ChunkOk, SameFile, MetaKeys;
    assert PlaceOf(m, n, p, k).Some?;
    StoiToString(PlaceOf(m, n, p, k).value.port);
    var m' := DeletedMetas(m, n, p, k);
    DeleteMetas(m, n, p, k);
    CountsReadable(m, n, p);
    assert Same(m, m', CountKey(n, p)) && FileOk(m, n, p);
    assert SameChunk(m, m', n, p, k);
    SameChunkOk(m, m', n, p, k);
    ChunkOkMovable(m', n, p, k);
  }

  lemma DeletedKeepsList(m: Store, n: Name, p: Name, k: nat, len: nat)
    requires ListOk(m, URL_LIST, len)
    ensures var m' := DeletedMetas(m, n, p, k);
            ListOk(m', URL_LIST, len) && Items(m', URL_LIST, len) == Items(m, URL_LIST, len)
  {
    hide Encode, DeletedMetas, ListOk, Items;
    DeleteMetas(m, n, p, k);
    KeysKeepList(m, DeletedMetas(m, n, p, k), URL_LIST, len);
  }

  /** All metadata of a file deleted, its URL taken out of the list, and its count set to 0. */
  lemma ClearedStep(m0: Store, m1: Store, m2: Store, n: Name, p: Name, len: nat)
    requires FilesOk(m0) && m1 == DeletedMetas(m0, n, p, ChunkCount(m0, n, p))
    requires OnlyListChanged(m1, m2, URL_LIST) && ListOk(m2, URL_LIST, len)
    ensures var m3 := m2[CountKey(n, p) := Dec(0)];
            && Cleared(m0, m3, n, p) && FilesOk(m3)
            && ListOk(m3, URL_LIST, len) && Items(m3, URL_LIST, len) == Items(m2, URL_LIST, len)
            && forall a: Name, b: Name :: (a, b) != (n, p) ==> SameFile(m0, m3, a, b)
  {
    hide Encode, Cleared, FilesOk, DeletedMetas, OnlyListChanged, ListOk, Items, SameFile, MetasGone, CountKey;
    var c, m3 := ChunkCount(m0, n, p), m2[CountKey(n, p) := Dec(0)];
    DeleteMetas(m0, n, p, c);
    ListKeepsFiles(m1, m2, URL_LIST);
    MetasGoneKept(m0, m1, m2, n, p, c);
    ClearFile(m0, m2, n, p);
    CountKeepsList(m2, n, p, len);
  }

  lemma CountKeepsList(m: Store, n: Name, p: Name, len: nat)
    requires ListOk(m, URL_LIST, len)
    ensures var m' := m[CountKey(n, p) := Dec(0)];
            ListOk(m', URL_LIST, len) && Items(m', URL_LIST, len) == Items(m, URL_LIST, len)
  {
    hide Encode, Decode, ListOk, Items;
    EncodeDecode();
    var m' := m[CountKey(n, p) := Dec(0)];
    forall k: Key | k.ListLength? || k.ListSlot?
      ensures Same(m, m', Encode(k))
    {
      assert Decode(Encode(k)) != Decode(CountKey(n, p));
    }
    KeysKeepList(m, m', URL_LIST, len);
  }
}
