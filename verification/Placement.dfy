/** Where the packages of an uploaded file end up when its chunks are spread over several chunk servers. */
module Placement {
  import opened Text
  import opened Keys
  import opened Database
  import opened FileStore
  import opened ChunkServer
  import opened Segments

  /** One acknowledged 108 message: a package for chunk `index`, sent to a server. */
  datatype Send = Send(server: string, index: nat, data: string)

  function SegmentSends(seg: seq<string>, server: string, index: nat): (r: seq<Send>)
    ensures |r| == |seg| && forall i :: 0 <= i < |r| ==> r[i] == Send(server, index, seg[i])
  {
    seq(|seg|, i requires 0 <= i < |seg| => Send(server, index, seg[i]))
  }

  /** All messages of an upload: segment k goes to servers[k], as chunk k. */
  function AllSends(segs: seq<seq<string>>, servers: seq<string>): seq<Send>
    requires |segs| == |servers|
  {
    if segs == [] then []
    else var k := |segs| - 1; AllSends(segs[..k], servers[..k]) + SegmentSends(segs[k], servers[k], k)
  }

  lemma AllSendsNext(segs: seq<seq<string>>, servers: seq<string>, seg: seq<string>, server: string)
    requires |segs| == |servers|
    ensures AllSends(segs + [seg], servers + [server]) == AllSends(segs, servers) + SegmentSends(seg, server, |segs|)
  {
    assert (segs + [seg])[..|segs|] == segs && (servers + [server])[..|segs|] == servers;
  }

  lemma {:induction false} AllSendsTo(segs: seq<seq<string>>, servers: seq<string>)
    requires |segs| == |servers|
    ensures forall i :: 0 <= i < |AllSends(segs, servers)| ==>
              var x := AllSends(segs, servers)[i]; x.index < |segs| && x.server == servers[x.index]
  {
    if segs != [] {
      AllSendsTo(segs[..|segs| - 1], servers[..|segs| - 1]);
    }
  }

  /** The packages of the messages, in the order they are sent. */
  lemma {:induction false} AllSendsData(segs: seq<seq<string>>, servers: seq<string>)
    requires |segs| == |servers|
    ensures |AllSends(segs, servers)| == |Flatten(segs)|
    ensures forall i :: 0 <= i < |Flatten(segs)| ==> AllSends(segs, servers)[i].data == Flatten(segs)[i]
  {
    if segs != [] {
      AllSendsData(segs[..|segs| - 1], servers[..|segs| - 1]);
    }
  }

  lemma {:induction false} AllSendsOf(segs: seq<seq<string>>, servers: seq<string>, ok: string -> bool)
    requires |segs| == |servers| && forall k, i :: 0 <= k < |segs| && 0 <= i < |segs[k]| ==> ok(segs[k][i])
    ensures forall i :: 0 <= i < |AllSends(segs, servers)| ==> ok(AllSends(segs, servers)[i].data)
  {
    if segs != [] {
      AllSendsOf(segs[..|segs| - 1], servers[..|segs| - 1], ok);
    }
  }

  /** The chunks one server holds of the file after the messages, when it held `st` before. */
  function HeldBy(st: seq<seq<string>>, sends: seq<Send>, server: string): seq<seq<string>>
    decreases |sends|
  {
    if sends == [] then st
    else
      var before, last := HeldBy(st, sends[..|sends| - 1], server), sends[|sends| - 1];
      if last.server == server then Placed(before, last.index, last.data) else before
  }

  /** The store of a server after it has handled its share of the messages. */
  function StoreAfter(m: Store, n: Name, p: Name, sends: seq<Send>, server: string): Store {
    if sends == [] then m
    else
      var m', last := StoreAfter(m, n, p, sends[..|sends| - 1], server), sends[|sends| - 1];
      if last.server == server then StoredPackage(m', n, p, last.index, last.data) else m'
  }

  lemma {:induction false} StoreAfterHolds(m: Store, n: Name, p: Name, st: seq<seq<string>>, sends: seq<Send>,
                                           server: string)
    requires Holds(m, n, p, st)
    ensures Holds(StoreAfter(m, n, p, sends, server), n, p, HeldBy(st, sends, server))
    decreases |sends|
  {
    hide Holds, StoredPackage, Placed;
    if sends != [] {
      var init, last := sends[..|sends| - 1], sends[|sends| - 1];
      StoreAfterHolds(m, n, p, st, init, server);
      if last.server == server {
        StoreRefines(StoreAfter(m, n, p, init, server), n, p, HeldBy(st, init, server), last.index, last.data);
      }
    }
  }

  lemma {:induction false} StoreAfterOnlyData(m: Store, n: Name, p: Name, sends: seq<Send>, server: string)
    ensures OnlyDataChanged(m, StoreAfter(m, n, p, sends, server), n, p)
  {
    hide StoredPackage, OnlyDataChanged;
    if sends == [] {
      assert OnlyDataChanged(m, m, n, p) by { NoDataChanged(m, n, p); }
    } else {
      var last := sends[|sends| - 1];
      StoreAfterOnlyData(m, n, p, sends[..|sends| - 1], server);
      StoredOnlyData(m, StoreAfter(m, n, p, sends[..|sends| - 1], server), n, p, last.index, last.data);
    }
  }

  lemma NoDataChanged(m: Store, n: Name, p: Name)
    ensures OnlyDataChanged(m, m, n, p)
  {
  }

  /** The messages of an upload leave every other file of the server as it was. */
  lemma OtherFileAfter(m: Store, n: Name, p: Name, sends: seq<Send>, server: string, a: Name, b: Name,
                       st: seq<seq<string>>)
    requires (a, b) != (n, p) && Holds(m, a, b, st)
    ensures Holds(StoreAfter(m, n, p, sends, server), a, b, st)
  {
    hide Holds, StoreAfter, OnlyDataChanged;
    StoreAfterOnlyData(m, n, p, sends, server);
    OtherFileHeld(m, StoreAfter(m, n, p, sends, server), n, p, a, b, st);
  }

  /** The packages a server holds as chunk k. */
  function ReadBack(st: seq<seq<string>>, k: nat): seq<string> {
    if k < |st| then st[k] else []
  }

  /** The packages it returns for chunk k. */
  function ReadLines(st: seq<seq<string>>, k: nat): seq<string> {
    Lines(Join(ReadBack(st, k), '|'))
  }

  // ----- What a server holds was sent to it -----

  /** Every chunk has packages, and if the first of them is empty it has no other. */
  ghost predicate Shaped(st: seq<seq<string>>) {
    forall i :: 0 <= i < |st| ==> st[i] != [] && (st[i][0] == "" ==> |st[i]| == 1)
  }

  lemma {:induction false} HeldShaped(st: seq<seq<string>>, sends: seq<Send>, server: string)
    requires Shaped(st)
    ensures Shaped(HeldBy(st, sends, server))
    decreases |sends|
  {
    if sends != [] {
      HeldShaped(st, sends[..|sends| - 1], server);
      var before := HeldBy(st, sends[..|sends| - 1], server);
      forall i | 0 <= i < |before| && before[i] != [""]
        ensures before[i][0] != ""
      {
        assert |before[i]| == 1 ==> before[i] == [before[i][0]];
      }
    }
  }

  ghost predicate EachHeld(st: seq<seq<string>>, ok: string -> bool) {
    forall k, i :: 0 <= k < |st| && 0 <= i < |st[k]| ==> ok(st[k][i])
  }

  lemma {:induction false} HeldOf(sends: seq<Send>, server: string, ok: string -> bool)
    requires forall i :: 0 <= i < |sends| ==> ok(sends[i].data)
    ensures EachHeld(HeldBy([], sends, server), ok)
    decreases |sends|
  {
    if sends != [] {
      HeldOf(sends[..|sends| - 1], server, ok);
    }
  }

  lemma {:induction false} HeldSegment(st: seq<seq<string>>, sends: seq<Send>, seg: seq<string>, to: string, index: nat,
                                       server: string)
    ensures var before := HeldBy(st, sends, server);
            HeldBy(st, sends + SegmentSends(seg, to, index), server) ==
            if to == server then PlacedAll(before, index, seg) else before
    decreases |seg|
  {
    hide Placed;
    var all := sends + SegmentSends(seg, to, index);
    if seg == [] {
      assert all == sends;
    } else {
      HeldSegment(st, sends, seg[..|seg| - 1], to, index, server);
      assert all[..|all| - 1] == sends + SegmentSends(seg[..|seg| - 1], to, index);
      assert all[|all| - 1] == Send(to, index, seg[|seg| - 1]);
    }
  }

  /** What a server holds after one segment more. */
  lemma HeldNext(segs: seq<seq<string>>, servers: seq<string>, server: string)
    requires |segs| == |servers| > 0
    ensures var k := |segs| - 1;
            var before := HeldBy([], AllSends(segs[..k], servers[..k]), server);
            && Shaped(before) && NoEmptyChunk(before)
            && HeldBy([], AllSends(segs, servers), server) ==
               if servers[k] == server then Landed(before, k, segs[k]) else before
  {
    hide HeldBy, Landed;
    var k := |segs| - 1;
    var sends := AllSends(segs[..k], servers[..k]);
    HeldSegment([], sends, segs[k], servers[k], k, server);
    HeldShaped([], sends, server);
    RunLands(HeldBy([], sends, server), k, segs[k]);
  }

  // ----- Conservation: a server holds as many packages as it was sent -----

  function Total(st: seq<seq<string>>): nat {
    if st == [] then 0 else Total(st[..|st| - 1]) + |st[|st| - 1]|
  }

  lemma {:induction false} TotalPlaced(st: seq<seq<string>>, index: nat, data: string)
    ensures Total(Placed(st, index, data)) == Total(st) + 1
    decreases |st|
  {
    var r := Placed(st, index, data);
    if index < |st| && st[index] != [""] {
      if index < |st| - 1 {
        TotalPlaced(st[..|st| - 1], index, data);
        assert r[..|r| - 1] == Placed(st[..|st| - 1], index, data);
      } else {
        assert r[..|r| - 1] == st[..|st| - 1];
      }
    } else {
      assert r[..|r| - 1] == st;
    }
  }

  lemma {:induction false} TotalPlacedAll(st: seq<seq<string>>, index: nat, ps: seq<string>)
    ensures Total(PlacedAll(st, index, ps)) == Total(st) + |ps|
    decreases |ps|
  {
    hide Placed, Total;
    if ps != [] {
      TotalPlacedAll(st, index, ps[..|ps| - 1]);
      TotalPlaced(PlacedAll(st, index, ps[..|ps| - 1]), index, ps[|ps| - 1]);
    }
  }

  /** The packages of the segments placed on a server, and how many of them come back under their own index. */
  function SentTo(segs: seq<seq<string>>, servers: seq<string>, server: string): nat
    requires |segs| == |servers|
  {
    if segs == [] then 0
    else var k := |segs| - 1; SentTo(segs[..k], servers[..k], server) + if servers[k] == server then |segs[k]| else 0
  }

  lemma {:induction false} Conservation(segs: seq<seq<string>>, servers: seq<string>, server: string)
    requires |segs| == |servers|
    ensures Total(HeldBy([], AllSends(segs, servers), server)) == SentTo(segs, servers, server)
    decreases |segs|
  {
    if segs != [] {
      var k := |segs| - 1;
      var sends := AllSends(segs[..k], servers[..k]);
      Conservation(segs[..k], servers[..k], server);
      HeldSegment([], sends, segs[k], servers[k], k, server);
      TotalPlacedAll(HeldBy([], sends, server), k, segs[k]);
    }
  }

  function Prefix(st: seq<seq<string>>, k: nat): seq<seq<string>> {
    if k < |st| then st[..k] else st
  }

  lemma {:induction false} TotalPrefix(st: seq<seq<string>>, k: nat)
    ensures Total(Prefix(st, k + 1)) == Total(Prefix(st, k)) + |ReadBack(st, k)|
    ensures Total(Prefix(st, k)) <= Total(st)
    decreases |st| - k
  {
    if k < |st| {
      assert Prefix(st, k + 1)[..k] == Prefix(st, k);
      TotalPrefix(st, k + 1);
    }
  }

  /** If a server holds enough for every segment asked of it, that and a chunk 0 of which nothing is asked fit into what
      it holds. */
  lemma {:induction false} AskedFits(segs: seq<seq<string>>, named: seq<string>, server: string, st: seq<seq<string>>)
    requires |segs| == |named| > 0
    requires forall k :: 0 <= k < |segs| && named[k] == server ==> |ReadBack(st, k)| >= |segs[k]|
    ensures SentTo(segs, named, server) + (if named[0] == server && segs[0] != [] then 0 else |ReadBack(st, 0)|) <=
            Total(Prefix(st, |segs|))
    decreases |segs|
  {
    var k := |segs| - 1;
    TotalPrefix(st, k);
    if k > 0 {
      AskedFits(segs[..k], named[..k], server, st);
    } else {
      assert Prefix(st, 0) == [];
      assert SentTo(segs[..0], named[..0], server) == 0;
    }
  }

  // ----- Over all servers as much is asked for as was sent -----

  /** The names of a sequence, each once. */
  function Names(s: seq<string>): (r: seq<string>)
    ensures Distinct(r) && forall x :: x in r <==> x in s
  {
    if s == [] then []
    else
      var r, last := Names(s[..|s| - 1]), s[|s| - 1];
      assert s == s[..|s| - 1] + [last];
      if last in r then r else r + [last]
  }

  function SentToAny(segs: seq<seq<string>>, servers: seq<string>, names: seq<string>): nat
    requires |segs| == |servers|
  {
    if names == [] then 0
    else SentToAny(segs, servers, names[..|names| - 1]) + SentTo(segs, servers, names[|names| - 1])
  }

  lemma {:induction false} SentToAnyNext(segs: seq<seq<string>>, servers: seq<string>, names: seq<string>)
    requires |segs| == |servers| > 0 && Distinct(names)
    ensures var k := |segs| - 1;
            SentToAny(segs, servers, names) ==
            SentToAny(segs[..k], servers[..k], names) + if servers[k] in names then |segs[k]| else 0
    decreases |names|
  {
    if names != [] {
      var init, last := names[..|names| - 1], names[|names| - 1];
      assert names == init + [last];
      SentToAnyNext(segs, servers, init);
    }
  }

  lemma {:induction false} SentToAll(segs: seq<seq<string>>, servers: seq<string>, names: seq<string>)
    requires |segs| == |servers| && Distinct(names) && forall k :: 0 <= k < |servers| ==> servers[k] in names
    ensures SentToAny(segs, servers, names) == Total(segs)
    decreases |segs|
  {
    if segs != [] {
      SentToAll(segs[..|segs| - 1], servers[..|segs| - 1], names);
      SentToAnyNext(segs, servers, names);
    } else {
      NoneSent(servers, names);
    }
  }

  lemma {:induction false} NoneSent(servers: seq<string>, names: seq<string>)
    requires servers == []
    ensures SentToAny([], servers, names) == 0
    decreases |names|
  {
    if names != [] {
      NoneSent(servers, names[..|names| - 1]);
    }
  }

  /** If of no server more is asked than it was sent, the sums compare, strictly if they do so for some server. */
  lemma {:induction false} SentToAnyLess(segs: seq<seq<string>>, named: seq<string>, servers: seq<string>,
                                         names: seq<string>, x: string)
    requires |segs| == |servers| == |named|
    requires forall u :: u in names ==> SentTo(segs, named, u) <= SentTo(segs, servers, u)
    ensures SentToAny(segs, named, names) <= SentToAny(segs, servers, names)
    ensures x in names && SentTo(segs, named, x) < SentTo(segs, servers, x) ==>
              SentToAny(segs, named, names) < SentToAny(segs, servers, names)
    decreases |names|
  {
    if names != [] {
      var init, last := names[..|names| - 1], names[|names| - 1];
      assert names == init + [last];
      SentToAnyLess(segs, named, servers, init, x);
    }
  }

  lemma {:induction false} SentPackages(segs: seq<seq<string>>, servers: seq<string>, k: nat)
    requires |segs| == |servers| && k < |segs|
    ensures SentTo(segs, servers, servers[k]) >= |segs[k]|
  {
    var last := |segs| - 1;
    if k < last {
      SentPackages(segs[..last], servers[..last], k);
    }
  }

  /** Every server named for a segment holds as many packages at least as that segment has. */
  ghost predicate Enough(segs: seq<seq<string>>, servers: seq<string>, named: seq<string>)
    requires |segs| == |servers| == |named|
  {
    forall k :: 0 <= k < |segs| ==> |ReadBack(HeldBy([], AllSends(segs, servers), named[k]), k)| >= |segs[k]|
  }

  /** Then only the server named for segment 0 holds anything, and only if that segment has packages. */
  lemma NothingElsewhere(segs: seq<seq<string>>, servers: seq<string>, named: seq<string>, server: string)
    requires |segs| == |servers| == |named| > 0 && Enough(segs, servers, named)
    requires server != named[0] || segs[0] == []
    ensures HeldBy([], AllSends(segs, servers), server) == []
  {
    hide HeldBy, AllSends, SentTo, SentToAny, Total, ReadBack, Prefix;
    var names := Names(servers + named + [server]);
    forall u: string
      ensures SentTo(segs, named, u) +
              (if named[0] == u && segs[0] != [] then 0
               else |ReadBack(HeldBy([], AllSends(segs, servers), u), 0)|) <= SentTo(segs, servers, u)
    {
      var st := HeldBy([], AllSends(segs, servers), u);
      AskedFits(segs, named, u, st);
      TotalPrefix(st, |segs|);
      Conservation(segs, servers, u);
    }
    SentToAll(segs, servers, names);
    SentToAll(segs, named, names);
    SentToAnyLess(segs, named, servers, names, server);
    FirstNotEmpty(AllSends(segs, servers), server);
  }

  /** A server that holds anything holds something as its chunk 0. */
  lemma FirstNotEmpty(sends: seq<Send>, server: string)
    requires ReadBack(HeldBy([], sends, server), 0) == []
    ensures HeldBy([], sends, server) == []
  {
    HeldShaped([], sends, server);
  }

  /** Every segment with packages was sent to the server named for it, and that is the one named for segment 0. */
  predicate InOnePlace(segs: seq<seq<string>>, servers: seq<string>, named: seq<string>)
    requires |segs| == |servers| == |named|
  {
    forall k :: 0 <= k < |segs| && segs[k] != [] ==> servers[k] == named[k] == named[0]
  }

  /** Spreading loses data: if some segment with packages is on another server than segment 0, or not where it is looked
      for, the server named for some segment holds fewer packages than that has. */
  lemma SpreadLoses(segs: seq<seq<string>>, servers: seq<string>, named: seq<string>, k: nat)
    requires |segs| == |servers| == |named| && k < |segs| && segs[k] != []
    requires !(servers[k] == named[k] == named[0])
    ensures !Enough(segs, servers, named)
  {
    hide HeldBy, AllSends, SentTo, Total;
    if Enough(segs, servers, named) {
      assert HeldBy([], AllSends(segs, servers), named[k]) != [];
      if named[k] != named[0] {
        NothingElsewhere(segs, servers, named, named[k]);
      } else {
        NothingElsewhere(segs, servers, named, servers[k]);
        Conservation(segs, servers, servers[k]);
        SentPackages(segs, servers, k);
        NoTotal();
      }
    }
  }

  lemma NoTotal()
    ensures Total([]) == 0
  {
  }

  /** No segment with packages comes behind one without. */
  predicate Dense(segs: seq<seq<string>>) {
    forall j, k :: 0 <= j < k < |segs| && segs[k] != [] ==> segs[j] != []
  }

  lemma {:induction false} SentToOne(segs: seq<seq<string>>, servers: seq<string>, u: string)
    requires |segs| == |servers| && forall k :: 0 <= k < |segs| && segs[k] != [] ==> servers[k] == u
    ensures SentTo(segs, servers, u) == Total(segs)
    decreases |segs|
  {
    if segs != [] {
      SentToOne(segs[..|segs| - 1], servers[..|segs| - 1], u);
    }
  }

  /** Chunks that hold enough for every segment, but no more in all, hold just enough for each. */
  lemma {:induction false} JustEnough(segs: seq<seq<string>>, st: seq<seq<string>>)
    requires forall k :: 0 <= k < |segs| ==> |ReadBack(st, k)| >= |segs[k]|
    ensures Total(segs) <= Total(Prefix(st, |segs|)) <= Total(st)
    ensures Total(segs) == Total(Prefix(st, |segs|)) ==> forall k :: 0 <= k < |segs| ==> |ReadBack(st, k)| == |segs[k]|
    decreases |segs|
  {
    TotalPrefix(st, |segs|);
    if segs != [] {
      var k := |segs| - 1;
      JustEnough(segs[..k], st);
      TotalPrefix(st, k);
      assert forall j :: 0 <= j < k ==> segs[..k][j] == segs[j];
    }
  }

  /** If every server named holds enough, all is in one place, without a hole, and each holds just enough. */
  lemma EnoughInOnePlace(segs: seq<seq<string>>, servers: seq<string>, named: seq<string>)
    requires |segs| == |servers| == |named| > 0 && Enough(segs, servers, named)
    ensures InOnePlace(segs, servers, named) && Dense(segs)
    ensures forall k :: 0 <= k < |segs| ==> |ReadBack(HeldBy([], AllSends(segs, servers), named[k]), k)| == |segs[k]|
  {
    hide HeldBy, AllSends, SentTo, Total;
    if !InOnePlace(segs, servers, named) {
      var k :| 0 <= k < |segs| && segs[k] != [] && !(servers[k] == named[k] == named[0]);
      SpreadLoses(segs, servers, named, k);
    }
    forall k | 0 <= k < |segs| && (named[k] != named[0] || segs[0] == [])
      ensures HeldBy([], AllSends(segs, servers), named[k]) == []
    {
      NothingElsewhere(segs, servers, named, named[k]);
    }
    if segs[0] != [] {
      var st := HeldBy([], AllSends(segs, servers), named[0]);
      Conservation(segs, servers, named[0]);
      SentToOne(segs, servers, named[0]);
      JustEnough(segs, st);
      HeldShaped([], AllSends(segs, servers), named[0]);
    }
  }

  // ----- When a file reads back -----

  /** Every segment asked for comes back from the server named for it, when the segments in `stored` were sent. */
  ghost predicate ReadsBack(asked: seq<seq<string>>, stored: seq<seq<string>>, servers: seq<string>,
                            named: seq<string>)
    requires |asked| == |named| && |stored| == |servers|
  {
    forall k :: 0 <= k < |asked| ==> ReadLines(HeldBy([], AllSends(stored, servers), named[k]), k) == asked[k]
  }

  predicate EachFree(segs: seq<seq<string>>) {
    forall k :: 0 <= k < |segs| ==> AllFree(segs[k], '|')
  }

  /** What comes back holds no separator. */
  lemma ReadsBackFree(asked: seq<seq<string>>, stored: seq<seq<string>>, servers: seq<string>, named: seq<string>)
    requires |asked| == |named| && |stored| == |servers| && ReadsBack(asked, stored, servers, named)
    ensures EachFree(asked)
  {
    hide HeldBy, AllSends, ReadBack;
    forall k | 0 <= k < |asked|
      ensures AllFree(asked[k], '|')
    {
      LinesFree(Join(ReadBack(HeldBy([], AllSends(stored, servers), named[k]), k), '|'));
    }
  }

  /** A chunk of packages without separators returns them all, an empty last one apart. */
  lemma FreeLines(st: seq<seq<string>>, k: nat)
    requires EachHeld(st, d => Free(d, '|'))
    ensures ReadBack(st, k) == [] ==> ReadLines(st, k) == []
    ensures ReadBack(st, k) != [] ==>
              var ps := ReadBack(st, k);
              ReadLines(st, k) == if ps[|ps| - 1] == "" then ps[..|ps| - 1] else ps
  {
    hide Lines;
    assert Lines("") == [] by { NoLines(); }
    if ReadBack(st, k) != [] {
      LinesOfJoined(ReadBack(st, k));
    }
  }

  lemma NoLines()
    ensures Lines("") == []
  {
  }

  lemma HeldFree(segs: seq<seq<string>>, servers: seq<string>, server: string)
    requires |segs| == |servers| && EachFree(segs)
    ensures EachHeld(HeldBy([], AllSends(segs, servers), server), d => Free(d, '|'))
  {
    hide HeldBy, AllSends;
    AllSendsOf(segs, servers, d => Free(d, '|'));
    HeldOf(AllSends(segs, servers), server, d => Free(d, '|'));
  }

  /** Every segment with packages begins and ends with one that is not empty, and none of its packages holds a
      separator. */
  predicate Sound(segs: seq<seq<string>>) {
    EachFree(segs) && forall k :: 0 <= k < |segs| && segs[k] != [] ==> segs[k][0] != "" && segs[k][|segs[k]| - 1] != ""
  }

  /** The server w that all segments with packages go to holds them under their own indices, any other server
      nothing. */
  lemma {:induction false} OneServerHolds(segs: seq<seq<string>>, servers: seq<string>, w: string, server: string)
    requires |segs| == |servers| && Dense(segs)
    requires forall k :: 0 <= k < |segs| && segs[k] != [] ==> servers[k] == w && segs[k][0] != ""
    ensures var st := HeldBy([], AllSends(segs, servers), server);
            if server != w then st == []
            else |st| <= |segs| && forall k :: 0 <= k < |segs| ==> ReadBack(st, k) == segs[k]
    decreases |segs|
  {
    hide HeldBy, AllSends, Landed;
    if segs == [] {
      assert HeldBy([], AllSends(segs, servers), server) == [] by { NothingHeld(servers, server); }
    } else {
      var k := |segs| - 1;
      OneServerHolds(segs[..k], servers[..k], w, server);
      HeldNext(segs, servers, server);
      var before := HeldBy([], AllSends(segs[..k], servers[..k]), server);
      forall j | 0 <= j < k && server == w
        ensures ReadBack(before, j) == segs[j]
      {
        assert segs[..k][j] == segs[j];
      }
      if segs[k] == [] {
        LandedNothing(before, k);
      } else if server == w {
        assert k > 0 ==> segs[k - 1] != [] && |before| > k - 1;
        LandedWhole(before, segs[k]);
      }
    }
  }

  lemma NothingHeld(servers: seq<string>, server: string)
    requires servers == []
    ensures HeldBy([], AllSends([], servers), server) == []
  {
  }

  lemma LandedWhole(st: seq<seq<string>>, ps: seq<string>)
    requires ps != [] && ps[0] != ""
    ensures Landed(st, |st|, ps) == st + [ps]
  {
    assert ps[0..] == ps;
    assert st + Singles(ps[..0]) == st;
  }

  /** The main result: packages of any content sent once come back chunk by chunk from the servers named for the chunks
      exactly when every chunk that holds packages was sent to the server named for it and that is one and the same, no
      chunk with packages comes behind one without, no package holds a separator, and no chunk begins or ends with an
      empty one. */
  lemma ReadBackIff(segs: seq<seq<string>>, servers: seq<string>, named: seq<string>)
    requires |segs| == |servers| == |named| > 0
    ensures ReadsBack(segs, segs, servers, named) <==> InOnePlace(segs, servers, named) && Dense(segs) && Sound(segs)
  {
    hide InOnePlace, Dense, Sound;
    if ReadsBack(segs, segs, servers, named) {
      ReadsBackFree(segs, segs, servers, named);
      ReadsBackInOnePlace(segs, servers, named);
    }
    if InOnePlace(segs, servers, named) && Dense(segs) && Sound(segs) {
      OneServerReturns(segs, servers, named);
    }
  }

  lemma ReadsBackInOnePlace(segs: seq<seq<string>>, servers: seq<string>, named: seq<string>)
    requires |segs| == |servers| == |named| > 0 && ReadsBack(segs, segs, servers, named) && EachFree(segs)
    ensures InOnePlace(segs, servers, named) && Dense(segs) && Sound(segs)
  {
    hide HeldBy, AllSends, ReadBack, ReadLines, InOnePlace, Dense;
    forall k | 0 <= k < |segs|
      ensures var ps := ReadBack(HeldBy([], AllSends(segs, servers), named[k]), k);
              && |ps| >= |segs[k]| && (|ps| == |segs[k]| && ps != [] ==> segs[k] == ps && ps[|ps| - 1] != "")
              && (ps != [] && ps[0] == "" ==> |ps| == 1)
    {
      var st := HeldBy([], AllSends(segs, servers), named[k]);
      HeldFree(segs, servers, named[k]);
      FreeLines(st, k);
      HeldShaped([], AllSends(segs, servers), named[k]);
      ShapedChunk(st, k);
    }
    EnoughInOnePlace(segs, servers, named);
  }

  lemma ShapedChunk(st: seq<seq<string>>, k: nat)
    requires Shaped(st)
    ensures ReadBack(st, k) != [] && ReadBack(st, k)[0] == "" ==> |ReadBack(st, k)| == 1
  {
  }

  lemma OneServerReturns(segs: seq<seq<string>>, servers: seq<string>, named: seq<string>)
    requires |segs| == |servers| == |named| > 0 && InOnePlace(segs, servers, named) && Dense(segs) && Sound(segs)
    ensures ReadsBack(segs, segs, servers, named)
  {
    hide HeldBy, AllSends, Dense, Lines;
    NoLines();
    forall k | 0 <= k < |segs|
      ensures ReadLines(HeldBy([], AllSends(segs, servers), named[k]), k) == segs[k]
    {
      OneServerHolds(segs, servers, named[0], named[k]);
      if segs[k] != [] {
        LinesOfJoined(segs[k]);
      }
    }
  }

  // ----- Packages stored more than once -----

  /** What was stored of each segment are its packages, each at least once, and none of them is empty. */
  ghost predicate Repeats(segs: seq<seq<string>>, stored: seq<seq<string>>) {
    && |segs| == |stored|
    && forall k :: 0 <= k < |segs| ==>
         && (stored[k] == [] <==> segs[k] == [])
         && forall i :: 0 <= i < |stored[k]| ==> stored[k][i] != "" && stored[k][i] in segs[k]
  }

  lemma RepeatsFree(segs: seq<seq<string>>, stored: seq<seq<string>>)
    requires Repeats(segs, stored) && EachFree(segs)
    ensures EachFree(stored)
  {
    forall k, i | 0 <= k < |stored| && 0 <= i < |stored[k]|
      ensures Free(stored[k][i], '|')
    {
      assert stored[k][i] in segs[k];
    }
  }

  /** In one place, a file some packages of which may have been stored again reads back exactly when none was, and none
      holds a separator. */
  lemma OnePlaceIff(segs: seq<seq<string>>, stored: seq<seq<string>>, servers: seq<string>, named: seq<string>)
    requires |segs| == |servers| == |named| > 0 && Dense(segs) && Repeats(segs, stored)
    requires InOnePlace(segs, servers, named)
    ensures ReadsBack(segs, stored, servers, named) <==> stored == segs && EachFree(segs)
  {
    hide HeldBy, AllSends, Lines;
    NoLines();
    forall k | 0 <= k < |segs|
      ensures ReadLines(HeldBy([], AllSends(stored, servers), named[k]), k) == Lines(Join(stored[k], '|'))
    {
      OneServerHolds(stored, servers, named[0], named[k]);
    }
    if ReadsBack(segs, stored, servers, named) || EachFree(segs) {
      if ReadsBack(segs, stored, servers, named) {
        ReadsBackFree(segs, stored, servers, named);
      }
      RepeatsFree(segs, stored);
      forall k | 0 <= k < |segs|
        ensures Lines(Join(stored[k], '|')) == stored[k]
      {
        if stored[k] != [] {
          LinesOfJoined(stored[k]);
        }
      }
    }
  }

  /** How many chunks server u holds after the first j segments. */
  function Chunks(stored: seq<seq<string>>, servers: seq<string>, u: string, j: nat): (c: nat)
    requires j <= |stored| == |servers|
    ensures c <= j
  {
    if j == 0 then 0
    else
      var c := Chunks(stored, servers, u, j - 1);
      if servers[j - 1] != u then c else if c + |stored[j - 1]| < j then c + |stored[j - 1]| else j
  }

  /** Chunk t of server u comes from segment j: from its packages behind those that fill the numbers up to t if t is the
      segment's own number, and otherwise from one of those. */
  predicate MadeFrom(stored: seq<seq<string>>, servers: seq<string>, u: string, t: nat, j: nat, ps: seq<string>)
    requires j < |stored| == |servers|
  {
    var c := Chunks(stored, servers, u, j);
    && c <= t < Chunks(stored, servers, u, j + 1)
    && ps == if j == t then stored[j][t - c..] else [stored[j][t - c]]
  }

  /** Chunk t of server u is made of these packages. */
  ghost predicate Lands(stored: seq<seq<string>>, servers: seq<string>, u: string, t: nat, ps: seq<string>)
    requires |stored| == |servers|
  {
    if ps == [] then Chunks(stored, servers, u, |stored|) <= t
    else exists j :: t <= j < |stored| && MadeFrom(stored, servers, u, t, j, ps)
  }

  predicate NoBlank(segs: seq<seq<string>>) {
    forall k, i :: 0 <= k < |segs| && 0 <= i < |segs[k]| ==> segs[k][i] != ""
  }

  lemma {:induction false} HeldChunks(stored: seq<seq<string>>, servers: seq<string>, u: string, n: nat)
    requires n <= |stored| == |servers| && NoBlank(stored)
    ensures var st := HeldBy([], AllSends(stored[..n], servers[..n]), u);
            && |st| == Chunks(stored, servers, u, n)
            && (forall j: nat, t: nat, ps: seq<string> :: j < n && MadeFrom(stored, servers, u, t, j, ps) ==>
                  t <= j && t < |st| && st[t] == ps)
  {
    hide HeldBy, AllSends;
    if n == 0 {
      assert HeldBy([], AllSends(stored[..0], servers[..0]), u) == [] by { NothingHeld(servers[..0], u); }
    } else {
      HeldChunks(stored, servers, u, n - 1);
      HeldNext(stored[..n], servers[..n], u);
      assert stored[..n][..n - 1] == stored[..n - 1] && servers[..n][..n - 1] == servers[..n - 1];
    }
  }

  lemma {:induction false} ChunkMade(stored: seq<seq<string>>, servers: seq<string>, u: string, t: nat, n: nat)
      returns (j: nat)
    requires n <= |stored| == |servers| && t < Chunks(stored, servers, u, n)
    ensures j < n && Chunks(stored, servers, u, j) <= t < Chunks(stored, servers, u, j + 1)
  {
    if t < Chunks(stored, servers, u, n - 1) {
      j := ChunkMade(stored, servers, u, t, n - 1);
    } else {
      j := n - 1;
    }
  }

  /** What a server holds as chunk t is told by how many packages each segment had. */
  lemma LandsIff(stored: seq<seq<string>>, servers: seq<string>, u: string, t: nat, ps: seq<string>)
    requires |stored| == |servers| && NoBlank(stored)
    ensures ReadBack(HeldBy([], AllSends(stored, servers), u), t) == ps <==> Lands(stored, servers, u, t, ps)
  {
    hide HeldBy, AllSends, MadeFrom, Chunks;
    var n := |stored|;
    var st := HeldBy([], AllSends(stored, servers), u);
    HeldChunks(stored, servers, u, n);
    assert stored[..n] == stored && servers[..n] == servers;
    if t < |st| {
      HeldShaped([], AllSends(stored, servers), u);
      var j := ChunkMade(stored, servers, u, t, n);
      MadeOf(stored, servers, u, t, j);
    }
  }

  lemma MadeOf(stored: seq<seq<string>>, servers: seq<string>, u: string, t: nat, j: nat)
    requires j < |stored| == |servers| && Chunks(stored, servers, u, j) <= t < Chunks(stored, servers, u, j + 1)
    ensures exists ps: seq<string> :: MadeFrom(stored, servers, u, t, j, ps)
  {
    var c := Chunks(stored, servers, u, j);
    assert MadeFrom(stored, servers, u, t, j, if j == t then stored[j][t - c..] else [stored[j][t - c]]);
  }

  lemma FreeLands(stored: seq<seq<string>>, servers: seq<string>, u: string, t: nat, ps: seq<string>)
    requires |stored| == |servers| && NoBlank(stored) && EachFree(stored)
    ensures ReadLines(HeldBy([], AllSends(stored, servers), u), t) == ps <==> Lands(stored, servers, u, t, ps)
  {
    hide HeldBy, AllSends, Lands, ReadLines;
    var st := HeldBy([], AllSends(stored, servers), u);
    LandsIff(stored, servers, u, t, ps);
    HeldFree(stored, servers, u);
    FreeLines(st, t);
    AllSendsOf(stored, servers, d => d != "");
    HeldOf(AllSends(stored, servers), u, d => d != "");
  }

  /** On any servers, a file some packages of which may have been stored again reads back exactly when none holds a
      separator and what lands as each chunk on the server named for it is that chunk. */
  lemma RepeatedReadBackIff(segs: seq<seq<string>>, stored: seq<seq<string>>, servers: seq<string>, named: seq<string>)
    requires |segs| == |servers| == |named| && Repeats(segs, stored)
    ensures ReadsBack(segs, stored, servers, named) <==>
            EachFree(segs) && forall k :: 0 <= k < |segs| ==> Lands(stored, servers, named[k], k, segs[k])
  {
    hide HeldBy, AllSends, Lands, ReadLines;
    if ReadsBack(segs, stored, servers, named) {
      ReadsBackFree(segs, stored, servers, named);
    }
    if EachFree(segs) {
      RepeatsFree(segs, stored);
      forall k | 0 <= k < |segs|
        ensures ReadLines(HeldBy([], AllSends(stored, servers), named[k]), k) == segs[k] <==>
                Lands(stored, servers, named[k], k, segs[k])
      {
        FreeLands(stored, servers, named[k], k, segs[k]);
      }
    }
  }

  /** A package stored twice can make a file come back that is not in one place. */
  lemma RepeatedHelps()
    ensures var segs, stored, servers := [["a"], ["b"]], [["a"], ["b", "b"]], ["u", "v"];
            ReadsBack(segs, stored, servers, servers) && !InOnePlace(segs, servers, servers)
  {
    var segs, stored, servers := [["a"], ["b"]], [["a"], ["b", "b"]], ["u", "v"];
    hide ReadsBack, Lands;
    RepeatedReadBackIff(segs, stored, servers, servers);
    FirstLands(stored, servers);
    assert segs[1] != [] && servers[1] != servers[0];
  }

  lemma FirstLands(stored: seq<seq<string>>, servers: seq<string>)
    requires |stored| == |servers| == 2 && servers[0] != servers[1] && |stored[0]| == 1 && |stored[1]| == 2
    ensures Lands(stored, servers, servers[0], 0, stored[0]) && Lands(stored, servers, servers[1], 1, stored[1][1..])
  {
    var u, v := servers[0], servers[1];
    assert Chunks(stored, servers, u, 0) == Chunks(stored, servers, v, 1) == 0;
    assert Chunks(stored, servers, u, 1) == 1 && Chunks(stored, servers, v, 2) == 2;
    assert stored[0][0..] == stored[0];
    assert MadeFrom(stored, servers, u, 0, 0, stored[0]) && MadeFrom(stored, servers, v, 1, 1, stored[1][1..]);
  }

  // ----- What a reader receives -----

  predicate EachForwardable(segs: seq<seq<string>>, size: nat) {
    forall k :: 0 <= k < |segs| ==> Forwardable(segs[k], size)
  }

  /** Whoever asks the servers named for the chunks receives every segment. */
  ghost predicate Served(asked: seq<seq<string>>, stored: seq<seq<string>>, servers: seq<string>, named: seq<string>,
                         size: nat)
    requires |asked| == |named| && |stored| == |servers|
  {
    forall k :: 0 <= k < |asked| ==>
      Forwarded(ReadLines(HeldBy([], AllSends(stored, servers), named[k]), k), size) == asked[k]
  }

  /** That is when the servers return them and every package is sent whole and does not read as the end mark. */
  lemma ServedIff(segs: seq<seq<string>>, stored: seq<seq<string>>, servers: seq<string>, named: seq<string>,
                  size: nat)
    requires |segs| == |stored| == |servers| == |named|
    requires forall k :: 0 <= k < |segs| ==> forall i :: 0 <= i < |stored[k]| ==> stored[k][i] in segs[k]
    ensures Served(segs, stored, servers, named, size) <==>
            ReadsBack(segs, stored, servers, named) && EachForwardable(segs, size)
  {
    hide HeldBy, AllSends, ReadLines, Forwarded;
    forall k | 0 <= k < |segs|
      ensures Forwarded(segs[k], size) == segs[k] <==> Forwardable(segs[k], size)
    {
      ForwardedWhole(segs[k], size);
    }
    if Served(segs, stored, servers, named, size) {
      ServedPackages(segs, stored, servers, named, size);
      StoredOf(segs, stored, d => Fits(d, size));
      StoredOf(segs, stored, d => Free(d, '|'));
      forall k | 0 <= k < |segs|
        ensures ReadLines(HeldBy([], AllSends(stored, servers), named[k]), k) == segs[k]
      {
        LinesFit(stored, servers, named[k], k, size);
        ForwardedWhole(ReadLines(HeldBy([], AllSends(stored, servers), named[k]), k), size);
      }
    }
  }

  lemma ServedPackages(segs: seq<seq<string>>, stored: seq<seq<string>>, servers: seq<string>, named: seq<string>,
                       size: nat)
    requires |segs| == |stored| == |servers| == |named| && Served(segs, stored, servers, named, size)
    ensures EachFree(segs) && EachForwardable(segs, size)
  {
    hide HeldBy, AllSends, Forwarded;
    forall k | 0 <= k < |segs|
      ensures AllFree(segs[k], '|') && Forwardable(segs[k], size)
    {
      var st := HeldBy([], AllSends(stored, servers), named[k]);
      LinesFree(Join(ReadBack(st, k), '|'));
      ForwardedFree(ReadLines(st, k), size);
      ForwardedWhole(ReadLines(st, k), size);
    }
  }

  lemma StoredOf(segs: seq<seq<string>>, stored: seq<seq<string>>, ok: string -> bool)
    requires |segs| == |stored|
    requires forall k :: 0 <= k < |segs| ==> forall i :: 0 <= i < |stored[k]| ==> stored[k][i] in segs[k]
    requires forall k, i :: 0 <= k < |segs| && 0 <= i < |segs[k]| ==> ok(segs[k][i])
    ensures forall k, i :: 0 <= k < |stored| && 0 <= i < |stored[k]| ==> ok(stored[k][i])
  {
    forall k, i | 0 <= k < |stored| && 0 <= i < |stored[k]|
      ensures ok(stored[k][i])
    {
      assert stored[k][i] in segs[k];
    }
  }

  lemma LinesFit(stored: seq<seq<string>>, servers: seq<string>, u: string, k: nat, size: nat)
    requires |stored| == |servers| && EachFree(stored) && EachForwardable(stored, size)
    ensures Forwardable(ReadLines(HeldBy([], AllSends(stored, servers), u), k), size)
  {
    hide HeldBy, AllSends, ReadLines, Fits;
    HeldFree(stored, servers, u);
    FreeLines(HeldBy([], AllSends(stored, servers), u), k);
    AllSendsOf(stored, servers, d => Fits(d, size));
    HeldOf(AllSends(stored, servers), u, d => Fits(d, size));
  }

  // ----- The stores themselves -----

  /** The store behind an address; where no server listens nothing is stored. */
  function StoreAt(stores: map<string, Store>, url: string): Store {
    if url in stores then stores[url] else map[]
  }

  /** Through storing, joining, reading and splitting, what a store returns for a chunk are the packages held. */
  lemma StoredLines(m: Store, n: Name, p: Name, sends: seq<Send>, u: string, k: nat)
    requires Holds(m, n, p, [])
    ensures Lines(ReadChunk(StoreAfter(m, n, p, sends, u), n, p, k)) == ReadLines(HeldBy([], sends, u), k)
  {
    hide Holds, HeldBy, StoreAfter, ReadChunk, Lines;
    StoreAfterHolds(m, n, p, [], sends, u);
    HeldChunkReads(StoreAfter(m, n, p, sends, u), n, p, HeldBy([], sends, u), k);
  }

  /** Every server starts without the file and handles its share of the messages in order; those named are then asked
      for the chunks. */
  ghost predicate StoresServe(stores: map<string, Store>, n: Name, p: Name, asked: seq<seq<string>>,
                              stored: seq<seq<string>>, servers: seq<string>, named: seq<string>, size: nat)
    requires |asked| == |named| && |stored| == |servers|
  {
    forall k :: 0 <= k < |asked| ==>
      var m := StoreAfter(StoreAt(stores, named[k]), n, p, AllSends(stored, servers), named[k]);
      Forwarded(Lines(ReadChunk(m, n, p, k)), size) == asked[k]
  }

  lemma StoresServeIff(stores: map<string, Store>, n: Name, p: Name, asked: seq<seq<string>>,
                       stored: seq<seq<string>>, servers: seq<string>, named: seq<string>, size: nat)
    requires |asked| == |named| && |stored| == |servers|
    requires forall k :: 0 <= k < |named| ==> Holds(StoreAt(stores, named[k]), n, p, [])
    ensures StoresServe(stores, n, p, asked, stored, servers, named, size) <==>
            Served(asked, stored, servers, named, size)
  {
    hide Holds, HeldBy, AllSends, StoreAfter, ReadChunk, Lines, ReadLines, StoreAt, Forwarded;
    forall k | 0 <= k < |asked|
      ensures var m := StoreAfter(StoreAt(stores, named[k]), n, p, AllSends(stored, servers), named[k]);
              Lines(ReadChunk(m, n, p, k)) == ReadLines(HeldBy([], AllSends(stored, servers), named[k]), k)
    {
      StoredLines(StoreAt(stores, named[k]), n, p, AllSends(stored, servers), named[k], k);
    }
  }

  /** The main result for the stores and whoever reads from them. */
  lemma StoredReadBackIff(stores: map<string, Store>, n: Name, p: Name, segs: seq<seq<string>>, servers: seq<string>,
                          named: seq<string>, size: nat)
    requires |segs| == |servers| == |named| > 0
    requires forall k :: 0 <= k < |named| ==> Holds(StoreAt(stores, named[k]), n, p, [])
    ensures StoresServe(stores, n, p, segs, segs, servers, named, size) <==>
            InOnePlace(segs, servers, named) && Dense(segs) && Sound(segs) && EachForwardable(segs, size)
  {
    hide StoresServe, Served, ReadsBack, InOnePlace, Dense, Sound, EachForwardable;
    StoresServeIff(stores, n, p, segs, segs, servers, named, size);
    ServedIff(segs, segs, servers, named, size);
    ReadBackIff(segs, servers, named);
  }

  // ----- A file the servers have already -----

  ghost predicate UpTo(sends: seq<Send>, top: nat) {
    forall i :: 0 <= i < |sends| ==> sends[i].index <= top && sends[i].data != ""
  }

  /** Packages for chunks up to `top` make no chunk behind it. */
  lemma {:induction false} HeldUpTo(st: seq<seq<string>>, sends: seq<Send>, server: string, top: nat)
    requires UpTo(sends, top) && forall i :: 0 <= i < |st| ==> st[i] != [""]
    ensures var r := HeldBy(st, sends, server);
            (|r| <= |st| || |r| <= top + 1) && forall i :: 0 <= i < |r| ==> r[i] != [""]
    decreases |sends|
  {
    if sends != [] {
      HeldUpTo(st, sends[..|sends| - 1], server, top);
      var data := sends[|sends| - 1].data;
      assert forall ps: seq<string> :: (ps + [data])[|ps|] == data;
    }
  }
}
