/** How an upload is received, cut, sent on and recorded (src/core/master_server, the first part of deal_with_104). */
module Uploads {
  import opened Text
  import opened Keys
  import opened Database
  import opened FileStore
  import opened MasterStore
  import opened Namespace
  import opened MetaData
  import opened Segments
  import opened Placement
  import opened Servers
  import opened ChunkServer

  // ----- Messages -----

  datatype Message = NoMessage | Message(bit: int, data: string)

  function DataOf(m: Message): string {
    match m
    case NoMessage => ""
    case Message(_, d) => d
  }

  /** The data fields of a first message and those after it. */
  function Stream(first: string, rest: seq<Message>): (r: seq<string>)
    ensures |r| == |rest| + 1 && r[0] == first && forall i :: 0 < i < |r| ==> r[i] == DataOf(rest[i - 1])
  {
    [first] + seq(|rest|, i requires 0 <= i < |rest| => DataOf(rest[i]))
  }

  datatype UploadEnd = Finished | NoFile | NoPackage | WrongBit | Leased

  const FILE_END: string := "file End"

  /** The server chosen for chunk i: the first is given, the others are the random choices in order. */
  function ServerAt(first: ServerInfo, choose: nat -> ServerInfo, i: nat): ServerInfo {
    if i == 0 then first else choose(i - 1)
  }

  function UrlsOf(first: ServerInfo, choose: nat -> ServerInfo, k: nat): (r: seq<string>)
    ensures |r| == k && forall i :: 0 <= i < k ==> r[i] == ServerUrl(ServerAt(first, choose, i))
  {
    seq(k, i requires 0 <= i => ServerUrl(ServerAt(first, choose, i)))
  }

  function PlacesOf(first: ServerInfo, choose: nat -> ServerInfo, k: nat): (r: seq<Place>)
    ensures |r| == k && forall i :: 0 <= i < k ==> r[i] == PlaceFor(ServerAt(first, choose, i))
  {
    seq(k, i requires 0 <= i => PlaceFor(ServerAt(first, choose, i)))
  }

  /** Segments under construction: the closed ones are full, the open one was not before its last package. */
  predicate Cutting(segs: seq<seq<string>>, open: seq<string>, sum: nat, max: nat) {
    && sum == Size(open)
    && (forall i :: 0 <= i < |segs| ==> Full(segs[i], max))
    && (open != [] ==> Size(open[..|open| - 1]) < max)
  }

  // ----- What is stored of the packages -----

  /** A package as often as it was stored: it is sent again until its reply arrives. */
  function Again(p: string, times: nat): (r: seq<string>)
    ensures |r| == times + 1 && forall i :: 0 <= i < |r| ==> r[i] == p
  {
    seq(times + 1, _ => p)
  }

  /** Packages from the one with number `from` on, when package t was stored lost(t) times without its reply arriving.
      */
  function Repeated(ps: seq<string>, from: nat, lost: nat -> nat): seq<string>
    decreases |ps|
  {
    if ps == [] then []
    else var i := |ps| - 1; Repeated(ps[..i], from, lost) + Again(ps[i], lost(from + i))
  }

  function RepeatedAll(segs: seq<seq<string>>, lost: nat -> nat): (r: seq<seq<string>>)
    ensures |r| == |segs|
    decreases |segs|
  {
    if segs == [] then []
    else var k := |segs| - 1; RepeatedAll(segs[..k], lost) + [Repeated(segs[k], |Flatten(segs[..k])|, lost)]
  }

  lemma RepeatedNext(ps: seq<string>, p: string, from: nat, lost: nat -> nat)
    ensures Repeated(ps + [p], from, lost) == Repeated(ps, from, lost) + Again(p, lost(from + |ps|))
  {
    assert (ps + [p])[..|ps|] == ps;
  }

  lemma RepeatedAllNext(segs: seq<seq<string>>, seg: seq<string>, lost: nat -> nat)
    ensures RepeatedAll(segs + [seg], lost) == RepeatedAll(segs, lost) + [Repeated(seg, |Flatten(segs)|, lost)]
  {
    assert (segs + [seg])[..|segs|] == segs;
  }

  /** No package was stored twice. */
  ghost predicate NoneLost(lost: nat -> nat, from: nat, to: nat) {
    forall t: nat :: from <= t < to ==> lost(t) == 0
  }

  lemma {:induction false} RepeatedOnce(ps: seq<string>, from: nat, lost: nat -> nat)
    ensures |Repeated(ps, from, lost)| >= |ps|
    ensures forall i :: 0 <= i < |Repeated(ps, from, lost)| ==> Repeated(ps, from, lost)[i] in ps
    ensures |Repeated(ps, from, lost)| == |ps| <==> NoneLost(lost, from, from + |ps|)
    ensures NoneLost(lost, from, from + |ps|) ==> Repeated(ps, from, lost) == ps
    decreases |ps|
  {
    if ps != [] {
      var k := |ps| - 1;
      RepeatedOnce(ps[..k], from, lost);
      assert ps == ps[..k] + [ps[k]];
    }
  }

  lemma NothingRepeated(ps: seq<string>, from: nat, lost: nat -> nat)
    ensures ps == [] ==> Repeated(ps, from, lost) == []
  {
  }

  /** What is stored are the segments exactly when nothing is stored twice. */
  lemma {:induction false} RepeatedAllOnce(segs: seq<seq<string>>, lost: nat -> nat)
    ensures forall k :: 0 <= k < |segs| ==>
              && (RepeatedAll(segs, lost)[k] == [] <==> segs[k] == [])
              && forall i :: 0 <= i < |RepeatedAll(segs, lost)[k]| ==> RepeatedAll(segs, lost)[k][i] in segs[k]
    ensures RepeatedAll(segs, lost) == segs <==> NoneLost(lost, 0, |Flatten(segs)|)
    decreases |segs|
  {
    hide Repeated, NoneLost;
    if segs == [] {
      assert NoneLost(lost, 0, 0) by { NoneLostSplit(lost, 0, 0, 0); }
    } else {
      var k := |segs| - 1;
      var init, from := segs[..k], |Flatten(segs[..k])|;
      assert segs == init + [segs[k]];
      RepeatedAllOnce(init, lost);
      RepeatedOnce(segs[k], from, lost);
      NoneLostSplit(lost, 0, from, from + |segs[k]|);
      var r := RepeatedAll(segs, lost);
      assert r == RepeatedAll(init, lost) + [Repeated(segs[k], from, lost)];
      forall j | 0 <= j < |segs|
        ensures r[j] == [] <==> segs[j] == []
        ensures forall i :: 0 <= i < |r[j]| ==> r[j][i] in segs[j]
      {
        if j < k {
          assert segs[j] == init[j] && r[j] == RepeatedAll(init, lost)[j];
        } else if segs[k] == [] {
          assert |r[k]| == 0 by { NothingRepeated(segs[k], from, lost); }
        }
      }
    }
  }

  lemma NoneLostSplit(lost: nat -> nat, a: nat, b: nat, c: nat)
    requires a <= b <= c
    ensures NoneLost(lost, a, c) <==> NoneLost(lost, a, b) && NoneLost(lost, b, c)
    ensures NoneLost(lost, a, a)
  {
  }

  function SentSoFar(segs: seq<seq<string>>, open: seq<string>, first: ServerInfo, choose: nat -> ServerInfo,
                     lost: nat -> nat): seq<Send> {
    var k := |segs|;
    AllSends(RepeatedAll(segs, lost), UrlsOf(first, choose, k)) +
    SegmentSends(Repeated(open, |Flatten(segs)|, lost), ServerUrl(ServerAt(first, choose, k)), k)
  }

  /** The packages of chunk 0 go to the first server, and those of chunk c > 0 to the choice made after chunk c - 1; if
      none is sent again, they are sent just as they came. */
  lemma SentInOrder(segs: seq<seq<string>>, open: seq<string>, first: ServerInfo, choose: nat -> ServerInfo,
                  lost: nat -> nat)
    ensures var sent := SentSoFar(segs, open, first, choose, lost);
            forall i :: 0 <= i < |sent| ==>
              && sent[i].index <= |segs|
              && sent[i].server == ServerUrl(if sent[i].index == 0 then first else choose(sent[i].index - 1))
    ensures var sent, all := SentSoFar(segs, open, first, choose, lost), Flatten(segs) + open;
            NoneLost(lost, 0, |all|) ==> |sent| == |all| && forall i :: 0 <= i < |all| ==> sent[i].data == all[i]
  {
    hide ServerUrl, AllSends, RepeatedAll, Repeated, NoneLost;
    var k, stored := |segs|, RepeatedAll(segs, lost);
    AllSendsTo(stored, UrlsOf(first, choose, k));
    NoneLostSplit(lost, 0, |Flatten(segs)|, |Flatten(segs)| + |open|);
    RepeatedAllOnce(segs, lost);
    RepeatedOnce(open, |Flatten(segs)|, lost);
    AllSendsData(stored, UrlsOf(first, choose, k));
  }

  lemma SendNext(segs: seq<seq<string>>, open: seq<string>, first: ServerInfo, choose: nat -> ServerInfo,
                 lost: nat -> nat, data: string)
    ensures SentSoFar(segs, open + [data], first, choose, lost) ==
            SentSoFar(segs, open, first, choose, lost) +
            SegmentSends(Again(data, lost(|Flatten(segs)| + |open|)), ServerUrl(ServerAt(first, choose, |segs|)),
              |segs|)
  {
    hide AllSends, RepeatedAll, Repeated, ServerUrl, ServerAt, Flatten, Again, SegmentSends, UrlsOf;
    var url, from := ServerUrl(ServerAt(first, choose, |segs|)), |Flatten(segs)|;
    RepeatedNext(open, data, from, lost);
    SegmentSendsNext(Repeated(open, from, lost), Again(data, lost(from + |open|)), url, |segs|);
    AppendTwice(AllSends(RepeatedAll(segs, lost), UrlsOf(first, choose, |segs|)),
                SegmentSends(Repeated(open, from, lost), url, |segs|),
                SegmentSends(Again(data, lost(from + |open|)), url, |segs|));
  }

  lemma AppendTwice(a: seq<Send>, b: seq<Send>, c: seq<Send>)
    ensures a + (b + c) == a + b + c
  {
  }

  lemma SegmentSendsNext(a: seq<string>, b: seq<string>, url: string, k: nat)
    ensures SegmentSends(a + b, url, k) == SegmentSends(a, url, k) + SegmentSends(b, url, k)
  {
  }

  lemma CloseSegment(segs: seq<seq<string>>, open: seq<string>, first: ServerInfo, choose: nat -> ServerInfo,
                     lost: nat -> nat)
    ensures SentSoFar(segs + [open], [], first, choose, lost) == SentSoFar(segs, open, first, choose, lost)
  {
    hide AllSends, Repeated, ServerUrl, ServerAt, Flatten;
    NothingRepeated([], |Flatten(segs + [open])|, lost);
    var k := |segs|;
    var url := ServerUrl(ServerAt(first, choose, k));
    assert UrlsOf(first, choose, k + 1) == UrlsOf(first, choose, k) + [url];
    RepeatedAllNext(segs, open, lost);
    AllSendsNext(RepeatedAll(segs, lost), UrlsOf(first, choose, k), Repeated(open, |Flatten(segs)|, lost), url);
    var all := AllSends(RepeatedAll(segs + [open], lost), UrlsOf(first, choose, k + 1));
    assert SegmentSends([], ServerUrl(ServerAt(first, choose, k + 1)), k + 1) == [];
    assert all + [] == all;
  }

  /** The state of an upload after `pos` packages, `open` being those of the chunk not yet ended. */
  ghost predicate Uploading(stream: seq<string>, pos: nat, segs: seq<seq<string>>, open: seq<string>, sum: nat,
                            max: nat, sent: seq<Send>, first: ServerInfo, choose: nat -> ServerInfo,
                            lost: nat -> nat) {
    && pos <= |stream| && Flatten(segs) + open == stream[..pos] && FILE_END !in stream[..pos]
    && Cutting(segs, open, sum, max)
    && sent == SentSoFar(segs, open, first, choose, lost)
  }

  /** The recorded side of an upload after k closed chunks: their places, and the file's URL in the list. */
  ghost predicate RecordedChunks(m0: Store, m: Store, items0: seq<string>, items: seq<string>, n: Name, p: Name,
                                 first: ServerInfo, choose: nat -> ServerInfo, k: nat) {
    && Grown(m0, m, n, p, PlacesOf(first, choose, k))
    && items == if k == 0 then items0 else Added(items0, CountKey(n, p))
  }

  lemma RecordedNext(m0: Store, m: Store, m': Store, items0: seq<string>, items: seq<string>, n: Name, p: Name,
                     first: ServerInfo, choose: nat -> ServerInfo, k: nat)
    requires RecordedChunks(m0, m, items0, items, n, p, first, choose, k)
    requires Grown(m0, m', n, p, PlacesOf(first, choose, k) + [PlaceFor(ServerAt(first, choose, k))])
    ensures RecordedChunks(m0, m', items0, Added(items, CountKey(n, p)), n, p, first, choose, k + 1)
  {
    hide Encode, Grown;
    assert PlacesOf(first, choose, k + 1) == PlacesOf(first, choose, k) + [PlaceFor(ServerAt(first, choose, k))];
  }

  lemma UploadStart(stream: seq<string>, max: nat, first: ServerInfo, choose: nat -> ServerInfo, lost: nat -> nat)
    ensures Uploading(stream, 0, [], [], 0, max, [], first, choose, lost)
  {
    assert SegmentSends([], ServerUrl(ServerAt(first, choose, 0)), 0) == [];
  }

  /** What was received by the end of an upload is a prefix of the messages that holds no end mark, all of it sent on in
      segments; the upload finishes at the end mark, with a greedy segmentation, and the other ends have their
      causes. */
  ghost predicate UploadResult(end: UploadEnd, segs: seq<seq<string>>, open: seq<string>, data0: string,
                               rest: seq<Message>, max: nat) {
    var stream := Flatten(segs) + open;
    && stream <= Stream(data0, rest) && FILE_END !in stream
    && (end == Finished ==> open == [] && Greedy(segs, max) && stream + [FILE_END] <= Stream(data0, rest))
    && (end == Leased ==> stream == [])
    && (end != Finished ==> forall i :: 0 <= i < |segs| ==> Full(segs[i], max))
    && (end == NoFile ==> stream == [] && (max == 0 || data0 == FILE_END))
    && (end == NoPackage ==> 0 < |stream| && (|stream| > |rest| || rest[|stream| - 1] == NoMessage))
    && (end == WrongBit ==> 0 < |stream| <= |rest| && rest[|stream| - 1].Message? && rest[|stream| - 1].bit != 104)
  }

  lemma NothingUploaded(m: Store, n: Name, p: Name, data0: string, rest: seq<Message>, max: nat, first: ServerInfo,
                        choose: nat -> ServerInfo, lost: nat -> nat)
    ensures UploadResult(Leased, [], [], data0, rest, max) && SentSoFar([], [], first, choose, lost) == []
    ensures forall a: Name, b: Name :: SameFile(m, m, a, b)
  {
    assert SegmentSends([], ServerUrl(ServerAt(first, choose, 0)), 0) == [];
  }

  lemma UploadStopped(end: UploadEnd, data0: string, rest: seq<Message>, pos: nat, segs: seq<seq<string>>,
                      open: seq<string>, sum: nat, max: nat, sent: seq<Send>, first: ServerInfo,
                      choose: nat -> ServerInfo, lost: nat -> nat)
    requires Uploading(Stream(data0, rest), pos, segs, open, sum, max, sent, first, choose, lost) && end != Finished
    requires if pos == 0 then end == NoFile && (max == 0 || data0 == FILE_END)
             else pos - 1 <= |rest| && end == NextEnd(rest, pos - 1)
    ensures UploadResult(end, segs, open, data0, rest, max) && sent == SentSoFar(segs, open, first, choose, lost)
  {
    hide Stream, Flatten, SentSoFar, Full, Size;
  }

  lemma UploadFinished(data0: string, rest: seq<Message>, pos: nat, segs: seq<seq<string>>, max: nat)
    requires pos <= |rest| && Stream(data0, rest)[pos] == FILE_END && Greedy(segs, max)
    requires Flatten(segs) + [] == Stream(data0, rest)[..pos] && FILE_END !in Stream(data0, rest)[..pos]
    ensures UploadResult(Finished, segs, [], data0, rest, max)
  {
    hide Stream, Flatten, Greedy;
    var stream := Stream(data0, rest);
    assert stream[..pos] + [FILE_END] == stream[..pos + 1];
  }

  /** What the messages, the places recorded and the segments are, in so many words. */
  lemma UploadSays(m0: Store, m: Store, items0: seq<string>, items: seq<string>, n: Name, p: Name, end: UploadEnd,
                   segs: seq<seq<string>>, open: seq<string>, data0: string, rest: seq<Message>, max: nat,
                   sent: seq<Send>, first: ServerInfo, choose: nat -> ServerInfo, lost: nat -> nat)
    requires RecordedChunks(m0, m, items0, items, n, p, first, choose, |segs|)
    requires UploadResult(end, segs, open, data0, rest, max) && sent == SentSoFar(segs, open, first, choose, lost)
    ensures forall i :: 0 <= i < |sent| ==>
              && sent[i].index <= |segs|
              && sent[i].server == ServerUrl(if sent[i].index == 0 then first else choose(sent[i].index - 1))
    ensures var c := ChunkCount(m0, n, p);
            forall t: nat :: c <= t < c + |segs| ==>
              PlaceOf(m, n, p, t) == Some(PlaceFor(if t == c then first else choose(t - c - 1)))
    ensures forall k :: 0 <= k < |segs| && (end == Finished ==> k < |segs| - 1) ==>
              segs[k] != [] && Size(segs[k]) >= max && Size(segs[k][..|segs[k]| - 1]) < max
    ensures end == Finished ==> segs != [] && Size(segs[|segs| - 1]) < max
    ensures end == Finished ==> Flatten(segs) + ["file End"] <= Stream(data0, rest) && "file End" !in Flatten(segs)
  {
    hide UploadResult, Whole, SameFile, OnlyPlacesChanged, NoneLost, Added, CountKey, ServerAt, SentSoFar,
         RecordedChunks, Size, ServerUrl, PlaceFor, ChunkCount, PlaceOf, Stream, Flatten;
    SegmentsSay(end, segs, open, data0, rest, max);
    SentInOrder(segs, open, first, choose, lost);
    RecordedFile(m0, m, items0, items, n, p, first, choose, |segs|);
  }

  lemma SegmentsSay(end: UploadEnd, segs: seq<seq<string>>, open: seq<string>, data0: string, rest: seq<Message>,
                    max: nat)
    requires UploadResult(end, segs, open, data0, rest, max)
    ensures forall k :: 0 <= k < |segs| && (end == Finished ==> k < |segs| - 1) ==>
              segs[k] != [] && Size(segs[k]) >= max && Size(segs[k][..|segs[k]| - 1]) < max
    ensures end == Finished ==> segs != [] && Size(segs[|segs| - 1]) < max
    ensures end == Finished ==> Flatten(segs) + ["file End"] <= Stream(data0, rest) && "file End" !in Flatten(segs)
  {
    hide Size, Stream, Flatten;
    assert Flatten(segs) + [] == Flatten(segs);
  }

  /** How the loop goes on with message `pos`: it stops if there is none or if it is of the wrong kind. */
  function NextEnd(rest: seq<Message>, pos: nat): (end: UploadEnd)
    requires pos <= |rest|
    ensures end != Leased
  {
    if pos == |rest| || rest[pos] == NoMessage then NoPackage
    else if rest[pos].bit != 104 then WrongBit
    else Finished
  }

  lemma StreamNext(data0: string, rest: seq<Message>, pos: nat)
    requires pos <= |rest| && NextEnd(rest, pos) == Finished
    ensures pos < |rest| && rest[pos].Message? && Stream(data0, rest)[pos + 1] == rest[pos].data
  {
  }

  lemma UploadPackage(stream: seq<string>, pos: nat, segs: seq<seq<string>>, open: seq<string>, sum: nat, max: nat,
                      sent: seq<Send>, first: ServerInfo, choose: nat -> ServerInfo, lost: nat -> nat)
    requires Uploading(stream, pos, segs, open, sum, max, sent, first, choose, lost)
    requires pos < |stream| && stream[pos] != FILE_END && sum < max
    ensures var url := ServerUrl(ServerAt(first, choose, |segs|));
            var sent' := sent + SegmentSends(Again(stream[pos], lost(pos)), url, |segs|);
            Uploading(stream, pos + 1, segs, open + [stream[pos]], sum + |stream[pos]|, max, sent', first, choose, lost)
  {
    hide AllSends, SentSoFar, Full, Flatten, Size, RepeatedAll, Repeated;
    SizeNext(open, stream[pos]);
    SendNext(segs, open, first, choose, lost, stream[pos]);
    assert |Flatten(segs) + open| == pos;
    ReceivedNext(stream, pos, Flatten(segs), open);
    assert (open + [stream[pos]])[..|open|] == open;
  }

  lemma ReceivedNext(stream: seq<string>, pos: nat, closed: seq<string>, open: seq<string>)
    requires pos < |stream| && closed + open == stream[..pos] && FILE_END !in stream[..pos] && stream[pos] != FILE_END
    ensures closed + (open + [stream[pos]]) == stream[..pos + 1] && FILE_END !in stream[..pos + 1]
  {
    assert stream[..pos + 1] == stream[..pos] + [stream[pos]];
  }

  lemma UploadClose(stream: seq<string>, pos: nat, segs: seq<seq<string>>, open: seq<string>, sum: nat, max: nat,
                    sent: seq<Send>, first: ServerInfo, choose: nat -> ServerInfo, lost: nat -> nat)
    requires Uploading(stream, pos, segs, open, sum, max, sent, first, choose, lost)
    ensures Flatten(segs + [open]) + [] == stream[..pos] && FILE_END !in stream[..pos]
    ensures sent == SentSoFar(segs + [open], [], first, choose, lost)
    ensures sum >= max > 0 ==> Uploading(stream, pos, segs + [open], [], 0, max, sent, first, choose, lost)
    ensures sum < max ==> Greedy(segs + [open], max)
  {
    hide AllSends, SentSoFar, Flatten;
    CloseSegment(segs, open, first, choose, lost);
    FlattenNext(segs, open);
    assert Flatten(segs + [open]) + [] == Flatten(segs + [open]);
  }

  /** Every stream of upload messages that ends with the end mark is cut into its one greedy segmentation. */
  lemma UploadFinishes(end: UploadEnd, segs: seq<seq<string>>, open: seq<string>, data0: string, rest: seq<Message>,
                       max: nat, q: nat)
    requires UploadResult(end, segs, open, data0, rest, max) && max > 0 && end != Leased
    requires 0 < q <= |rest| && Stream(data0, rest)[q] == FILE_END && FILE_END !in Stream(data0, rest)[..q]
    requires forall i :: 0 <= i < q ==> rest[i].Message? && rest[i].bit == 104
    ensures end == Finished && Flatten(segs) == Stream(data0, rest)[..q] && Greedy(segs, max)
    ensures forall other: seq<seq<string>> :: Greedy(other, max) && Flatten(other) == Stream(data0, rest)[..q] ==>
              other == segs
  {
    hide Flatten, Greedy;
    var all, stream := Stream(data0, rest), Flatten(segs) + open;
    assert stream == all[..|stream|];
    assert all[0] == all[..q][0];
    if end == Finished {
      assert (stream + [FILE_END])[|stream|] == all[|stream|];
      assert Flatten(segs) + [] == Flatten(segs);
      forall other: seq<seq<string>> | Greedy(other, max) && Flatten(other) == Flatten(segs)
        ensures other == segs
      {
        GreedyUnique(other, segs, max);
      }
    }
  }

  /** The addresses of the places recorded for the first k chunks. */
  function RecordedUrls(first: ServerInfo, choose: nat -> ServerInfo, k: nat): (r: seq<string>)
    ensures |r| == k && forall i :: 0 <= i < k ==> r[i] == PlaceUrl(PlaceFor(ServerAt(first, choose, i)))
  {
    seq(k, i requires 0 <= i => PlaceUrl(PlaceFor(ServerAt(first, choose, i))))
  }

  /** Every chunk that holds packages was given to the server of chunk 0, whose port fits the 16 bits recorded of it. */
  predicate OneServer(segs: seq<seq<string>>, first: ServerInfo, choose: nat -> ServerInfo) {
    forall k :: 0 <= k < |segs| && segs[k] != [] ==>
      ServerAt(first, choose, k) == first && -TWO_TO_15 <= first.port < TWO_TO_15
  }

  lemma OneServerPlaces(segs: seq<seq<string>>, first: ServerInfo, choose: nat -> ServerInfo)
    requires Dense(segs)
    ensures InOnePlace(segs, UrlsOf(first, choose, |segs|), RecordedUrls(first, choose, |segs|)) <==>
            OneServer(segs, first, choose)
  {
    hide PlaceUrl, PlaceFor, JoinServer;
    assert forall k :: 0 < k < |segs| && segs[k] != [] ==> segs[0] != [];
    forall k | 0 <= k < |segs|
      ensures var s := ServerAt(first, choose, k);
              PlaceUrl(PlaceFor(s)) == ServerUrl(s) <==> -TWO_TO_15 <= s.port < TWO_TO_15
      ensures ServerUrl(ServerAt(first, choose, k)) == ServerUrl(first) <==> ServerAt(first, choose, k) == first
    {
      var s := ServerAt(first, choose, k);
      PlaceNamesServerIff(s);
      if ServerUrl(s) == ServerUrl(first) {
        JoinServerInjective(s.addr, s.port, first.addr, first.port);
      }
    }
  }

  /** Whether one who asks the servers that an uploaded file's metadata names for its chunks receives the file. */
  ghost predicate UploadReadsBack(stores: map<string, Store>, m: Store, n: Name, p: Name, segs: seq<seq<string>>,
                                  first: ServerInfo, choose: nat -> ServerInfo, lost: nat -> nat, size: nat)
    requires forall k: nat :: k < |segs| ==> PlaceOf(m, n, p, k).Some?
  {
    forall k: nat :: k < |segs| ==>
      var url := PlaceUrl(PlaceOf(m, n, p, k).value);
      var m' := StoreAfter(StoreAt(stores, url), n, p, SentSoFar(segs, [], first, choose, lost), url);
      Forwarded(Lines(ReadChunk(m', n, p, k)), size) == segs[k]
  }

  /** The metadata of a new file names the servers chosen, none of which had the file. */
  ghost predicate NewFile(stores: map<string, Store>, m: Store, n: Name, p: Name, segs: seq<seq<string>>,
                          first: ServerInfo, choose: nat -> ServerInfo) {
    forall k: nat :: k < |segs| ==>
      var a := PlaceOf(m, n, p, k);
      a == Some(PlaceFor(ServerAt(first, choose, k))) && Holds(StoreAt(stores, PlaceUrl(a.value)), n, p, [])
  }

  /** Packages that separators, the package size or the end mark do not change. */
  predicate Plain(segs: seq<seq<string>>, size: nat) {
    EachFree(segs) && EachForwardable(segs, size)
  }

  /** An uploaded file reads back in these cases, its packages being plain in all of them. If nothing was stored twice:
      exactly when all its packages went to one server whose port fits 16 bits, and no chunk begins or ends with an
      empty one. If they all went to one such server,
        and none is empty: exactly when none was stored twice. And wherever
      they went, if none is empty: exactly when what lands as each chunk on the server its metadata names,
        by the numbers
      of packages stored, is that chunk. */
  lemma UploadReadBackIff(stores: map<string, Store>, m: Store, n: Name, p: Name, segs: seq<seq<string>>, max: nat,
                          first: ServerInfo, choose: nat -> ServerInfo, lost: nat -> nat, size: nat)
    requires Greedy(segs, max) && NewFile(stores, m, n, p, segs, first, choose)
    ensures NoneLost(lost, 0, |Flatten(segs)|) ==>
              (UploadReadsBack(stores, m, n, p, segs, first, choose, lost, size) <==>
               OneServer(segs, first, choose) && Sound(segs) && Plain(segs, size))
    ensures NoBlank(segs) && OneServer(segs, first, choose) ==>
              (UploadReadsBack(stores, m, n, p, segs, first, choose, lost, size) <==>
               NoneLost(lost, 0, |Flatten(segs)|) && Plain(segs, size))
    ensures NoBlank(segs) ==>
              (UploadReadsBack(stores, m, n, p, segs, first, choose, lost, size) <==>
               Plain(segs, size) && forall k: nat :: k < |segs| ==>
                 Lands(RepeatedAll(segs, lost), UrlsOf(first, choose, |segs|),
                       PlaceUrl(PlaceFor(ServerAt(first, choose, k))), k, segs[k]))
  {
    hide InOnePlace, OneServer, Dense, Sound, ReadsBack, Lands, Greedy, NoneLost, RepeatedAll, Served, EachForwardable,
         NewFile, UploadReadsBack, PlaceUrl, PlaceFor, EachFree, NoBlank;
    var stored, servers, named :=
      RepeatedAll(segs, lost), UrlsOf(first, choose, |segs|), RecordedUrls(first, choose, |segs|);
    GreedyDense(segs, max);
    OneServerPlaces(segs, first, choose);
    RepeatedAllOnce(segs, lost);
    UploadStores(stores, m, n, p, segs, first, choose, lost, size);
    ServedIff(segs, stored, servers, named, size);
    ReadBackIff(segs, servers, named);
    assert Sound(segs) ==> EachFree(segs) by {
      if Sound(segs) {
        SoundFree(segs);
      }
    }
    if NoBlank(segs) {
      UploadRepeats(segs, lost);
      RepeatedReadBackIff(segs, stored, servers, named);
      if OneServer(segs, first, choose) {
        OnePlaceIff(segs, stored, servers, named);
      }
    }
  }

  lemma SoundFree(segs: seq<seq<string>>)
    requires Sound(segs)
    ensures EachFree(segs)
  {
  }

  lemma GreedyDense(segs: seq<seq<string>>, max: nat)
    requires Greedy(segs, max)
    ensures segs != [] && Dense(segs)
  {
  }

  lemma UploadRepeats(segs: seq<seq<string>>, lost: nat -> nat)
    requires NoBlank(segs)
    ensures Repeats(segs, RepeatedAll(segs, lost))
  {
    hide RepeatedAll;
    RepeatedAllOnce(segs, lost);
  }

  lemma UploadStores(stores: map<string, Store>, m: Store, n: Name, p: Name, segs: seq<seq<string>>,
                     first: ServerInfo, choose: nat -> ServerInfo, lost: nat -> nat, size: nat)
    requires NewFile(stores, m, n, p, segs, first, choose)
    ensures UploadReadsBack(stores, m, n, p, segs, first, choose, lost, size) <==>
            Served(segs, RepeatedAll(segs, lost), UrlsOf(first, choose, |segs|), RecordedUrls(first, choose, |segs|),
                   size)
  {
    hide AllSends, StoreAfter, ReadChunk, Holds, Lines, ServerUrl, PlaceUrl, PlaceFor, PlaceOf, StoreAt, Served,
         RepeatedAll, Repeated, Forwarded;
    var stored, servers, named :=
      RepeatedAll(segs, lost), UrlsOf(first, choose, |segs|), RecordedUrls(first, choose, |segs|);
    NothingRepeated([], |Flatten(segs)|, lost);
    assert SegmentSends([], ServerUrl(ServerAt(first, choose, |segs|)), |segs|) == [];
    assert AllSends(stored, servers) + [] == AllSends(stored, servers);
    StoresServeIff(stores, n, p, segs, stored, servers, named, size);
  }

  /** A file that had c > 0 chunks before the upload does not read back: the last new chunk with packages is not on the
      server its metadata names, if that server had no more than c chunks of the file. */
  lemma UploadAgainLost(m: Store, n: Name, p: Name, st: seq<seq<string>>, segs: seq<seq<string>>, k: nat, c: nat,
                        first: ServerInfo, choose: nat -> ServerInfo, lost: nat -> nat, url: string)
    requires Holds(m, n, p, st) && |st| <= c && c > 0 && forall i :: 0 <= i < |st| ==> st[i] != [""]
    requires k < |segs| && segs[k] != [] && NoBlank(segs) && forall j :: k < j < |segs| ==> segs[j] == []
    ensures ReadChunk(StoreAfter(m, n, p, SentSoFar(segs, [], first, choose, lost), url), n, p, c + k) == ""
  {
    hide AllSends, StoreAfter, ReadChunk, Holds, ServerUrl, RepeatedAll, Repeated, HeldBy;
    var sends := SentSoFar(segs, [], first, choose, lost);
    RepeatedAllOnce(segs, lost);
    SentUpTo(RepeatedAll(segs, lost), UrlsOf(first, choose, |segs|), k);
    NothingRepeated([], |Flatten(segs)|, lost);
    HeldUpTo(st, sends, url, k);
    StoreAfterHolds(m, n, p, st, sends, url);
    HeldChunkReads(StoreAfter(m, n, p, sends, url), n, p, HeldBy(st, sends, url), c + k);
  }

  lemma {:induction false} SentUpTo(stored: seq<seq<string>>, servers: seq<string>, top: nat)
    requires |stored| == |servers| && NoBlank(stored) && forall j :: top < j < |stored| ==> stored[j] == []
    ensures UpTo(AllSends(stored, servers), top)
    decreases |stored|
  {
    if stored != [] {
      SentUpTo(stored[..|stored| - 1], servers[..|stored| - 1], top);
    }
  }

  /** What the recorded side of an upload means: the file has a chunk for each segment, on the server that received it,
      and no other file is touched. */
  lemma RecordedFile(m0: Store, m: Store, items0: seq<string>, items: seq<string>, n: Name, p: Name,
                     first: ServerInfo, choose: nat -> ServerInfo, k: nat)
    requires RecordedChunks(m0, m, items0, items, n, p, first, choose, k)
    ensures items == if k == 0 then items0 else Added(items0, CountKey(n, p))
    ensures ChunkCount(m, n, p) == ChunkCount(m0, n, p) + k && OnlyPlacesChanged(m0, m, n, p)
    ensures var c := ChunkCount(m0, n, p);
            forall t: nat :: c <= t < c + k ==>
              PlaceOf(m, n, p, t) == Some(PlaceFor(if t == c then first else choose(t - c - 1)))
    ensures forall a: Name, b: Name :: (a, b) != (n, p) ==> SameFile(m0, m, a, b)
    ensures Whole(m0, n, p) ==> Whole(m, n, p)
  {
    hide Encode, PlaceFor, OnlyPlacesChanged, SameFile, ChunkCount, PlaceOf, Whole;
    OtherKeysKept(m0, m, n, p);
    var c := ChunkCount(m0, n, p);
    forall t: nat | c <= t < c + k
      ensures PlaceOf(m, n, p, t) == Some(PlaceFor(if t == c then first else choose(t - c - 1)))
    {
      assert PlaceOf(m, n, p, c + (t - c)) == Some(PlacesOf(first, choose, k)[t - c]);
    }
    if Whole(m0, n, p) {
      GrownWhole(m0, m, n, p, PlacesOf(first, choose, k));
    }
  }

  lemma RecordedInOrder(m0: Store, m: Store, items0: seq<string>, items: seq<string>, n: Name, p: Name,
                        first: ServerInfo, choose: nat -> ServerInfo, k: nat)
    requires RecordedChunks(m0, m, items0, items, n, p, first, choose, k) && InOrder(m0) && FilesOk(m)
    ensures InOrder(m)
  {
    hide Encode, Grown, InOrder, FilesOk;
    GrownInOrder(m0, m, n, p, PlacesOf(first, choose, k));
  }

  lemma GrownCount(m: Store, m': Store, n: Name, p: Name, places: seq<Place>)
    requires Grown(m, m', n, p, places)
    ensures ChunkCount(m', n, p) == ChunkCount(m, n, p) + |places|
  {
  }
}
