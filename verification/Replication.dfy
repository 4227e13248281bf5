/** Copying a chunk from one chunk server to another through the master (src/core/master_server, sync_chunk). */
module Replication {
  import opened Text
  import opened Keys
  import opened Database
  import opened MetaData
  import opened FileStore
  import opened Files
  import opened ChunkServer
  import opened Placement

  /** A store after 108 messages for one chunk, one a package. */
  function StoreAll(m: Store, n: Name, p: Name, index: nat, ps: seq<string>): Store {
    if ps == [] then m
    else StoredPackage(StoreAll(m, n, p, index, ps[..|ps| - 1]), n, p, index, ps[|ps| - 1])
  }

  lemma StoreAllNone(m: Store, n: Name, p: Name, index: nat, ps: seq<string>)
    ensures StoreAll(m, n, p, index, ps[..0]) == m
  {
  }

  lemma StoreAllNext(m: Store, n: Name, p: Name, index: nat, ps: seq<string>, t: nat)
    requires t < |ps|
    ensures StoreAll(m, n, p, index, ps[..t + 1]) ==
            StoredPackage(StoreAll(m, n, p, index, ps[..t]), n, p, index, ps[t])
  {
    assert ps[..t + 1][..t] == ps[..t];
  }

  lemma StoredCountReadable(m: Store, n: Name, p: Name, index: nat, data: string)
    requires CountReadable(m, n, p)
    ensures CountReadable(StoredPackage(m, n, p, index, data), n, p)
  {
    hide Encode, Decode;
    EncodeDecode();
    StoiToString(ChunkCount(m, n, p) + 1);
  }

  /** What becomes of one message of the serving server: it does not arrive whole, the receiving server cannot be
      reached, that stores the package but its reply is lost, or all goes well. */
  datatype Link = Fine | NoMessage | NoConnection | ReplyLost

  /** Packages of chunk `index` of one file are sent one by one to the other file's chunk of the same index; link(t)
      says what becomes of the t-th message, the last of which is the end mark. */
  method SyncChunk(from: ChunkServer, n: Name, p: Name, index: nat, dist: ChunkServer, n': Name, p': Name,
                   link: nat -> Link)
    returns (ok: bool, t: nat)
    requires from.db != dist.db && CountReadable(from.db.m, n, p) && CountReadable(dist.db.m, n', p')
    requires n != "" && p != ""
    modifies dist.db
    ensures var sent := Forwarded(Lines(ReadChunk(from.db.m, n, p, index)), from.packageSize);
            && t <= |sent| && (forall i :: 0 <= i < t ==> link(i) == Fine)
            && (ok <==> t == |sent| && link(t) != NoMessage) && (!ok ==> link(t) != Fine)
            && var stored := if !ok && link(t) == ReplyLost && t < |sent| then t + 1 else t;
               dist.db.m == StoreAll(old(dist.db.m), n', p', index, sent[..stored])
    ensures OnlyDataChanged(old(dist.db.m), dist.db.m, n', p')
  {
    hide StoredPackage, StoreAll, ReadChunk, CountReadable, Encode, Lines, TruncateAll, UntilEnd, OnlyDataChanged, Same;
    var msgs := AskChunk(from, n, p, index);
    ghost var all := TruncateAll(Lines(ReadChunk(from.db.m, n, p, index)), from.packageSize);
    ghost var sent := UntilEnd(all);
    UntilEndOfAll(all);
    StoreAllNone(dist.db.m, n', p', index, sent);
    NoDataChanged(dist.db.m, n', p');
    t := 0;
    while true
      invariant t <= |sent| && dist.db.m == StoreAll(old(dist.db.m), n', p', index, sent[..t])
      invariant (forall i :: 0 <= i < t ==> link(i) == Fine) && CountReadable(dist.db.m, n', p')
      invariant OnlyDataChanged(old(dist.db.m), dist.db.m, n', p')
      decreases |sent| - t
    {
      if link(t) == NoMessage {
        return false, t;
      }
      if msgs[t] == "chunk end" {
        return true, t;
      }
      if link(t) == NoConnection {
        return false, t;
      }
      StoreAllNext(old(dist.db.m), n', p', index, sent, t);
      StoredCountReadable(dist.db.m, n', p', index, msgs[t]);
      StoredOnlyData(old(dist.db.m), dist.db.m, n', p', index, msgs[t]);
      var _ := dist.StorePackage(n', p', index, msgs[t]);
      if link(t) == ReplyLost {
        return false, t;
      }
      t := t + 1;
    }
  }

  /** The 110 request for a whole chunk, every package of which is acknowledged. */
  method AskChunk(from: ChunkServer, n: Name, p: Name, index: nat) returns (msgs: seq<string>)
    requires CountReadable(from.db.m, n, p) && n != "" && p != ""
    ensures msgs == TruncateAll(Lines(ReadChunk(from.db.m, n, p, index)), from.packageSize) + ["chunk end"]
  {
    hide ReadChunk;
    StoiToString(index);
    StoiToString(0);
    var threw, all, k := from.ServeChunk(n, p, [ToString(index), ToString(0)], _ => true);
    msgs := all;
    ghost var asked := Lines(ReadChunk(from.db.m, n, p, index));
    assert From(asked, 0) == asked == asked[..|asked|];
  }

  lemma UntilEndOfAll(all: seq<string>)
    ensures var sent := UntilEnd(all); |sent| <= |all| && (all + ["chunk end"])[|sent|] == "chunk end"
    ensures forall t :: 0 <= t < |UntilEnd(all)| ==> (all + ["chunk end"])[t] == UntilEnd(all)[t] != "chunk end"
  {
    var sent := UntilEnd(all);
    forall t | 0 <= t < |sent|
      ensures sent[t] != "chunk end"
    {
      assert sent[t] in sent;
    }
  }

  lemma {:induction false} StoreAllHolds(m: Store, n: Name, p: Name, st: seq<seq<string>>, index: nat, ps: seq<string>)
    requires Holds(m, n, p, st)
    ensures Holds(StoreAll(m, n, p, index, ps), n, p, PlacedAll(st, index, ps))
  {
    hide Holds, StoredPackage, Placed;
    if ps != [] {
      var init, last := ps[..|ps| - 1], ps[|ps| - 1];
      StoreAllHolds(m, n, p, st, index, init);
      StoreRefines(StoreAll(m, n, p, index, init), n, p, PlacedAll(st, index, init), index, last);
    }
  }

  lemma {:induction false} StoreAllTwice(m: Store, n: Name, p: Name, index: nat, a: seq<string>, b: seq<string>)
    ensures StoreAll(StoreAll(m, n, p, index, a), n, p, index, b) == StoreAll(m, n, p, index, a + b)
    decreases |b|
  {
    hide StoredPackage;
    if b == [] {
      assert a + b == a;
    } else {
      StoreAllTwice(m, n, p, index, a, b[..|b| - 1]);
      assert (a + b)[..|a + b| - 1] == a + b[..|b| - 1];
    }
  }

  /** The stored text of one chunk, if there is any. */
  function ChunkText(m: Store, n: Name, p: Name, index: nat): Option<string> {
    if DataKey(n, p, index) in m then Some(m[DataKey(n, p, index)]) else None
  }

  lemma HeldText(m: Store, n: Name, p: Name, st: seq<seq<string>>, index: nat)
    requires Holds(m, n, p, st)
    ensures ChunkText(m, n, p, index) == if index < |st| then Some(Join(st[index], '|')) else None
    ensures NoEmptyChunk(st)
  {
    hide Encode;
  }

  /** The text of a chunk after a run of packages for it. */
  lemma RunText(m: Store, n: Name, p: Name, st: seq<seq<string>>, index: nat, ps: seq<string>)
    requires Holds(m, n, p, st)
    ensures var text := ChunkText(StoreAll(m, n, p, index, ps), n, p, index);
            if index < |st| then text == Some(if st[index] == [""] then "" else Join(st[index] + ps, '|'))
            else
              var d := index - |st|;
              text == if |ps| <= d then None else if ps[d] == "" then Some("") else Some(Join(ps[d..], '|'))
  {
    hide Holds, StoreAll, PlacedAll, Join, ChunkText;
    HeldText(m, n, p, st, index);
    StoreAllHolds(m, n, p, st, index, ps);
    RunLands(st, index, ps);
    HeldText(StoreAll(m, n, p, index, ps), n, p, Landed(st, index, ps), index);
    JoinBlank([""]);
  }

  /** Where a text begins and ends shows in its lines. */
  lemma {:induction false} LinesEnds(t: string)
    requires t != ""
    ensures Lines(t) != [] && (Lines(t)[0] == "" <==> t[0] == '|')
    ensures t[|t| - 1] != '|' ==> Join(Lines(t), '|') == t
    decreases |t|
  {
    LineParts(t);
    if AfterLine(t) != "" {
      LinesEnds(AfterLine(t));
    }
  }

  lemma {:induction false} LineParts(t: string)
    requires t != ""
    ensures FirstLine(t) == "" <==> t[0] == '|'
    ensures t == FirstLine(t) || t == FirstLine(t) + ['|'] + AfterLine(t)
    ensures t == FirstLine(t) ==> AfterLine(t) == ""
  {
    if t[0] != '|' && t[1..] != "" {
      LineParts(t[1..]);
      assert t == [t[0]] + t[1..];
    }
  }

  lemma {:induction false} JoinedEnd(ps: seq<string>)
    requires ps != [] && ps[|ps| - 1] != "" && AllFree(ps, '|')
    ensures var t := Join(ps, '|'); t != "" && t[|t| - 1] != '|'
  {
    if |ps| > 1 {
      JoinedEnd(ps[1..]);
    }
  }

  /** Packages passed on make up the text they were split from exactly when all are forwardable and the text does not
      end with a separator. */
  lemma JoinedIsText(t: string, size: nat)
    requires t != "" && Forwarded(Lines(t), size) != []
    ensures Join(Forwarded(Lines(t), size), '|') == t <==> Forwardable(Lines(t), size) && t[|t| - 1] != '|'
  {
    hide Lines, Forwarded, Join;
    var sent := Forwarded(Lines(t), size);
    LinesFree(t);
    ForwardedFree(Lines(t), size);
    ForwardedWhole(Lines(t), size);
    LinesEnds(t);
    LinesOfJoined(sent);
    if sent[|sent| - 1] != "" {
      JoinedEnd(sent);
    }
  }

  /** A copy that reached the end is the original string for string exactly when it was made into the next free chunk,
      the text neither begins nor ends with a separator, every package fits the package size of the serving server and
      none reads as the end mark; or, in a chunk that was there before, when what stood in it and what came make up the
      original. A chunk further on never is. */
  lemma ReplicaEqualIff(m: Store, n: Name, p: Name, st: seq<seq<string>>, index: nat, size: nat,
                        m': Store, n': Name, p': Name, st': seq<seq<string>>)
    requires Holds(m, n, p, st) && index < |st| && Holds(m', n', p', st')
    ensures var text := Join(st[index], '|');
            var sent := Forwarded(Lines(ReadChunk(m, n, p, index)), size);
            && ChunkText(m, n, p, index) == Some(text)
            && (ChunkText(StoreAll(m', n', p', index, sent), n', p', index) == Some(text) <==>
                if index < |st'| then text == if st'[index] == [""] then "" else Join(st'[index] + sent, '|')
                else
                  && index == |st'| && text != "" && text[0] != '|' && text[|text| - 1] != '|'
                  && Forwardable(Lines(text), size))
  {
    hide Holds, StoreAll, ReadChunk, Lines, ChunkText, Forwarded, Forwardable, Join;
    var text := Join(st[index], '|');
    HeldChunkReads(m, n, p, st, index);
    HeldText(m, n, p, st, index);
    var ls, sent := Lines(text), Forwarded(Lines(text), size);
    RunText(m', n', p', st', index, sent);
    ForwardedWhole(ls, size);
    if text == "" {
      NoLines();
    } else {
      LinesEnds(text);
      if sent != [] {
        JoinedIsText(text, size);
      }
      if index > |st'| && |sent| > index - |st'| {
        LinesFree(text);
        ForwardedFree(ls, size);
        LinesOfJoined(sent[index - |st'|..]);
      }
      assert index == |st'| ==> sent[0..] == sent;
    }
  }

  // ----- Retries -----

  /** The packages stored by attempts that stopped after ts[0], ts[1], ... of them. */
  function Partial(ps: seq<string>, ts: seq<nat>): seq<string>
    requires forall i :: 0 <= i < |ts| ==> ts[i] <= |ps|
    decreases |ts|
  {
    if ts == [] then [] else Partial(ps, ts[..|ts| - 1]) + ps[..ts[|ts| - 1]]
  }

  function StoreAttempts(m: Store, n: Name, p: Name, index: nat, ps: seq<string>, ts: seq<nat>): Store
    requires forall i :: 0 <= i < |ts| ==> ts[i] <= |ps|
    decreases |ts|
  {
    if ts == [] then m
    else StoreAll(StoreAttempts(m, n, p, index, ps, ts[..|ts| - 1]), n, p, index, ps[..ts[|ts| - 1]])
  }

  lemma {:induction false} AttemptsStored(m: Store, n: Name, p: Name, index: nat, ps: seq<string>, ts: seq<nat>)
    requires forall i :: 0 <= i < |ts| ==> ts[i] <= |ps|
    ensures StoreAttempts(m, n, p, index, ps, ts) == StoreAll(m, n, p, index, Partial(ps, ts))
    ensures forall i :: 0 <= i < |Partial(ps, ts)| ==> Partial(ps, ts)[i] in ps
    decreases |ts|
  {
    if ts != [] {
      var init, t := ts[..|ts| - 1], ts[|ts| - 1];
      AttemptsStored(m, n, p, index, ps, init);
      StoreAllTwice(m, n, p, index, Partial(ps, init), ps[..t]);
    }
  }

  lemma {:induction false} JoinLonger(a: seq<string>, b: seq<string>)
    requires a != [] && b != []
    ensures |Join(a + b, '|')| > |Join(b, '|')|
  {
    assert (a + b)[1..] == a[1..] + b;
    if |a| > 1 {
      JoinLonger(a[1..], b);
    } else {
      assert a[1..] + b == b;
    }
  }

  /** A successful attempt after failed ones that had stored packages before leaves the right text in the chunk exactly
      when those were as many as the chunks the server was short of its number; for a chunk that is a single empty
      package, as many at least. In a chunk the server had already it never does, that a single empty package is one
      apart. */
  lemma RetriedEqualIff(m: Store, n: Name, p: Name, st: seq<seq<string>>, index: nat, ps: seq<string>, ts: seq<nat>)
    requires Holds(m, n, p, st) && ps != [] && forall i :: 0 <= i < |ts| ==> ts[i] <= |ps|
    ensures var m1 := StoreAttempts(m, n, p, index, ps, ts);
            ChunkText(StoreAll(m1, n, p, index, ps), n, p, index) == Some(Join(ps, '|')) <==>
            if index < |st| then st[index] == [""] && ps == [""]
            else if ps == [""] then |Partial(ps, ts)| >= index - |st|
            else ps[0] != "" && |Partial(ps, ts)| == index - |st|
  {
    hide Holds, StoreAll, StoreAttempts, Partial, ChunkText, Join;
    var a := Partial(ps, ts);
    var q := a + ps;
    AttemptsStored(m, n, p, index, ps, ts);
    StoreAllTwice(m, n, p, index, a, ps);
    RunText(m, n, p, st, index, q);
    JoinBlank(ps);
    if index < |st| {
      HeldText(m, n, p, st, index);
      JoinLonger(st[index] + a, ps);
      assert st[index] + a + ps == st[index] + q;
    } else if |q| > index - |st| {
      RetriedText(a, ps, index - |st|);
    }
  }

  /** Packages taken from the front of repeated ones leave the text of the last time exactly when they are the others.
      */
  lemma RetriedText(a: seq<string>, ps: seq<string>, d: nat)
    requires ps != [] && d < |a + ps|
    ensures Join((a + ps)[d..], '|') == Join(ps, '|') <==> |a| == d
  {
    hide Join;
    if |a| < d {
      JoinLonger(ps[..d - |a|], ps[d - |a|..]);
      assert ps[..d - |a|] + ps[d - |a|..] == ps && (a + ps)[d..] == ps[d - |a|..];
    } else if |a| > d {
      JoinLonger(a[d..], ps);
      assert (a + ps)[d..] == a[d..] + ps;
    } else {
      assert (a + ps)[d..] == ps;
    }
  }

  // ----- Reading a copy back -----

  /** No attempt stores more packages than there are. */
  ghost predicate Tried(fs: seq<seq<string>>, tries: nat -> seq<nat>) {
    forall j: nat, i :: j < |fs| && 0 <= i < |tries(j)| ==> tries(j)[i] <= |fs[j]|
  }

  /** What is stored for chunk j: what failed attempts stored, and all of it if it is one of the chunks copied. */
  function Attempt(f: seq<string>, ts: seq<nat>, done: bool): seq<string>
    requires forall i :: 0 <= i < |ts| ==> ts[i] <= |f|
  {
    Partial(f, ts) + if done then f else []
  }

  function Attempted(fs: seq<seq<string>>, tries: nat -> seq<nat>, src: seq<nat>): (r: seq<seq<string>>)
    requires Tried(fs, tries)
    ensures |r| == |fs| && forall j :: 0 <= j < |r| ==> r[j] == Attempt(fs[j], tries(j), j in src)
  {
    seq(|fs|, j requires 0 <= j < |fs| => Attempt(fs[j], tries(j), j in src))
  }

  /** The store of one server after the first k chunks of a file, what is passed on of them being `fs`, have been
      copied, chunk j to servers[j]: failed attempts at each, and one more at those in `src`, which succeed. */
  function StoreCopies(m: Store, n: Name, p: Name, fs: seq<seq<string>>, tries: nat -> seq<nat>, src: seq<nat>,
                       servers: seq<string>, k: nat, server: string): Store
    requires k <= |fs| == |servers| && Tried(fs, tries)
  {
    if k == 0 then m
    else
      var j := k - 1;
      var before := StoreCopies(m, n, p, fs, tries, src, servers, j, server);
      if servers[j] != server then before
      else
        var tried := StoreAttempts(before, n, p, j, fs[j], tries(j));
        if j in src then StoreAll(tried, n, p, j, fs[j]) else tried
  }

  function AllLines(texts: seq<string>): (r: seq<seq<string>>)
    ensures |r| == |texts| && forall k :: 0 <= k < |r| ==> r[k] == Lines(texts[k])
  {
    seq(|texts|, k requires 0 <= k < |texts| => Lines(texts[k]))
  }

  function AllForwarded(segs: seq<seq<string>>, size: nat): (r: seq<seq<string>>)
    ensures |r| == |segs| && forall k :: 0 <= k < |r| ==> r[k] == Forwarded(segs[k], size)
  {
    seq(|segs|, k requires 0 <= k < |segs| => Forwarded(segs[k], size))
  }

  lemma {:induction false} SegmentStored(m: Store, n: Name, p: Name, sends: seq<Send>, ps: seq<string>, to: string,
                                         index: nat, server: string)
    ensures StoreAfter(m, n, p, sends + SegmentSends(ps, to, index), server) ==
            if to == server then StoreAll(StoreAfter(m, n, p, sends, server), n, p, index, ps)
            else StoreAfter(m, n, p, sends, server)
    decreases |ps|
  {
    hide StoredPackage;
    var all := sends + SegmentSends(ps, to, index);
    if ps == [] {
      assert all == sends;
    } else {
      SegmentStored(m, n, p, sends, ps[..|ps| - 1], to, index, server);
      assert all[..|all| - 1] == sends + SegmentSends(ps[..|ps| - 1], to, index);
      assert all[|all| - 1] == Send(to, index, ps[|ps| - 1]);
    }
  }

  lemma AttemptStored(m: Store, n: Name, p: Name, index: nat, f: seq<string>, ts: seq<nat>, done: bool)
    requires forall i :: 0 <= i < |ts| ==> ts[i] <= |f|
    ensures var tried := StoreAttempts(m, n, p, index, f, ts);
            StoreAll(m, n, p, index, Attempt(f, ts, done)) == if done then StoreAll(tried, n, p, index, f) else tried
  {
    hide StoreAll, StoreAttempts, Partial;
    AttemptsStored(m, n, p, index, f, ts);
    StoreAllTwice(m, n, p, index, Partial(f, ts), f);
    assert Partial(f, ts) + [] == Partial(f, ts);
  }

  lemma {:induction false} CopiesStored(m: Store, n: Name, p: Name, fs: seq<seq<string>>, tries: nat -> seq<nat>,
                                        src: seq<nat>, servers: seq<string>, k: nat, server: string)
    requires k <= |fs| == |servers| && Tried(fs, tries)
    ensures StoreCopies(m, n, p, fs, tries, src, servers, k, server) ==
            StoreAfter(m, n, p, AllSends(Attempted(fs, tries, src)[..k], servers[..k]), server)
  {
    hide StoreAfter, StoreAll, StoreAttempts, Attempt;
    var stored := Attempted(fs, tries, src);
    if k == 0 {
      assert AllSends(stored[..0], servers[..0]) == [];
      NothingSent(m, n, p, server);
    } else {
      var j := k - 1;
      CopiesStored(m, n, p, fs, tries, src, servers, j, server);
      assert stored[..k] == stored[..j] + [stored[j]] && servers[..k] == servers[..j] + [servers[j]];
      AllSendsNext(stored[..j], servers[..j], stored[j], servers[j]);
      SegmentStored(m, n, p, AllSends(stored[..j], servers[..j]), stored[j], servers[j], j, server);
      AttemptStored(StoreCopies(m, n, p, fs, tries, src, servers, j, server), n, p, j, fs[j], tries(j), j in src);
    }
  }

  lemma NothingSent(m: Store, n: Name, p: Name, server: string)
    ensures StoreAfter(m, n, p, [], server) == m
  {
  }

  /** What a copy must return: chunk t of it stands for chunk src[t] of the file. */
  function Asked(texts: seq<string>, src: seq<nat>): (r: seq<seq<string>>)
    requires forall t :: 0 <= t < |src| ==> src[t] < |texts|
    ensures |r| == |src| && forall t :: 0 <= t < |r| ==> r[t] == Lines(texts[src[t]])
  {
    seq(|src|, t requires 0 <= t < |src| => Lines(texts[src[t]]))
  }

  /** Whether each recorded chunk of a copy, asked for at the server its metadata names, returns what the chunk it
      stands for returned when it was copied. */
  ghost predicate CopyReadsBack(stores: map<string, Store>, n: Name, p: Name, texts: seq<string>, size: nat,
                                tries: nat -> seq<nat>, src: seq<nat>, servers: seq<string>, named: seq<string>)
    requires |texts| == |servers| && |src| == |named| && forall t :: 0 <= t < |src| ==> src[t] < |texts|
    requires Tried(AllForwarded(AllLines(texts), size), tries)
  {
    var fs := AllForwarded(AllLines(texts), size);
    forall t :: 0 <= t < |src| ==>
      var m := StoreCopies(StoreAt(stores, named[t]), n, p, fs, tries, src, servers, |fs|, named[t]);
      Lines(ReadChunk(m, n, p, t)) == Lines(texts[src[t]])
  }

  /** Every chunk was copied at the first attempt. */
  ghost predicate AtOnce(n: nat, tries: nat -> seq<nat>, src: seq<nat>) {
    |src| == n && forall j: nat :: j < n ==> src[j] == j && tries(j) == []
  }

  /** A new copy reads back in these cases. If every chunk was copied at the first attempt: exactly when every package
      was forwardable, all went to one server, the one named, no chunk with packages comes behind one without, and none
      begins or ends with an empty package. And whatever failed and was tried again,
        if no package is empty: exactly when
      what lands as each chunk on the server named for it, by the numbers of packages stored, is the chunk it stands
      for. */
  lemma CopyReadBackIff(stores: map<string, Store>, n: Name, p: Name, texts: seq<string>, size: nat,
                        tries: nat -> seq<nat>, src: seq<nat>, servers: seq<string>, named: seq<string>)
    requires |texts| == |servers| > 0 && |src| == |named| && forall t :: 0 <= t < |src| ==> src[t] < |texts|
    requires Tried(AllForwarded(AllLines(texts), size), tries)
    requires forall t :: 0 <= t < |named| ==> Holds(StoreAt(stores, named[t]), n, p, [])
    ensures var ls := AllLines(texts);
            AtOnce(|texts|, tries, src) ==>
              (CopyReadsBack(stores, n, p, texts, size, tries, src, servers, named) <==>
               && (forall k :: 0 <= k < |ls| ==> Forwardable(ls[k], size))
               && InOnePlace(ls, servers, named) && Dense(ls) && Sound(ls))
    ensures var stored := Attempted(AllForwarded(AllLines(texts), size), tries, src);
            NoBlank(AllLines(texts)) && size > 0 ==>
              (CopyReadsBack(stores, n, p, texts, size, tries, src, servers, named) <==>
               forall t :: 0 <= t < |src| ==> Lands(stored, servers, named[t], t, Lines(texts[src[t]])))
  {
    hide CopyReadsBack, ReadsBack, Lands, InOnePlace, Dense, Sound, Lines, Forwarded, Forwardable, Holds, Attempted,
         AllForwarded, NoBlank, AtOnce, Tried;
    var ls := AllLines(texts);
    CopyStores(stores, n, p, texts, size, tries, src, servers, named);
    if AtOnce(|texts|, tries, src) {
      OnceAttempted(texts, AllForwarded(ls, size), tries, src);
      AllLinesFree(texts);
      ForwardedReadsBack(ls, size, servers, named);
    }
    if NoBlank(ls) && size > 0 {
      CopyLands(texts, size, tries, src, servers, named);
    }
  }

  lemma AllLinesFree(texts: seq<string>)
    ensures EachFree(AllLines(texts))
  {
    hide Lines;
    forall k | 0 <= k < |texts|
      ensures AllFree(AllLines(texts)[k], '|')
    {
      LinesFree(texts[k]);
    }
  }

  lemma CopyLands(texts: seq<string>, size: nat, tries: nat -> seq<nat>, src: seq<nat>, servers: seq<string>,
                  named: seq<string>)
    requires |texts| == |servers| && |src| == |named| && forall t :: 0 <= t < |src| ==> src[t] < |texts|
    requires Tried(AllForwarded(AllLines(texts), size), tries) && NoBlank(AllLines(texts)) && size > 0
    ensures var stored := Attempted(AllForwarded(AllLines(texts), size), tries, src);
            ReadsBack(Asked(texts, src), stored, servers, named) <==>
            forall t :: 0 <= t < |src| ==> Lands(stored, servers, named[t], t, Lines(texts[src[t]]))
  {
    hide HeldBy, AllSends, ReadLines, Lands, Lines, Forwarded, Attempted, AllForwarded, NoBlank, EachFree;
    var stored := Attempted(AllForwarded(AllLines(texts), size), tries, src);
    AttemptedPackages(texts, size, tries, src);
    forall t | 0 <= t < |src|
      ensures ReadLines(HeldBy([], AllSends(stored, servers), named[t]), t) == Lines(texts[src[t]]) <==>
              Lands(stored, servers, named[t], t, Lines(texts[src[t]]))
    {
      FreeLands(stored, servers, named[t], t, Lines(texts[src[t]]));
    }
  }

  lemma CopyStores(stores: map<string, Store>, n: Name, p: Name, texts: seq<string>, size: nat,
                   tries: nat -> seq<nat>, src: seq<nat>, servers: seq<string>, named: seq<string>)
    requires |texts| == |servers| && |src| == |named| && forall t :: 0 <= t < |src| ==> src[t] < |texts|
    requires Tried(AllForwarded(AllLines(texts), size), tries)
    requires forall t :: 0 <= t < |named| ==> Holds(StoreAt(stores, named[t]), n, p, [])
    ensures CopyReadsBack(stores, n, p, texts, size, tries, src, servers, named) <==>
            ReadsBack(Asked(texts, src), Attempted(AllForwarded(AllLines(texts), size), tries, src), servers, named)
  {
    hide Holds, StoreCopies, ReadChunk, Lines, AllSends, StoreAfter, Forwarded, StoreAt, Attempt, HeldBy, ReadLines;
    var fs := AllForwarded(AllLines(texts), size);
    var stored := Attempted(fs, tries, src);
    assert stored[..|fs|] == stored && servers[..|fs|] == servers;
    forall t | 0 <= t < |src|
      ensures StoreCopies(StoreAt(stores, named[t]), n, p, fs, tries, src, servers, |fs|, named[t]) ==
              StoreAfter(StoreAt(stores, named[t]), n, p, AllSends(stored, servers), named[t])
    {
      CopiesStored(StoreAt(stores, named[t]), n, p, fs, tries, src, servers, |fs|, named[t]);
    }
    forall t | 0 <= t < |src|
      ensures Lines(ReadChunk(StoreAfter(StoreAt(stores, named[t]), n, p, AllSends(stored, servers), named[t]), n, p,
                              t)) ==
              ReadLines(HeldBy([], AllSends(stored, servers), named[t]), t)
    {
      StoredLines(StoreAt(stores, named[t]), n, p, AllSends(stored, servers), named[t], t);
    }
  }

  lemma OnceAttempted(texts: seq<string>, fs: seq<seq<string>>, tries: nat -> seq<nat>, src: seq<nat>)
    requires |texts| == |fs| && Tried(fs, tries) && AtOnce(|fs|, tries, src)
    requires forall t :: 0 <= t < |src| ==> src[t] < |texts|
    ensures Attempted(fs, tries, src) == fs && Asked(texts, src) == AllLines(texts)
  {
    hide Lines;
    forall j | 0 <= j < |fs|
      ensures Attempt(fs[j], tries(j), j in src) == fs[j]
    {
      assert src[j] == j && tries(j) == [];
      assert [] + fs[j] == fs[j];
    }
    assert Asked(texts, src) == AllLines(texts);
  }

  lemma AttemptedPackages(texts: seq<string>, size: nat, tries: nat -> seq<nat>, src: seq<nat>)
    requires Tried(AllForwarded(AllLines(texts), size), tries) && NoBlank(AllLines(texts)) && size > 0
    ensures var stored := Attempted(AllForwarded(AllLines(texts), size), tries, src);
            NoBlank(stored) && EachFree(stored)
  {
    hide Lines, Forwarded, Partial;
    var ls := AllLines(texts);
    var fs := AllForwarded(ls, size);
    var stored := Attempted(fs, tries, src);
    forall j, i | 0 <= j < |stored| && 0 <= i < |stored[j]|
      ensures stored[j][i] != "" && Free(stored[j][i], '|')
    {
      LinesFree(texts[j]);
      ForwardedFree(ls[j], size);
      AttemptsStored(map[], "", "", 0, fs[j], tries(j));
      assert stored[j][i] in fs[j];
    }
  }

  /** Packages passed on come back as the lines they were made from exactly when they are those and in one place. */
  lemma ForwardedReadsBack(ls: seq<seq<string>>, size: nat, servers: seq<string>, named: seq<string>)
    requires |ls| == |servers| == |named| > 0 && EachFree(ls)
    ensures ReadsBack(ls, AllForwarded(ls, size), servers, named) <==>
            && (forall k :: 0 <= k < |ls| ==> Forwardable(ls[k], size))
            && InOnePlace(ls, servers, named) && Dense(ls) && Sound(ls)
  {
    hide ReadsBack, InOnePlace, Dense, Sound, Forwarded, Forwardable;
    var fs := AllForwarded(ls, size);
    forall k | 0 <= k < |ls|
      ensures fs[k] == ls[k] <==> Forwardable(ls[k], size)
    {
      ForwardedWhole(ls[k], size);
    }
    if ReadsBack(ls, fs, servers, named) {
      ReturnedFits(ls, size, servers, named);
    }
    if forall k :: 0 <= k < |ls| ==> Forwardable(ls[k], size) {
      assert fs == ls;
      ReadBackIff(ls, servers, named);
    }
  }

  /** What comes back of packages passed on is forwardable. */
  lemma ReturnedFits(ls: seq<seq<string>>, size: nat, servers: seq<string>, named: seq<string>)
    requires |ls| == |servers| == |named| && EachFree(ls) && ReadsBack(ls, AllForwarded(ls, size), servers, named)
    ensures forall k :: 0 <= k < |ls| ==> Forwardable(ls[k], size)
  {
    hide HeldBy, AllSends, ReadLines, Forwarded, Fits;
    var fs := AllForwarded(ls, size);
    forall k | 0 <= k < |fs|
      ensures AllFree(fs[k], '|') && forall i :: 0 <= i < |fs[k]| ==> Fits(fs[k][i], size)
    {
      ForwardedFree(ls[k], size);
      ForwardedWhole(ls[k], size);
    }
    var ok := (d: string) => Fits(d, size);
    AllSendsOf(fs, servers, ok);
    forall k | 0 <= k < |ls|
      ensures Forwardable(ls[k], size)
    {
      HeldFree(fs, servers, named[k]);
      HeldOf(AllSends(fs, servers), named[k], ok);
      FreeLines(HeldBy([], AllSends(fs, servers), named[k]), k);
      assert ReadLines(HeldBy([], AllSends(fs, servers), named[k]), k) == ls[k];
    }
  }
}
