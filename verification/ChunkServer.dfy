/** The chunk server: storing packages into chunks, and serving them back (src/core/chunk_server). */
module ChunkServer {
  import opened Text
  import opened Keys
  import opened Database
  import opened MetaData
  import opened FileStore
  import opened Files

  // ----- Joining and splitting packages -----

  /** The line std::getline extracts up to a '|', and what is left in the stream. */
  function FirstLine(s: string): string {
    if s == "" || s[0] == '|' then "" else [s[0]] + FirstLine(s[1..])
  }

  function AfterLine(s: string): (r: string)
    ensures s != "" ==> |r| < |s|
  {
    if s == "" then "" else if s[0] == '|' then s[1..] else AfterLine(s[1..])
  }

  /** All lines of a stream: std::getline fails once nothing is left, so a final empty line is never seen. */
  function Lines(s: string): seq<string>
    decreases |s|
  {
    if s == "" then [] else [FirstLine(s)] + Lines(AfterLine(s))
  }

  lemma {:induction false} LineOfJoined(a: string, rest: string)
    requires Free(a, '|')
    ensures FirstLine(a + "|" + rest) == a && AfterLine(a + "|" + rest) == rest
  {
    var s := a + "|" + rest;
    if a != "" {
      assert s[1..] == a[1..] + "|" + rest;
      LineOfJoined(a[1..], rest);
    } else {
      assert s[1..] == rest;
    }
  }

  lemma {:induction false} LineOfLast(a: string)
    requires Free(a, '|')
    ensures FirstLine(a) == a && AfterLine(a) == ""
  {
    if a != "" {
      LineOfLast(a[1..]);
    }
  }

  /** Splitting joined packages without separators gives them back, an empty last one apart. */
  lemma {:induction false} LinesOfJoined(ps: seq<string>)
    requires ps != [] && AllFree(ps, '|')
    ensures ps[|ps| - 1] != "" ==> Lines(Join(ps, '|')) == ps
    ensures ps[|ps| - 1] == "" ==> Lines(Join(ps, '|')) == ps[..|ps| - 1]
  {
    hide FirstLine, AfterLine;
    if |ps| == 1 {
      LineOfLast(ps[0]);
      assert Lines("") == [];
    } else {
      LineOfJoined(ps[0], Join(ps[1..], '|'));
      assert ps[0] + ['|'] + Join(ps[1..], '|') == ps[0] + "|" + Join(ps[1..], '|');
      LinesOfJoined(ps[1..]);
      assert [ps[0]] + ps[1..] == ps;
      assert [ps[0]] + ps[1..][..|ps| - 2] == ps[..|ps| - 1];
    }
  }

  lemma {:induction false} FirstLineFree(s: string)
    ensures Free(FirstLine(s), '|')
  {
    if s != "" && s[0] != '|' {
      FirstLineFree(s[1..]);
    }
  }

  lemma {:induction false} LinesFree(s: string)
    ensures AllFree(Lines(s), '|')
    decreases |s|
  {
    if s != "" {
      FirstLineFree(s);
      LinesFree(AfterLine(s));
    }
  }

  /** Splitting gives back what was joined exactly when no package holds a separator and the last one is not empty. */
  lemma LinesOfJoinedIff(ps: seq<string>)
    requires ps != []
    ensures Lines(Join(ps, '|')) == ps <==> AllFree(ps, '|') && ps[|ps| - 1] != ""
  {
    LinesFree(Join(ps, '|'));
    if AllFree(ps, '|') {
      LinesOfJoined(ps);
    }
  }

  /** Joining any packages but a single empty one leaves a text. */
  lemma JoinBlank(ps: seq<string>)
    requires ps != []
    ensures Join(ps, '|') == "" <==> ps == [""]
  {
  }

  // ----- What storing a package does -----

  /** The text File.Read yields for a chunk: nothing behind the first missing index. */
  function ReadChunk(m: Store, n: Name, p: Name, index: nat): string {
    if index <= ChunkCount(m, n, p) then Value(m, DataKey(n, p, index)) else ""
  }

  /** A package joins the chunk it names if that holds data; otherwise it becomes a new last chunk. */
  function StoredPackage(m: Store, n: Name, p: Name, index: nat, data: string): Store {
    var buffer := ReadChunk(m, n, p, index);
    if buffer != "" then m[DataKey(n, p, index) := buffer + "|" + data]
    else AppendedData(m, n, p, ChunkCount(m, n, p), data)
  }

  /** std::string::resize of a package that is too long. */
  function Truncate(s: string, size: nat): string {
    if |s| > size then s[..size] else s
  }

  function TruncateAll(ps: seq<string>, size: nat): (r: seq<string>)
    ensures |r| == |ps| && forall i :: 0 <= i < |ps| ==> r[i] == Truncate(ps[i], size)
  {
    seq(|ps|, i requires 0 <= i < |ps| => Truncate(ps[i], size))
  }

  function From(ps: seq<string>, start: nat): seq<string> {
    if start <= |ps| then ps[start..] else []
  }

  /** Conversion of an int to size_t: the value modulo 2^64. */
  function SizeT(n: int): (r: nat)
    ensures n >= 0 ==> r == n
    ensures n < 0 ==> r <= SIZE_MAX && (r - n) % (SIZE_MAX + 1) == 0
  {
    if n < 0 then n % (SIZE_MAX + 1) else n
  }

  class ChunkServer {
    const db: LevelDB
    const packageSize: nat

    constructor (db: LevelDB, packageSize: nat)
      ensures this.db == db && this.packageSize == packageSize
    {
      this.db, this.packageSize := db, packageSize;
    }

    /** deal_with_108. */
    method StorePackage(name: Name, path: Name, index: nat, data: string) returns (reply: string)
      requires CountReadable(db.m, name, path)
      modifies db
      ensures reply == "true" && db.m == StoredPackage(old(db.m), name, path, index, data)
      // nothing is written but the data of the chunk named, or that of the next one and the count
      ensures forall key: string |
                key != CountKey(name, path) && key != DataKey(name, path, index) &&
                key != DataKey(name, path, ChunkCount(old(db.m), name, path)) :: Same(old(db.m), db.m, key)
    {
      StoredFrame(db.m, name, path, index, data);
      var file := new File.FromName(name, path);
      var _ := file.Open(db);
      var _, buffer := file.Read("", index);
      file.Close();
      var bit;
      if buffer != "" {
        buffer := buffer + "|" + data;
        var _ := file.Open(db);
        bit := file.Write(buffer, index);
        file.Close();
      } else {
        var _ := file.Open(db);
        bit := file.Append(data);
        file.Close();
      }
      reply := if bit then "true" else "false";
    }

    /** deal_with_110: the data fields of the messages sent, when the t-th one is acknowledged if ack(t). An index field
        without a number makes std::stoi throw, and a negative one wraps. */
    method ServeChunk(name: Name, path: Name, customize: seq<string>, ack: nat -> bool)
      returns (threw: bool, sent: seq<string>, k: nat)
      requires CountReadable(db.m, name, path)
      ensures name == "" || path == "" ==> !threw && sent == []
      ensures name != "" && path != "" && |customize| < 2 ==> !threw && sent == ["error!"]
      ensures name != "" && path != "" && |customize| >= 2 ==>
                && (threw <==> Stoi(customize[0]).None? || Stoi(customize[1]).None?) && (threw ==> sent == [])
      ensures name != "" && path != "" && |customize| >= 2 && !threw ==>
                var lines := Lines(ReadChunk(db.m, name, path, SizeT(Stoi(customize[0]).value)));
                var asked := From(lines, SizeT(Stoi(customize[1]).value));
                && k <= |asked| && sent == TruncateAll(asked[..k], packageSize) + ["chunk end"]
                && (forall t :: 0 <= t < k - 1 ==> ack(t)) && (k < |asked| ==> k > 0 && !ack(k - 1))
                // each package is cut at its end
                && (forall t :: 0 <= t < k ==>
                     sent[t] <= asked[t] && (|asked[t]| <= packageSize ==> sent[t] == asked[t]))
                && (forall t :: 0 <= t < k && |asked[t]| > packageSize ==> |sent[t]| == packageSize)
    {
      hide Encode, Lines, Stoi, ChunkCount, TruncateAll, SizeT;
      threw, sent, k := false, [], 0;
      if name == "" || path == "" {
        return;
      }
      if |customize| < 2 {
        sent := ["error!"];
        return;
      }
      if Stoi(customize[0]).None? || Stoi(customize[1]).None? {
        threw := true;
        return;
      }
      var file := new File.FromName(name, path);
      var index, start := SizeT(Stoi(customize[0]).value), SizeT(Stoi(customize[1]).value);
      var _ := file.Open(db);
      var _, datas := file.Read("", index);
      file.Close();
      datas := SkipLines(datas, start);
      sent, k := SendLines(datas, ack);
      sent := sent + ["chunk end"];
    }

    /** The loop that skips to the package asked for. */
    method SkipLines(datas: string, start: nat) returns (rest: string)
      ensures Lines(rest) == From(Lines(datas), start)
    {
      rest := datas;
      var skip := start;
      while skip > 0
        invariant 0 <= skip <= start && Lines(rest) == From(Lines(datas), start - skip)
      {
        FromNext(Lines(datas), start - skip);
        rest := AfterLine(rest);
        skip := skip - 1;
      }
    }

    /** The loop that sends one package after the other until one is not acknowledged. */
    method SendLines(datas: string, ack: nat -> bool) returns (sent: seq<string>, k: nat)
      ensures var asked := Lines(datas);
              && k <= |asked| && sent == TruncateAll(asked[..k], packageSize)
              && (forall t :: 0 <= t < k - 1 ==> ack(t)) && (k < |asked| ==> k > 0 && !ack(k - 1))
    {
      hide FirstLine, AfterLine;
      ghost var asked := Lines(datas);
      var rest := datas;
      sent, k := [], 0;
      while rest != ""
        invariant k <= |asked| && Lines(rest) == asked[k..] && sent == TruncateAll(asked[..k], packageSize)
        invariant forall t :: 0 <= t < k ==> ack(t)
        decreases |rest|
      {
        var line := FirstLine(rest);
        rest := AfterLine(rest);
        assert asked[..k + 1] == asked[..k] + [line];
        sent, k := sent + [Truncate(line, packageSize)], k + 1;
        if !ack(k - 1) {
          break;
        }
      }
    }
  }

  lemma FromNext(ps: seq<string>, start: nat)
    ensures From(ps, start + 1) == if From(ps, start) == [] then [] else From(ps, start)[1..]
  {
  }

  // ----- Stored files as sequences of chunks of packages -----

  /** The store holds exactly the chunks `st` of file (n, p), each a non-empty run of packages. */
  ghost predicate Holds(m: Store, n: Name, p: Name, st: seq<seq<string>>) {
    && CountOk(m, n, p) && ChunkCount(m, n, p) == |st|
    && (forall i: nat :: i < |st| ==>
          st[i] != [] && DataKey(n, p, i) in m && m[DataKey(n, p, i)] == Join(st[i], '|'))
    && (forall i: nat :: i >= |st| ==> DataKey(n, p, i) !in m)
  }

  /** A package sent for chunk `index` lands in it only if there is such a chunk with text in it, or the next one is
      asked for. */
  function Placed(st: seq<seq<string>>, index: nat, data: string): seq<seq<string>> {
    if index < |st| && st[index] != [""] then st[index := st[index] + [data]] else st + [[data]]
  }

  lemma StoreRefines(m: Store, n: Name, p: Name, st: seq<seq<string>>, index: nat, data: string)
    requires Holds(m, n, p, st)
    ensures Holds(StoredPackage(m, n, p, index, data), n, p, Placed(st, index, data))
  {
    if index < |st| {
      JoinBlank(st[index]);
    }
    if index < |st| && st[index] != [""] {
      JoinRefines(m, n, p, st, index, data);
    } else {
      AppendRefines(m, n, p, st, data);
    }
  }

  lemma StoredFrame(m: Store, n: Name, p: Name, index: nat, data: string)
    ensures forall key: string ::
              key != CountKey(n, p) && key != DataKey(n, p, index) && key != DataKey(n, p, ChunkCount(m, n, p)) ==>
              Same(m, StoredPackage(m, n, p, index, data), key)
  {
    hide Encode, ChunkCount, ReadChunk;
  }

  /** Nothing but the count and the data of one file differs. */
  ghost predicate OnlyDataChanged(m: Store, m': Store, n: Name, p: Name) {
    forall key: string :: key != CountKey(n, p) && (forall i: nat :: key != DataKey(n, p, i)) ==> Same(m, m', key)
  }

  lemma StoredOnlyData(m0: Store, m: Store, n: Name, p: Name, index: nat, data: string)
    requires OnlyDataChanged(m0, m, n, p)
    ensures OnlyDataChanged(m0, StoredPackage(m, n, p, index, data), n, p)
  {
    hide Encode, ChunkCount, StoredPackage;
    StoredFrame(m, n, p, index, data);
    forall key: string | key != CountKey(n, p) && forall i: nat :: key != DataKey(n, p, i)
      ensures Same(m0, StoredPackage(m, n, p, index, data), key)
    {
      assert key != DataKey(n, p, index) && key != DataKey(n, p, ChunkCount(m, n, p));
      assert Same(m0, m, key) && Same(m, StoredPackage(m, n, p, index, data), key);
    }
  }

  /** A server that holds another file still holds it. */
  lemma OtherFileHeld(m: Store, m': Store, n: Name, p: Name, a: Name, b: Name, st: seq<seq<string>>)
    requires OnlyDataChanged(m, m', n, p) && (a, b) != (n, p) && Holds(m, a, b, st)
    ensures Holds(m', a, b, st)
  {
    hide Encode, Decode, Join;
    EncodeDecode();
    forall k: Key | k.Count? || k.Data?
      ensures (k.name, k.path) == (a, b) ==> Same(m, m', Encode(k))
    {
      assert Decode(Encode(k)) == k;
    }
    assert Same(m, m', Encode(Count(a, b)));
    forall i: nat
      ensures Same(m, m', Encode(Data(a, b, i)))
    {
    }
  }

  lemma JoinRefines(m: Store, n: Name, p: Name, st: seq<seq<string>>, index: nat, data: string)
    requires Holds(m, n, p, st) && index < |st| && st[index] != [""]
    ensures Holds(StoredPackage(m, n, p, index, data), n, p, st[index := st[index] + [data]])
  {
    hide Encode, Decode;
    EncodeDecode();
    JoinBlank(st[index]);
    JoinAppend(st[index], data, '|');
    assert Join(st[index], '|') + "|" + data == Join(st[index], '|') + ['|'] + data;
  }

  lemma AppendRefines(m: Store, n: Name, p: Name, st: seq<seq<string>>, data: string)
    requires Holds(m, n, p, st)
    ensures Holds(AppendedData(m, n, p, |st|, data), n, p, st + [[data]])
  {
    hide Encode, Decode;
    EncodeDecode();
    StoiToString(|st| + 1);
  }

  /** The text read back of a chunk is its packages joined; it splits into them exactly when none holds a separator and
      the last one is not empty. */
  lemma HeldChunkReads(m: Store, n: Name, p: Name, st: seq<seq<string>>, index: nat)
    requires Holds(m, n, p, st)
    ensures ReadChunk(m, n, p, index) == if index < |st| then Join(st[index], '|') else ""
    ensures index < |st| ==>
              (Lines(ReadChunk(m, n, p, index)) == st[index] <==>
               AllFree(st[index], '|') && st[index][|st[index]| - 1] != "")
  {
    hide Encode, Lines;
    if index < |st| {
      LinesOfJoinedIff(st[index]);
    }
  }

  // ----- A run of packages for one chunk -----

  /** Chunks after a run of packages for one chunk. */
  function PlacedAll(st: seq<seq<string>>, index: nat, ps: seq<string>): seq<seq<string>>
    decreases |ps|
  {
    if ps == [] then st else Placed(PlacedAll(st, index, ps[..|ps| - 1]), index, ps[|ps| - 1])
  }

  /** Each package a chunk of its own. */
  function Singles(ps: seq<string>): (r: seq<seq<string>>)
    ensures |r| == |ps| && forall i :: 0 <= i < |r| ==> r[i] == [ps[i]]
  {
    seq(|ps|, i requires 0 <= i < |ps| => [ps[i]])
  }

  /** Where a run lands: in its chunk if that has text; if the chunk is further on, the first packages become chunks of
      their own until there is that chunk, and the others are that chunk; and nothing ever joins a chunk without
      text. */
  function Landed(st: seq<seq<string>>, index: nat, ps: seq<string>): seq<seq<string>> {
    if index < |st| then if st[index] == [""] then st + Singles(ps) else st[index := st[index] + ps]
    else
      var d := index - |st|;
      if |ps| <= d || ps[d] == "" then st + Singles(ps) else st + Singles(ps[..d]) + [ps[d..]]
  }

  ghost predicate NoEmptyChunk(st: seq<seq<string>>) {
    forall i :: 0 <= i < |st| ==> st[i] != []
  }

  lemma {:induction false} RunLands(st: seq<seq<string>>, index: nat, ps: seq<string>)
    requires NoEmptyChunk(st)
    ensures PlacedAll(st, index, ps) == Landed(st, index, ps)
    decreases |ps|
  {
    if ps == [] {
      LandedNothing(st, index);
    } else {
      RunLands(st, index, ps[..|ps| - 1]);
      LandedNext(st, index, ps[..|ps| - 1], ps[|ps| - 1]);
      assert ps[..|ps| - 1] + [ps[|ps| - 1]] == ps;
    }
  }

  lemma LandedNothing(st: seq<seq<string>>, index: nat)
    ensures Landed(st, index, []) == st
  {
    if index < |st| {
      assert st[index] + [] == st[index];
    }
    assert st + Singles([]) == st;
  }

  lemma LandedNext(st: seq<seq<string>>, index: nat, ps: seq<string>, p: string)
    requires NoEmptyChunk(st)
    ensures Placed(Landed(st, index, ps), index, p) == Landed(st, index, ps + [p])
  {
    assert Singles(ps + [p]) == Singles(ps) + [[p]];
    if index < |st| {
      assert st[index] + (ps + [p]) == st[index] + ps + [p];
      if st[index] != [""] {
        assert st[index] + ps != [""];
      }
    } else {
      var d := index - |st|;
      if |ps| > d {
        assert (ps + [p])[..d] == ps[..d] && (ps + [p])[d..] == ps[d..] + [p];
      } else if |ps| == d {
        assert (ps + [p])[..d] == ps && (ps + [p])[d..] == [p];
      }
    }
  }

  lemma {:induction false} PlacedTwice(st: seq<seq<string>>, index: nat, a: seq<string>, b: seq<string>)
    ensures PlacedAll(PlacedAll(st, index, a), index, b) == PlacedAll(st, index, a + b)
    decreases |b|
  {
    hide Placed;
    if b == [] {
      assert a + b == a;
    } else {
      PlacedTwice(st, index, a, b[..|b| - 1]);
      assert (a + b)[..|a + b| - 1] == a + b[..|b| - 1];
    }
  }

  // ----- What a reader receives -----

  /** The messages before the one that ends the chunk. */
  function UntilEnd(msgs: seq<string>): (r: seq<string>)
    ensures |r| <= |msgs| && r == msgs[..|r|] && "chunk end" !in r
    ensures |r| < |msgs| ==> msgs[|r|] == "chunk end"
  {
    if msgs == [] || msgs[0] == "chunk end" then [] else [msgs[0]] + UntilEnd(msgs[1..])
  }

  /** What one who asks for a chunk takes from the messages: its packages, cut to the package size, up to an end mark.
      */
  function Forwarded(ps: seq<string>, size: nat): seq<string> {
    UntilEnd(TruncateAll(ps, size))
  }

  /** A package that is sent whole and does not read as the end mark. */
  predicate Fits(p: string, size: nat) {
    |p| <= size && p != "chunk end"
  }

  predicate Forwardable(ps: seq<string>, size: nat) {
    forall i :: 0 <= i < |ps| ==> Fits(ps[i], size)
  }

  /** What is taken are all packages, unchanged, exactly when all are forwardable. */
  lemma ForwardedWhole(ps: seq<string>, size: nat)
    ensures Forwarded(ps, size) == ps <==> Forwardable(ps, size)
    ensures |Forwarded(ps, size)| <= |ps| && Forwardable(Forwarded(ps, size), size)
  {
    var sent := Forwarded(ps, size);
    if Forwardable(ps, size) {
      assert TruncateAll(ps, size) == ps;
    }
    forall i | 0 <= i < |sent|
      ensures Fits(sent[i], size)
    {
      assert sent[i] in sent && sent[i] == Truncate(ps[i], size);
    }
  }

  lemma ForwardedFree(ps: seq<string>, size: nat)
    requires AllFree(ps, '|')
    ensures AllFree(Forwarded(ps, size), '|')
    ensures (forall i :: 0 <= i < |ps| ==> ps[i] != "") && size > 0 ==>
              forall i :: 0 <= i < |Forwarded(ps, size)| ==> Forwarded(ps, size)[i] != ""
  {
    var sent := Forwarded(ps, size);
    forall i | 0 <= i < |sent|
      ensures Free(sent[i], '|') && (ps[i] != "" && size > 0 ==> sent[i] != "")
    {
      assert sent[i] == Truncate(ps[i], size) && Free(ps[i], '|');
    }
  }

  // ----- Resuming an interrupted read -----

  /** How many of the k packages sent were acknowledged, when sending stops at the first that is not. */
  function Acknowledged(k: nat, ack: nat -> bool): nat {
    if k > 0 && !ack(k - 1) then k - 1 else k
  }

  /** A read from package s that stopped after k packages, followed by a read from the first package not acknowledged,
      delivers every package from s on exactly once among the acknowledged ones, in order. */
  lemma ResumedRead(lines: seq<string>, s: nat, k: nat, ack: nat -> bool, size: nat)
    requires k <= |From(lines, s)| && (k < |From(lines, s)| ==> k > 0 && !ack(k - 1))
    ensures var a := Acknowledged(k, ack);
            && a <= k && (forall t :: 0 <= t < k - 1 ==> ack(t)) ==> forall t :: 0 <= t < a ==> ack(t)
    ensures var a := Acknowledged(k, ack);
            TruncateAll(From(lines, s)[..a], size) + TruncateAll(From(lines, s + a), size) ==
              TruncateAll(From(lines, s), size)
    ensures Acknowledged(k, ack) == k ==> k == |From(lines, s)|
  {
    hide From, TruncateAll;
    TruncatedRest(lines, s, Acknowledged(k, ack), size);
  }

  lemma TruncatedRest(lines: seq<string>, s: nat, a: nat, size: nat)
    requires a <= |From(lines, s)|
    ensures TruncateAll(From(lines, s)[..a], size) + TruncateAll(From(lines, s + a), size) ==
            TruncateAll(From(lines, s), size)
  {
    assert From(lines, s + a) == From(lines, s)[a..];
  }

  function Sum(counts: seq<nat>): nat
    decreases |counts|
  {
    if counts == [] then 0 else Sum(counts[..|counts| - 1]) + counts[|counts| - 1]
  }

  /** In each round the packages up to the first that is not acknowledged count as received; only a last round that ends
      the reading has none such. */
  ghost predicate RoundsEnded(counts: seq<nat>, done: bool, ack: (nat, nat) -> bool) {
    && (forall r: nat, t: nat :: r < |counts| && t < counts[r] ==> ack(r, t))
    && (forall r: nat :: r < |counts| - (if done then 1 else 0) ==> !ack(r, counts[r]))
  }

  /** The acknowledgements of one round. */
  function Answers(ack: (nat, nat) -> bool, r: nat): (f: nat -> bool)
    ensures forall t: nat :: f(t) == ack(r, t)
  {
    (t: nat) => ack(r, t)
  }

  /** What has been received after some rounds, and where the next one starts. */
  ghost predicate Received(all: seq<string>, start: nat, s: nat, got: seq<string>, counts: seq<nat>) {
    got <= all && s == start + |got| && Sum(counts) == |got|
  }

  lemma ReceivedNext(lines: seq<string>, size: nat, start: nat, s: nat, got: seq<string>, counts: seq<nat>, k: nat,
                     a: nat)
    requires Received(TruncateAll(From(lines, start), size), start, s, got, counts) && a <= k <= |From(lines, s)|
    ensures Received(TruncateAll(From(lines, start), size), start, s + a,
                     got + TruncateAll(From(lines, s)[..k], size)[..a], counts + [a])
    ensures a == |From(lines, s)| ==>
              got + TruncateAll(From(lines, s)[..k], size)[..a] == TruncateAll(From(lines, start), size)
  {
    var all := TruncateAll(From(lines, start), size);
    assert From(lines, s) == From(lines, start)[|got|..];
    assert TruncateAll(From(lines, s)[..k], size)[..a] == all[|got|..|got| + a];
    assert got + all[|got|..|got| + a] == all[..|got| + a];
    assert (counts + [a])[..|counts|] == counts;
  }

  /** A reader that asks again, from the first package not acknowledged, until a round is acknowledged to its end or
      there are no more rounds: what was acknowledged in all rounds together is the sequence of packages from the start
      on, in order, without gap or repetition, and all of it if the last round was acknowledged to its end. */
  method ReadInRounds(server: ChunkServer, name: Name, path: Name, index: nat, start: nat, rounds: nat,
                      ack: (nat, nat) -> bool)
    returns (got: seq<string>, done: bool, ghost counts: seq<nat>)
    requires CountReadable(server.db.m, name, path) && name != "" && path != ""
    ensures var all := TruncateAll(From(Lines(ReadChunk(server.db.m, name, path, index)), start), server.packageSize);
            got <= all && (done ==> got == all)
    ensures Sum(counts) == |got| && |counts| <= rounds && (if done then counts != [] else |counts| == rounds)
    ensures RoundsEnded(counts, done, ack)
  {
    hide Lines, ReadChunk, CountReadable, TruncateAll, From, Stoi, Received;
    ghost var lines, size := Lines(ReadChunk(server.db.m, name, path, index)), server.packageSize;
    ghost var all := TruncateAll(From(lines, start), size);
    got, done, counts := [], false, [];
    var s: nat, r: nat := start, 0;
    assert Received(all, start, s, got, counts) by { NothingReceived(all, start); }
    while r < rounds
      invariant r <= rounds && r == |counts| && !done && Received(all, start, s, got, counts)
      invariant RoundsEnded(counts, done, ack)
    {
      StoiToString(index);
      StoiToString(s);
      var answer := Answers(ack, r);
      var threw, sent, k := server.ServeChunk(name, path, [ToString(index), ToString(s)], answer);
      var a := if k > 0 && !ack(r, k - 1) then k - 1 else k;
      ReceivedNext(lines, size, start, s, got, counts, k, a);
      assert sent[..a] == TruncateAll(From(lines, s)[..k], size)[..a];
      RoundsNext(counts, a, a == k, ack);
      got, s, counts := got + sent[..a], s + a, counts + [a];
      r := r + 1;
      if a == k {
        done := true;
        break;
      }
    }
    assert got <= all && Sum(counts) == |got| by { ReceivedPrefix(all, start, s, got, counts); }
  }

  lemma RoundsNext(counts: seq<nat>, a: nat, last: bool, ack: (nat, nat) -> bool)
    requires RoundsEnded(counts, false, ack) && (forall t: nat :: t < a ==> ack(|counts|, t))
    requires last || !ack(|counts|, a)
    ensures RoundsEnded(counts + [a], last, ack)
  {
  }

  lemma NothingReceived(all: seq<string>, start: nat)
    ensures Received(all, start, start, [], [])
  {
  }

  lemma ReceivedPrefix(all: seq<string>, start: nat, s: nat, got: seq<string>, counts: seq<nat>)
    requires Received(all, start, s, got, counts)
    ensures got <= all && Sum(counts) == |got|
  {
  }
}
