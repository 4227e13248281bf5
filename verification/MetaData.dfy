/** Files and chunks over the flat store (src/modules/meta_data). */
module MetaData {
  import opened Text
  import opened Keys
  import opened Database

  type Int16 = n: int | -TWO_TO_15 <= n < TWO_TO_15

  // ----- Parsing a file URL with find and substr -----

  /** std::string::find: the first position at or after `from`; None is npos, which is larger than any string. */
  function FindFrom(s: string, c: char, from: nat): (r: Option<nat>)
    decreases |s| - from
    ensures r.Some? ==> from <= r.value < |s|
  {
    if from >= |s| then None else if s[from] == c then Some(from) else FindFrom(s, c, from + 1)
  }

  /** std::string::substr at a position inside the string. */
  function Substr(s: string, pos: nat, count: Option<nat>): string
    requires pos <= |s|
  {
    if count.Some? && pos + count.value < |s| then s[pos..pos + count.value] else s[pos..]
  }

  function UrlName(url: string): string {
    Substr(url, 0, FindFrom(url, '|', 0))
  }

  /** The count passed for the path is the position of the second separator less one; without any separator the search
      for the second starts at npos + 1, which is 0. */
  function UrlPath(url: string): string {
    var end1 := FindFrom(url, '|', 0);
    var start := if end1.None? then 0 else end1.value + 1;
    var end2 := FindFrom(url, '|', start);
    Substr(url, start, if end2.None? || end2.value == 0 then None else Some(end2.value - 1))
  }

  lemma {:induction false} FindFromFree(s: string, c: char, from: nat, at: nat)
    requires from <= at <= |s| && c !in s[from..at] && (at < |s| ==> s[at] == c)
    ensures FindFrom(s, c, from) == if at < |s| then Some(at) else None
    decreases at - from
  {
    if from < at {
      assert s[from] == s[from..at][0];
      assert s[from + 1..at] == s[from..at][1..];
      FindFromFree(s, c, from + 1, at);
    }
  }

  /** In a joined URL the first separator stands behind the name, and the second where the path has its first. */
  lemma FindInUrl(url: string, n: Name, p: string, k: nat)
    requires |url| == |n| + 1 + |p| && url[..|n|] == n && url[|n|] == '|' && url[|n| + 1..] == p
    requires k <= |p| && Free(p[..k], '|') && (k < |p| ==> p[k] == '|')
    ensures FindFrom(url, '|', 0) == Some(|n|)
    ensures FindFrom(url, '|', |n| + 1) == if k < |p| then Some(|n| + 1 + k) else None
  {
    assert url[0..|n|] == n;
    FindFromFree(url, '|', 0, |n|);
    var from := |n| + 1;
    assert url[from..from + k] == url[from..][..k];
    assert k < |p| ==> url[from + k] == url[from..][k];
    FindFromFree(url, '|', from, from + k);
  }

  /** Where the path is cut out of a URL whose first separator stands before `start`. */
  lemma CutPath(url: string, start: nat, second: Option<nat>)
    requires 0 < start <= |url| && FindFrom(url, '|', 0) == Some(start - 1) && FindFrom(url, '|', start) == second
    ensures UrlName(url) == Substr(url, 0, Some(start - 1))
    ensures UrlPath(url) == Substr(url, start, if second.None? then None else Some(second.value - 1))
  {
    hide FindFrom, Substr;
  }

  /** Parsing a joined URL returns the name always, and the path exactly when it holds no separator or the cut made at
      the wrong place still falls at its end or behind it. */
  lemma ParseUrl(n: Name, p: string)
    ensures UrlName(n + "|" + p) == n
    ensures UrlPath(n + "|" + p) == p <==> Free(p, '|') || |p| <= |n| + FirstSeparator(p)
  {
    hide FindFrom, Substr, FirstSeparator, UrlName, UrlPath;
    var url := n + "|" + p;
    assert url[..|n|] == n && url[|n|] == '|' && url[|n| + 1..] == p;
    if Free(p, '|') {
      assert p[..|p|] == p;
      FindInUrl(url, n, p, |p|);
      CutPath(url, |n| + 1, None);
      SubstrOfUrl(n, p, None);
    } else {
      var k := FirstSeparator(p);
      FindInUrl(url, n, p, k);
      CutPath(url, |n| + 1, Some(|n| + 1 + k));
      SubstrOfUrl(n, p, Some(|n| + k));
    }
  }

  lemma SubstrOfUrl(n: string, p: string, count: Option<nat>)
    ensures Substr(n + "|" + p, 0, Some(|n|)) == n
    ensures Substr(n + "|" + p, |n| + 1, count) == p <==> count.None? || |p| <= count.value
  {
    var url := n + "|" + p;
    assert url[0..|n|] == n && url[|n| + 1..] == p;
    if count.Some? && count.value < |p| {
      assert |url[|n| + 1..|n| + 1 + count.value]| == count.value;
    }
  }

  function FirstSeparator(p: string): (k: nat)
    requires !Free(p, '|')
    ensures k < |p| && p[k] == '|' && Free(p[..k], '|')
  {
    if p[0] == '|' then 0 else
      var k := 1 + FirstSeparator(p[1..]);
      assert p[..k] == [p[0]] + p[1..][..k - 1];
      k
  }

  // ----- The stored form of files and chunks -----

  function CountKey(n: Name, p: Name): string {
    Encode(Count(n, p))
  }

  function DataKey(n: Name, p: Name, i: nat): string {
    Encode(Data(n, p, i))
  }

  function MetaKey(n: Name, p: Name, i: nat, f: Field): string {
    Encode(Meta(n, p, i, f))
  }

  function MetaKeys(n: Name, p: Name, i: nat): set<string> {
    {MetaKey(n, p, i, Addr), MetaKey(n, p, i, Port), MetaKey(n, p, i, Index)}
  }

  /** What read_meta_data appends: the fields up to the first missing one. */
  function MetaRead(m: Store, n: Name, p: Name, i: nat): (r: seq<string>)
    ensures |r| <= 3
  {
    if MetaKey(n, p, i, Addr) !in m then []
    else if MetaKey(n, p, i, Port) !in m then [m[MetaKey(n, p, i, Addr)]]
    else if MetaKey(n, p, i, Index) !in m then [m[MetaKey(n, p, i, Addr)], m[MetaKey(n, p, i, Port)]]
    else [m[MetaKey(n, p, i, Addr)], m[MetaKey(n, p, i, Port)], m[MetaKey(n, p, i, Index)]]
  }

  /** The fields that std::stoi is applied to hold numbers. */
  predicate Readable(r: seq<string>) {
    && (|r| >= 2 ==> Stoi(r[1]).Some?)
    && (|r| >= 3 ==> Stoi(r[2]).Some? && Stoi(r[2]).value >= 0)
  }

  /** The chunk's metadata has no address, or a port besides. */
  predicate Movable(m: Store, n: Name, p: Name, i: nat) {
    var r := MetaRead(m, n, p, i);
    |r| != 1 && Readable(r)
  }

  /** Metadata stored for chunk i, with the index j in it. */
  function RecordedIndex(m: Store, n: Name, p: Name, i: nat, addr: string, port: Int16, j: nat): Store {
    m[MetaKey(n, p, i, Addr) := addr][MetaKey(n, p, i, Port) := ToString(port)][MetaKey(n, p, i, Index) := Dec(j)]
  }

  function Recorded(m: Store, n: Name, p: Name, i: nat, addr: string, port: Int16): Store {
    RecordedIndex(m, n, p, i, addr, port, i)
  }

  /** std::stoi where it does not throw. */
  function Number(s: string): int {
    if Stoi(s).Some? then Stoi(s).value else 0
  }

  /** The index a moved chunk gets: the stored one, if there is metadata. */
  function TargetIndex(m: Store, n: Name, p: Name, i: nat): nat {
    var r := MetaRead(m, n, p, i);
    if |r| < 3 || Number(r[2]) < 0 then i else Number(r[2])
  }

  /** Chunk (n, p, i) taken out of the store and stored again under (n', p') at index j. */
  function RelocatedTo(m: Store, n: Name, p: Name, i: nat, n': Name, p': Name, j: nat): Store {
    var r := MetaRead(m, n, p, i);
    var placed := (m - {DataKey(n, p, i)} - MetaKeys(n, p, i))[DataKey(n', p', j) := Value(m, DataKey(n, p, i))];
    if |r| < 2 then placed else Recorded(placed, n', p', j, r[0], ToInt16(Number(r[1])))
  }

  /** The same at the index a moved chunk gets. */
  function Relocated(m: Store, n: Name, p: Name, i: nat, n': Name, p': Name): Store {
    RelocatedTo(m, n, p, i, n', p', TargetIndex(m, n, p, i))
  }

  class Chunk {
    var addr: string
    var port: Int16
    var name: string
    var path: string
    var db: LevelDB?
    var url: string
    var index: nat
    var isOpen: bool
    ghost var at: nat

    /** The URL is the data key of the chunk at position `at` of its file; `index` may differ after reading metadata. */
    ghost predicate Valid()
      reads this
    {
      Free(name, '|') && Free(path, '|') && url == DataKey(name, path, at) && (isOpen ==> db != null)
    }

    constructor FromUrl(fileUrl: string, index: nat)
      ensures url == PopBack(JoinKey([fileUrl, Dec(index)])) && name == UrlName(fileUrl) && path == UrlPath(fileUrl)
      ensures at == this.index == index && !isOpen && db == null
    {
      addr, port := "", 0;
      this.index, at := index, index;
      url := PopBack(JoinKey([fileUrl, Dec(index)]));
      name, path := UrlName(fileUrl), UrlPath(fileUrl);
      isOpen, db := false, null;
    }

    constructor FromName(name: string, path: string, index: nat)
      ensures url == PopBack(JoinKey([name, path, Dec(index)])) && this.name == name && this.path == path
      ensures at == this.index == index && !isOpen && db == null
    {
      addr, port := "", 0;
      this.index, at := index, index;
      this.name, this.path := name, path;
      url := PopBack(JoinKey([name, path, Dec(index)]));
      isOpen, db := false, null;
    }

    method Open(db: LevelDB?) returns (ok: bool)
      modifies this`db, this`isOpen
      ensures ok <==> db != null
      ensures if ok then isOpen && this.db == db else isOpen == old(isOpen) && this.db == old(this.db)
    {
      if db == null {
        return false;
      }
      this.db, isOpen := db, true;
      return true;
    }

    method Close()
      modifies this`isOpen
      ensures !isOpen
    {
      isOpen := false;
    }

    method Write(buffer: string) returns (ok: bool)
      requires Valid()
      modifies db
      ensures ok == isOpen
      ensures isOpen ==> db.m == old(db.m)[url := buffer]
      ensures !isOpen && db != null ==> db.m == old(db.m)
    {
      if !isOpen {
        return false;
      }
      ok := db.Put(url, buffer);
    }

    method Read(before: string) returns (ok: bool, buffer: string)
      requires Valid()
      ensures ok == (isOpen && url in db.m) && buffer == if ok then db.m[url] else before
    {
      if !isOpen {
        return false, before;
      }
      ok, buffer := db.Get(url, before);
    }

    method Del() returns (ok: bool)
      requires Valid()
      modifies db
      ensures ok == isOpen
      ensures isOpen ==> db.m == old(db.m) - {url}
      ensures !isOpen && db != null ==> db.m == old(db.m)
    {
      if !isOpen {
        return false;
      }
      ok := db.Delete(url);
    }

    /** Stores the fields of this object under its own URL. */
    method RecordMetaData() returns (ok: bool)
      requires Valid()
      modifies db
      ensures ok == isOpen
      ensures isOpen ==> db.m == RecordedIndex(old(db.m), name, path, at, addr, port, index)
      ensures !isOpen && db != null ==> db.m == old(db.m)
    {
      if !isOpen {
        return false;
      }
      BuiltKeys(name, path, at);
      ok := db.Put(JoinKey([url, FieldName(Addr)]), addr);
      if !ok {
        return false;
      }
      ok := db.Put(JoinKey([url, FieldName(Port)]), ToString(port));
      ok := db.Put(JoinKey([url, FieldName(Index)]), ToString(index));
    }

    /** Appends the stored fields to `res` and takes them over, stopping at the first missing one. */
    method ReadMetaData(res: seq<string>) returns (ok: bool, res': seq<string>)
      requires Valid() && (isOpen ==> Readable(MetaRead(db.m, name, path, at)))
      modifies this`addr, this`port, this`index
      ensures !isOpen ==> !ok && res' == res && addr == old(addr) && port == old(port) && index == old(index)
      ensures isOpen ==> var r := MetaRead(db.m, name, path, at);
                && res' == res + r && ok == (|r| == 3)
                && addr == (if |r| >= 1 then r[0] else old(addr))
                && port == (if |r| >= 2 then ToInt16(Number(r[1])) else old(port))
                && index == (if |r| >= 3 then Number(r[2]) else old(index))
    {
      hide Encode, Stoi;
      res' := res;
      if !isOpen {
        return false, res;
      }
      BuiltKeys(name, path, at);
      var temp;
      ok, temp := db.Get(JoinKey([url, FieldName(Addr)]), "");
      if !ok {
        return;
      }
      addr := temp;
      res' := res' + [temp];
      ok, temp := db.Get(JoinKey([url, FieldName(Port)]), temp);
      if !ok {
        return;
      }
      res' := res' + [temp];
      port := ToInt16(Stoi(temp).value);
      ok, temp := db.Get(JoinKey([url, FieldName(Index)]), temp);
      if !ok {
        return;
      }
      res' := res' + [temp];
      index := Stoi(temp).value;
    }

    method DelMetaData() returns (ok: bool)
      requires Valid()
      modifies db
      ensures ok == isOpen
      ensures isOpen ==> db.m == old(db.m) - MetaKeys(name, path, at)
      ensures !isOpen && db != null ==> db.m == old(db.m)
    {
      if !isOpen {
        return false;
      }
      BuiltKeys(name, path, at);
      ok := db.Delete(JoinKey([url, FieldName(Addr)]));
      ok := db.Delete(JoinKey([url, FieldName(Port)]));
      ok := db.Delete(JoinKey([url, FieldName(Index)]));
    }

    /** The first half of a rename or move: everything about the chunk is read and deleted, if it is open. */
    method TakeOut() returns (data: string, res: seq<string>)
      requires Valid() && (isOpen ==> Movable(db.m, name, path, at))
      modifies db, this`addr, this`port, this`index
      ensures isOpen ==>
                && data == Value(old(db.m), DataKey(name, path, at)) && res == MetaRead(old(db.m), name, path, at)
                && db.m == old(db.m) - {DataKey(name, path, at)} - MetaKeys(name, path, at)
                && index == if |res| < 3 then old(index) else Number(res[2])
      ensures !isOpen ==> data == "" && res == [] && index == old(index) && (db != null ==> db.m == old(db.m))
    {
      var _, data' := Read("");
      data := data';
      var _, res' := ReadMetaData([]);
      res := res';
      var _ := Del();
      var _ := DelMetaData();
    }

    /** The second half: stored again under the URL built from the fields. */
    method PutBack(data: string, res: seq<string>) returns (ok: bool)
      requires Free(name, '|') && Free(path, '|') && (isOpen ==> db != null)
      requires |res| != 1 && Readable(res)
      modifies db, this`url, this`at, this`addr, this`port
      ensures ok == isOpen && Valid() && at == index
      ensures isOpen ==> var placed := old(db.m)[DataKey(name, path, index) := data];
                db.m == if res == [] then placed
                        else Recorded(placed, name, path, index, res[0], ToInt16(Number(res[1])))
      ensures !isOpen && db != null ==> db.m == old(db.m)
    {
      BuiltKeys(name, path, index);
      url := PopBack(JoinKey([name, path, Dec(index)]));
      at := index;
      ok := Write(data);
      if !ok {
        return false;
      }
      if res != [] {
        addr, port := res[0], ToInt16(Number(res[1]));
        ok := RecordMetaData();
      }
    }

    /** The index a rename or move stores the chunk at: the stored one, or the object's if there is no metadata. */
    ghost function NextIndex(): nat
      requires Valid() && isOpen
      reads this, db
    {
      var r := MetaRead(db.m, name, path, at);
      if |r| < 3 || Number(r[2]) < 0 then index else Number(r[2])
    }

    /** A chunk that is not open gets the new name, but nothing is stored under it. */
    method Rename(newName: Name) returns (ok: bool)
      requires Valid() && (isOpen ==> Movable(db.m, name, path, at))
      modifies this, db
      ensures Valid() && ok == isOpen == old(isOpen) && db == old(db) && name == newName && path == old(path) &&
              at == index
      ensures isOpen ==>
                && index == old(NextIndex())
                && db.m == RelocatedTo(old(db.m), old(name), path, old(at), newName, path, index)
      ensures !isOpen ==> index == old(index) && (db != null ==> db.m == old(db.m))
    {
      var data, res := TakeOut();
      name := newName;
      ok := PutBack(data, res);
    }

    method Move(newPath: Name) returns (ok: bool)
      requires Valid() && (isOpen ==> Movable(db.m, name, path, at))
      modifies this, db
      ensures Valid() && ok == isOpen == old(isOpen) && db == old(db) && name == old(name) && path == newPath &&
              at == index
      ensures isOpen ==>
                && index == old(NextIndex())
                && db.m == RelocatedTo(old(db.m), name, old(path), old(at), name, newPath, index)
      ensures !isOpen ==> index == old(index) && (db != null ==> db.m == old(db.m))
    {
      var data, res := TakeOut();
      path := newPath;
      ok := PutBack(data, res);
    }
  }
}
