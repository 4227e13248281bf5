/** File objects (src/modules/meta_data/file.h, file.cc). */
module Files {
  import opened Text
  import opened Keys
  import opened Database
  import opened MetaData
  import opened FileStore

  lemma CountKeyUrl(n: Name, p: Name)
    ensures CountKey(n, p) == n + "|" + p
    ensures UrlName(CountKey(n, p)) == n && UrlPath(CountKey(n, p)) == p
  {
    JoinAppend([n], p, '|');
    assert [n] + [p] == [n, p];
    ParseUrl(n, p);
  }

  /** The stored count is a number std::stoi accepts. */
  predicate CountReadable(m: Store, n: Name, p: Name) {
    CountKey(n, p) in m ==> Stoi(m[CountKey(n, p)]).Some? && Stoi(m[CountKey(n, p)]).value >= 0
  }

  class File {
    var name: string
    var path: string
    var url: string
    var count: nat
    var isOpen: bool
    var db: LevelDB?

    ghost predicate Valid()
      reads this
    {
      Free(name, '|') && Free(path, '|') && url == CountKey(name, path) && (isOpen ==> db != null)
    }

    constructor FromUrl(fileUrl: string)
      ensures url == fileUrl && name == UrlName(fileUrl) && path == UrlPath(fileUrl)
      ensures !isOpen && db == null && count == 0
    {
      url, name, path := fileUrl, UrlName(fileUrl), UrlPath(fileUrl);
      isOpen, db, count := false, null, 0;
    }

    constructor FromName(name: Name, path: Name)
      ensures this.name == name && this.path == path && Valid()
      ensures !isOpen && db == null && count == 0
    {
      this.name, this.path := name, path;
      BuiltKeys(name, path, 0);
      url := PopBack(JoinKey([name, path]));
      isOpen, db, count := false, null, 0;
    }

    /** Opening reads the stored count; a file never stored has no chunks. */
    method Open(db: LevelDB?) returns (ok: bool)
      requires Valid() && (db != null ==> CountReadable(db.m, name, path))
      modifies this`db, this`isOpen, this`count
      ensures Valid() && ok == (db != null)
      ensures ok ==> isOpen && this.db == db && count == ChunkCount(db.m, name, path)
      ensures !ok ==> isOpen == old(isOpen) && this.db == old(this.db) && count == old(count)
    {
      if db == null {
        return false;
      }
      this.db, isOpen := db, true;
      var found, value := db.Get(url, "");
      if !found {
        count := 0;
        NoNumber();
      } else {
        count := Stoi(value).value;
      }
      return true;
    }

    method Close()
      requires Valid()
      modifies this`isOpen
      ensures Valid() && !isOpen
    {
      isOpen := false;
    }

    /** Chunk i of this file, opened on the file's database. */
    method ChunkAt(i: nat) returns (c: Chunk)
      requires Valid() && db != null
      ensures fresh(c) && c.Valid() && c.isOpen && c.db == db && c.index == c.at == i
      ensures c.name == name && c.path == path
    {
      c := new Chunk.FromUrl(url, i);
      BuiltKeys(name, path, i);
      CountKeyUrl(name, path);
      var _ := c.Open(db);
    }

    method Write(buffer: string, index: nat) returns (ok: bool)
      requires Valid()
      modifies db
      ensures ok == (isOpen && index <= count)
      ensures ok ==> db.m == old(db.m)[DataKey(name, path, index) := buffer]
      ensures !ok && db != null ==> db.m == old(db.m)
    {
      if !isOpen {
        return false;
      }
      if index > count {
        return false;
      }
      var c := ChunkAt(index);
      ok := c.Write(buffer);
      c.Close();
    }

    method Read(before: string, index: nat) returns (ok: bool, buffer: string)
      requires Valid()
      ensures ok == (isOpen && index <= count && DataKey(name, path, index) in db.m)
      ensures buffer == if ok then db.m[DataKey(name, path, index)] else before
    {
      if !isOpen {
        return false, before;
      }
      if index > count {
        return false, before;
      }
      var c := ChunkAt(index);
      ok, buffer := c.Read(before);
      c.Close();
    }

    method Append(buffer: string) returns (ok: bool)
      requires Valid()
      modifies db, this`count
      ensures Valid() && ok == isOpen
      ensures isOpen ==> count == old(count) + 1 && db.m == AppendedData(old(db.m), name, path, old(count), buffer)
      ensures !isOpen ==> count == old(count) && (db != null ==> db.m == old(db.m))
    {
      if !isOpen {
        return false;
      }
      var c := ChunkAt(count);
      ok := c.Write(buffer);
      c.Close();
      count := count + 1;
      var _ := db.Put(url, ToString(count));
    }

    method AppendMetaData(addr: string, port: Int16) returns (ok: bool)
      requires Valid()
      modifies db, this`count
      ensures Valid() && ok == isOpen
      ensures isOpen ==>
                count == old(count) + 1 && db.m == AppendedMeta(old(db.m), name, path, old(count), Place(addr, port))
      ensures !isOpen ==> count == old(count) && (db != null ==> db.m == old(db.m))
    {
      if !isOpen {
        return false;
      }
      var c := ChunkAt(count);
      c.addr, c.port := addr, port;
      ok := c.RecordMetaData();
      c.Close();
      count := count + 1;
      var _ := db.Put(url, ToString(count));
    }

    method ReadChunkMetaData(index: int, res: seq<string>) returns (ok: bool, res': seq<string>)
      requires Valid() && db != null
      requires 0 <= index <= count ==> Readable(MetaRead(db.m, name, path, index))
      ensures !(0 <= index <= count) ==> !ok && res' == res
      ensures 0 <= index <= count ==> var r := MetaRead(db.m, name, path, index); ok == (|r| == 3) && res' == res + r
    {
      if index < 0 || index > count {
        return false, res;
      }
      var c := ChunkAt(index);
      ok, res' := c.ReadMetaData(res);
      c.Close();
    }

    method DelChunkMetaData(index: int) returns (ok: bool)
      requires Valid() && db != null
      modifies db
      ensures ok == (0 <= index <= count)
      ensures db.m == if ok then old(db.m) - MetaKeys(name, path, index) else old(db.m)
    {
      if index < 0 || index > count {
        return false;
      }
      var c := ChunkAt(index);
      var _ := c.DelMetaData();
      c.Close();
      return true;
    }

    /** Chunk i of this file by name and path, opened on the file's database. */
    method NamedChunk(i: nat) returns (c: Chunk)
      requires Valid() && db != null
      ensures fresh(c) && c.Valid() && c.isOpen && c.db == db && c.index == c.at == i
      ensures c.name == name && c.path == path
    {
      c := new Chunk.FromName(name, path, i);
      BuiltKeys(name, path, i);
      var _ := c.Open(db);
    }

    /** The end of a rename or move: the old URL counts no chunks, the new one all of them. */
    method Retarget(newName: Name, newPath: Name)
      requires Valid() && db != null
      modifies this`name, this`path, this`url, db
      ensures Valid() && name == newName && path == newPath
      ensures db.m == old(db.m)[CountKey(old(name), old(path)) := Dec(0)][CountKey(newName, newPath) := Dec(count)]
    {
      var _ := db.Put(url, ToString(0));
      BuiltKeys(newName, newPath, 0);
      name, path := newName, newPath;
      url := PopBack(JoinKey([name, path]));
      var _ := db.Put(url, ToString(count));
    }

    method Rename(newName: Name) returns (ok: bool)
      requires Valid() && db != null && forall i: nat :: i < count ==> ChunkOk(db.m, name, path, i)
      modifies this`name, this`path, this`url, db
      ensures ok && Valid() && name == newName && path == old(path)
      ensures db.m == if newName == old(name) then old(db.m)
                      else MovedFile(old(db.m), old(name), path, newName, path, count)
    {
      hide Encode, RelocatedTo, MetaRead;
      if newName == name {
        return true;
      }
      var i := 0;
      while i < count
        invariant i <= count && Valid() && name == old(name) && path == old(path)
        invariant db.m == RelocatedChunks(old(db.m), name, path, newName, path, i)
      {
        var c := NamedChunk(i);
        NextMovable(old(db.m), name, path, newName, path, i);
        ok := c.Rename(newName);
        if !ok {
          return;
        }
        c.Close();
        i := i + 1;
      }
      Retarget(newName, path);
      return true;
    }

    method Move(newPath: Name) returns (ok: bool)
      requires Valid() && db != null && forall i: nat :: i < count ==> ChunkOk(db.m, name, path, i)
      modifies this`name, this`path, this`url, db
      ensures ok && Valid() && path == newPath && name == old(name)
      ensures db.m == if newPath == old(path) then old(db.m)
                      else MovedFile(old(db.m), name, old(path), name, newPath, count)
    {
      hide Encode, RelocatedTo, MetaRead;
      if newPath == path {
        return true;
      }
      var i := 0;
      while i < count
        invariant i <= count && Valid() && name == old(name) && path == old(path)
        invariant db.m == RelocatedChunks(old(db.m), name, path, name, newPath, i)
      {
        var c := NamedChunk(i);
        NextMovable(old(db.m), name, path, name, newPath, i);
        ok := c.Move(newPath);
        if !ok {
          return;
        }
        c.Close();
        i := i + 1;
      }
      Retarget(name, newPath);
      return true;
    }
  }

  lemma NoNumber()
    ensures Number("") == 0
  {
  }
}
