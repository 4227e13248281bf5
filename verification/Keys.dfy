/** The key schema: how users, files, chunks, chunk metadata and lists share one flat map of strings. */
module Keys {
  import opened Text

  /** A user, file, path or list name; the schema relies on these holding no separator. */
  type Name = s: string | Free(s, '|')

  datatype Field = Addr | Port | Index

  datatype Key =
    | User(user: Name)
    | Count(name: Name, path: Name)
    | Data(name: Name, path: Name, index: nat)
    | Meta(name: Name, path: Name, index: nat, field: Field)
    | ListLength(list: Name)
    | ListSlot(list: Name, slot: nat)

  function FieldName(f: Field): string {
    match f
    case Addr => "addr"
    case Port => "port"
    case Index => "index"
  }

  function Parts(k: Key): seq<string> {
    match k
    case User(u) => [u]
    case Count(n, p) => [n, p]
    case Data(n, p, i) => [n, p, Dec(i)]
    case Meta(n, p, i, f) => [n, p, Dec(i), FieldName(f), ""]
    case ListLength(l) => [l, "length", ""]
    case ListSlot(l, i) => [l, Dec(i), ""]
  }

  /** The string a key is stored under. */
  function Encode(k: Key): string {
    Join(Parts(k), '|')
  }

  /** levelDB::joinkey: every part is followed by a separator. */
  function JoinKey(args: seq<string>): string {
    if args == [] then "" else args[0] + "|" + JoinKey(args[1..])
  }

  /** std::string::pop_back. */
  function PopBack(s: string): string
    requires s != ""
  {
    s[..|s| - 1]
  }

  /** The loop of joinkey. */
  method JoinKeyLoop(args: seq<string>) returns (key: string)
    ensures key == JoinKey(args)
  {
    key := "";
    for i := 0 to |args|
      invariant key + JoinKey(args[i..]) == JoinKey(args)
    {
      assert args[i..][0] == args[i] && args[i..][1..] == args[i + 1..];
      key := key + (args[i] + "|");
    }
  }

  lemma {:induction false} JoinKeyIsJoin(args: seq<string>)
    ensures JoinKey(args) == Join(args + [""], '|')
  {
    if args != [] {
      JoinKeyIsJoin(args[1..]);
      assert (args + [""])[1..] == args[1..] + [""];
    }
  }

  /** Dropping the last separator of a joined key leaves the joined parts. */
  lemma JoinKeyBase(args: seq<string>)
    requires args != []
    ensures JoinKey(args) == Join(args, '|') + "|" && PopBack(JoinKey(args)) == Join(args, '|')
  {
    JoinKeyIsJoin(args);
    JoinAppend(args, "", '|');
  }

  lemma PartsFree(k: Key)
    ensures |Parts(k)| > 0 && AllFree(Parts(k), '|')
  {
    match k
    case User(u) =>
    case Count(n, p) =>
    case Data(n, p, i) => DecFree(i, '|');
    case Meta(n, p, i, f) => DecFree(i, '|');
    case ListLength(l) =>
    case ListSlot(l, i) => DecFree(i, '|');
  }

  lemma PartsInjective(a: Key, b: Key)
    requires Parts(a) == Parts(b)
    ensures a == b
  {
    if (a.Data? && b.Data?) || (a.Meta? && b.Meta?) {
      assert Dec(a.index) == Parts(a)[2] == Parts(b)[2] == Dec(b.index);
      DecInjective(a.index, b.index);
      assert a.name == Parts(a)[0] == Parts(b)[0] == b.name && a.path == Parts(a)[1] == Parts(b)[1] == b.path;
      if a.Meta? {
        assert FieldName(a.field) == Parts(a)[3] == Parts(b)[3] == FieldName(b.field);
      }
    } else if a.ListSlot? && b.ListSlot? {
      assert Dec(a.slot) == Parts(a)[1] == Parts(b)[1] == Dec(b.slot);
      DecInjective(a.slot, b.slot);
      assert a.list == Parts(a)[0] == Parts(b)[0] == b.list;
    } else if a.ListLength? && b.ListLength? {
      assert a.list == Parts(a)[0] == Parts(b)[0] == b.list;
    } else if a.Count? && b.Count? {
      assert a.name == Parts(a)[0] == Parts(b)[0] == b.name && a.path == Parts(a)[1] == Parts(b)[1] == b.path;
    } else if a.User? && b.User? {
      assert a.user == Parts(a)[0] == Parts(b)[0] == b.user;
    } else {
      DifferentKinds(a, b);
    }
  }

  /** Keys of two kinds differ in the number of parts or in their third or second part. */
  lemma DifferentKinds(a: Key, b: Key)
    requires !(a.User? && b.User?) && !(a.Count? && b.Count?) && !(a.Data? && b.Data?)
    requires !(a.Meta? && b.Meta?) && !(a.ListLength? && b.ListLength?) && !(a.ListSlot? && b.ListSlot?)
    ensures Parts(a) != Parts(b)
  {
    assert !AllDigits("length") by { assert !IsDigit("length"[0]); }
    if |Parts(a)| == |Parts(b)| {
      assert Parts(a)[1] != Parts(b)[1] || Parts(a)[2] != Parts(b)[2];
    }
  }

  /** The schema is free of collisions: two different keys of any kinds never share a string. */
  lemma EncodeInjective(a: Key, b: Key)
    requires Encode(a) == Encode(b)
    ensures a == b
  {
    PartsFree(a);
    PartsFree(b);
    JoinInjective(Parts(a), Parts(b), '|');
    PartsInjective(a, b);
  }

  /** The key stored under a string. */
  ghost function Decode(s: string): Key {
    if exists k :: Encode(k) == s then var k :| Encode(k) == s; k else User("")
  }

  /** EncodeInjective for all keys at once, in a form that gives one fact a key. */
  lemma EncodeDecode()
    ensures forall k: Key :: Decode(Encode(k)) == k
  {
    forall k: Key
      ensures Decode(Encode(k)) == k
    {
      var d := Decode(Encode(k));
      assert Encode(d) == Encode(k);
      EncodeInjective(d, k);
    }
  }

  /** The strings the classes build by joining parts, and by joining a further part to a string built before,
      are the keys of the schema; both chunk constructors build the same key. */
  lemma BuiltKeys(n: Name, p: Name, i: nat)
    ensures JoinKey([n, p]) != "" && PopBack(JoinKey([n, p])) == Encode(Count(n, p))
    ensures JoinKey([n, p, Dec(i)]) != "" && PopBack(JoinKey([n, p, Dec(i)])) == Encode(Data(n, p, i))
    ensures JoinKey([Encode(Count(n, p)), Dec(i)]) != ""
    ensures PopBack(JoinKey([Encode(Count(n, p)), Dec(i)])) == Encode(Data(n, p, i))
    ensures forall f: Field :: JoinKey([Encode(Data(n, p, i)), FieldName(f)]) == Encode(Meta(n, p, i, f))
  {
    JoinKeyBase([n, p]);
    JoinKeyBase([n, p, Dec(i)]);
    JoinKeyBase([Encode(Count(n, p)), Dec(i)]);
    JoinAppend([n, p], Dec(i), '|');
    assert [n, p] + [Dec(i)] == [n, p, Dec(i)];
    JoinAppend([Encode(Count(n, p))], Dec(i), '|');
    assert [Encode(Count(n, p))] + [Dec(i)] == [Encode(Count(n, p)), Dec(i)];
    forall f: Field
      ensures JoinKey([Encode(Data(n, p, i)), FieldName(f)]) == Encode(Meta(n, p, i, f))
    {
      var url := Encode(Data(n, p, i));
      JoinKeyBase([url, FieldName(f)]);
      JoinAppend([url], FieldName(f), '|');
      assert [url] + [FieldName(f)] == [url, FieldName(f)];
      JoinAppend([n, p, Dec(i)], FieldName(f), '|');
      JoinAppend([n, p, Dec(i), FieldName(f)], "", '|');
      assert [n, p, Dec(i)] + [FieldName(f)] == [n, p, Dec(i), FieldName(f)];
      assert [n, p, Dec(i), FieldName(f)] + [""] == Parts(Meta(n, p, i, f));
    }
  }

  lemma BuiltListKeys(l: Name, i: nat)
    ensures JoinKey([l, "length"]) == Encode(ListLength(l))
    ensures JoinKey([l, Dec(i)]) == Encode(ListSlot(l, i))
  {
    JoinKeyIsJoin([l, "length"]);
    assert [l, "length"] + [""] == Parts(ListLength(l));
    JoinKeyIsJoin([l, Dec(i)]);
    assert [l, Dec(i)] + [""] == Parts(ListSlot(l, i));
  }

  // ----- Names that hold a separator -----

  /** file::join on any two strings. */
  function JoinedUrl(n: string, p: string): (r: string)
    ensures r == n + "|" + p
  {
    JoinKeyBase([n, p]);
    PopBack(JoinKey([n, p]))
  }

  /** The data key that both chunk constructors build from any two strings. */
  function JoinedDataKey(n: string, p: string, i: nat): (r: string)
    ensures r == JoinedUrl(n, p) + "|" + Dec(i)
  {
    JoinKeyBase([n, p, Dec(i)]);
    JoinAppend([n, p], Dec(i), '|');
    assert [n, p] + [Dec(i)] == [n, p, Dec(i)];
    assert Join([n, p], '|') == n + "|" + p;
    PopBack(JoinKey([n, p, Dec(i)]))
  }

  lemma CutAt(s: string)
    requires !Free(s, '|')
    ensures exists x: string, y: string :: s == JoinedUrl(x, y)
  {
    var k :| 0 <= k < |s| && s[k] == '|';
    assert s == JoinedUrl(s[..k], s[k + 1..]);
  }

  /** No other name and path have the URL of a file, exactly when its name and path hold no separator. */
  lemma UrlUniqueIff(n: string, p: string)
    ensures (forall a: string, b: string :: JoinedUrl(a, b) == JoinedUrl(n, p) ==> a == n && b == p)
            <==> Free(n, '|') && Free(p, '|')
  {
    if Free(n, '|') && Free(p, '|') {
      forall a: string, b: string | JoinedUrl(a, b) == JoinedUrl(n, p)
        ensures a == n && b == p
      {
        OnlySeparator(a, b, n, p);
      }
    } else if !Free(n, '|') {
      CutAt(n);
      var x, y :| n == JoinedUrl(x, y);
      assert JoinedUrl(x, y + "|" + p) == JoinedUrl(n, p);
      assert |x| < |n|;
    } else {
      CutAt(p);
      var x, y :| p == JoinedUrl(x, y);
      assert JoinedUrl(n + "|" + x, y) == JoinedUrl(n, p);
      assert |y| < |p|;
    }
  }

  lemma OnlySeparator(a: string, b: string, n: string, p: string)
    requires a + "|" + b == n + "|" + p && Free(n, '|') && Free(p, '|')
    ensures a == n && b == p
  {
    var s, t := a + "|" + b, n + "|" + p;
    assert s[|a|] == '|';
    assert forall k :: 0 <= k < |t| && k != |n| ==> t[k] == if k < |n| then n[k] else p[k - |n| - 1];
    assert |a| == |n|;
    assert a == s[..|a|] && n == t[..|n|] && b == s[|a| + 1..] && p == t[|n| + 1..];
  }

  /** No file has the key of a user, exactly when the user's name holds no separator. */
  lemma UserKeyUniqueIff(u: string)
    ensures (forall a: string, b: string :: JoinedUrl(a, b) != u) <==> Free(u, '|')
  {
    if Free(u, '|') {
      forall a: string, b: string
        ensures JoinedUrl(a, b) != u
      {
        assert JoinedUrl(a, b)[|a|] == '|';
      }
    } else {
      CutAt(u);
    }
  }

  /** No other chunk has the data key of a chunk, exactly when its file's name and path hold no separator. */
  lemma DataKeyUniqueIff(n: string, p: string, i: nat)
    ensures (forall a: string, b: string, j: nat ::
               JoinedDataKey(a, b, j) == JoinedDataKey(n, p, i) ==> a == n && b == p && j == i)
            <==> Free(n, '|') && Free(p, '|')
  {
    hide JoinedUrl, JoinedDataKey;
    UrlUniqueIff(n, p);
    forall a: string, b: string, j: nat
      ensures JoinedDataKey(a, b, j) == JoinedDataKey(n, p, i) <==> JoinedUrl(a, b) == JoinedUrl(n, p) && j == i
    {
      if JoinedDataKey(a, b, j) == JoinedDataKey(n, p, i) {
        DecFree(i, '|');
        DecFree(j, '|');
        TailUnique(JoinedUrl(a, b), Dec(j), JoinedUrl(n, p), Dec(i), '|');
        DecInjective(i, j);
      }
    }
    if !(Free(n, '|') && Free(p, '|')) {
      var a: string, b: string :| JoinedUrl(a, b) == JoinedUrl(n, p) && !(a == n && b == p);
      assert JoinedDataKey(a, b, i) == JoinedDataKey(n, p, i);
    }
  }

  ghost predicate IsPrinted(s: string) {
    exists i: nat :: s == Dec(i)
  }

  lemma DataKeyParts(a: string, b: string, i: nat)
    ensures var parts := Split(JoinedDataKey(a, b, i), '|'); |parts| >= 3 && parts[|parts| - 1] == Dec(i)
  {
    hide JoinedUrl, JoinedDataKey, Split;
    DecFree(i, '|');
    SplitAppend(JoinedUrl(a, b), Dec(i), '|');
    SplitAppend(a, b, '|');
    SplitFree(Dec(i), '|');
    assert a + "|" + b == a + ['|'] + b;
    assert JoinedDataKey(a, b, i) == JoinedUrl(a, b) + ['|'] + Dec(i);
  }

  lemma PartsDataKey(parts: seq<string>, i: nat)
    requires |parts| >= 3 && parts[|parts| - 1] == Dec(i)
    ensures JoinedDataKey(parts[0], Join(parts[1..|parts| - 1], '|'), i) == Join(parts, '|')
  {
    hide JoinedUrl, JoinedDataKey;
    var init := parts[..|parts| - 1];
    JoinAppend(init, Dec(i), '|');
    assert init + [Dec(i)] == parts;
    assert init[1..] == parts[1..|parts| - 1] && init[0] == parts[0];
    assert Join(init, '|') == JoinedUrl(parts[0], Join(init[1..], '|'));
  }

  /** The count key of a file is the data key of a chunk exactly when it falls into three or more parts at its
      separators and the last of them is a printed number. */
  lemma CountIsDataKeyIff(n: string, p: string)
    ensures (exists a: string, b: string, i: nat :: JoinedDataKey(a, b, i) == JoinedUrl(n, p))
            <==> var parts := Split(JoinedUrl(n, p), '|'); |parts| >= 3 && IsPrinted(parts[|parts| - 1])
  {
    hide JoinedUrl, JoinedDataKey, Split, Join;
    var s := JoinedUrl(n, p);
    var parts := Split(s, '|');
    if a: string, b: string, i: nat :| JoinedDataKey(a, b, i) == s {
      DataKeyParts(a, b, i);
    }
    if |parts| >= 3 && IsPrinted(parts[|parts| - 1]) {
      var i: nat :| parts[|parts| - 1] == Dec(i);
      PartsDataKey(parts, i);
      JoinSplit(s, '|');
    }
  }

  /** The keys of a user, a file, a chunk, its metadata and a list, as they are stored. */
  lemma SchemaKeys(n: Name, p: Name, i: nat)
    ensures Encode(User(n)) == n && Encode(Count(n, p)) == n + "|" + p &&
            Encode(Data(n, p, i)) == n + "|" + p + "|" + Dec(i)
    ensures var k := n + "|" + p + "|" + Dec(i);
            && Encode(Meta(n, p, i, Addr)) == k + "|addr|" && Encode(Meta(n, p, i, Port)) == k + "|port|"
            && Encode(Meta(n, p, i, Index)) == k + "|index|"
    ensures Encode(ListLength(n)) == n + "|length|" && Encode(ListSlot(n, i)) == n + "|" + Dec(i) + "|"
  {
    hide Join, FieldName;
    UserText(n);
    DataText(n, p, i);
    FieldTexts();
    MetaText(n, p, i, Addr);
    MetaText(n, p, i, Port);
    MetaText(n, p, i, Index);
    ListText(n, "length");
    ListText(n, Dec(i));
  }

  lemma UserText(n: Name)
    ensures Join([n], '|') == n
  {
  }

  lemma FieldTexts()
    ensures FieldName(Addr) == "addr" && FieldName(Port) == "port" && FieldName(Index) == "index"
  {
  }

  lemma DataText(n: Name, p: Name, i: nat)
    ensures Join([n, p], '|') == n + "|" + p && Join([n, p, Dec(i)], '|') == n + "|" + p + "|" + Dec(i)
  {
    JoinTwo(n, p);
    JoinAppend([n, p], Dec(i), '|');
    assert [n, p] + [Dec(i)] == [n, p, Dec(i)];
  }

  lemma MetaText(n: Name, p: Name, i: nat, f: Field)
    ensures Encode(Meta(n, p, i, f)) == Encode(Data(n, p, i)) + "|" + FieldName(f) + "|"
  {
    JoinAppend([n, p, Dec(i)], FieldName(f), '|');
    assert [n, p, Dec(i)] + [FieldName(f)] == [n, p, Dec(i), FieldName(f)];
    JoinAppend([n, p, Dec(i), FieldName(f)], "", '|');
    assert [n, p, Dec(i), FieldName(f)] + [""] == [n, p, Dec(i), FieldName(f), ""];
  }

  lemma ListText(l: Name, x: string)
    ensures Join([l, x, ""], '|') == l + "|" + x + "|"
  {
    JoinTwo(l, x);
    JoinAppend([l, x], "", '|');
    assert [l, x] + [""] == [l, x, ""];
  }

  lemma JoinTwo(x: string, y: string)
    ensures Join([x, y], '|') == x + "|" + y
  {
  }

  /** For one, file "a|b" under path "0" has the count key of chunk 0 of "a" under "b". */
  lemma SeparatorInNameCollides()
    ensures PopBack(JoinKey(["a|b", "0"])) == Encode(Data("a", "b", 0))
  {
    JoinKeyBase(["a|b", "0"]);
    assert Join(["a|b", "0"], '|') == "a|b|0";
    assert Join(["a", "b", "0"], '|') == "a|" + Join(["b", "0"], '|') == "a|b|0";
  }
}
