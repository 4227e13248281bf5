/** Messages turned into JSON objects and back by member name (src/modules/protocol). */
module JsonSerial {
  import opened Text

  // ----- Splitting the stringified arguments of a macro -----

  /** std::string::operator[] up to the terminator. */
  function CharAt(s: string, i: nat): char {
    if i < |s| then s[i] else '\0'
  }

  /** The pieces split off from the text s, `temp` having been collected before and characters being taken if `flag`. */
  function Pieces(s: string, flag: bool, temp: string): seq<string>
    decreases |s|
  {
    if s == "" then if temp == "" then [] else [temp]
    else if s[0] == ',' then
      if CharAt(s, 1) == ' ' then [temp] + Pieces(s[2..], false, "") else Pieces(s[1..], false, temp)
    else if s[0] == '.' then Pieces(if |s| > 1 then s[2..] else "", true, temp + [CharAt(s, 1)])
    else Pieces(s[1..], flag, if flag then temp + [s[0]] else temp)
  }

  method SplitString(str: string) returns (ret: seq<string>)
    ensures ret == Pieces(str, false, "")
  {
    ret := [];
    var temp, flag, i := "", false, 0;
    while i < |str|
      invariant ret + Pieces(if i <= |str| then str[i..] else "", flag, temp) == Pieces(str, false, "")
      decreases |str| - i
    {
      ghost var rest := str[i..];
      assert rest[0] == str[i] && rest[1..] == str[i + 1..] && CharAt(rest, 1) == CharAt(str, i + 1);
      assert |rest| > 1 ==> rest[2..] == str[i + 2..];
      if str[i] == ',' {
        flag := false;
        i := i + 1;
        if CharAt(str, i) == ' ' {
          assert ret + ([temp] + Pieces(rest[2..], false, "")) == ret + [temp] + Pieces(rest[2..], false, "");
          ret := ret + [temp];
          temp := "";
          i := i + 1;
        }
      } else if str[i] == '.' {
        i := i + 1;
        flag := true;
        temp := temp + [CharAt(str, i)];
        i := i + 1;
      } else if flag {
        temp := temp + [str[i]];
        i := i + 1;
      } else {
        i := i + 1;
      }
    }
    if temp != "" {
      ret := ret + [temp];
    }
  }

  /** Free of the two characters that SplitString reacts to. */
  predicate Plain(s: string) {
    Free(s, ',') && Free(s, '.')
  }

  predicate MemberNames(names: seq<string>) {
    forall i :: 0 <= i < |names| ==> names[i] != "" && Plain(names[i])
  }

  /** What the preprocessor makes of the arguments o.a, o.b, ... */
  function Stringified(o: string, names: seq<string>): string {
    if names == [] then ""
    else o + "." + names[0] + if |names| == 1 then "" else ", " + Stringified(o, names[1..])
  }

  lemma {:induction false} SkipObject(o: string, rest: string, temp: string)
    requires Plain(o)
    ensures Pieces(o + rest, false, temp) == Pieces(rest, false, temp)
  {
    if o == "" {
      assert o + rest == rest;
    } else {
      assert (o + rest)[1..] == o[1..] + rest;
      SkipObject(o[1..], rest, temp);
    }
  }

  lemma {:induction false} TakeName(a: string, rest: string, temp: string)
    requires Plain(a)
    ensures Pieces(a + rest, true, temp) == Pieces(rest, true, temp + a)
  {
    if a == "" {
      assert a + rest == rest && temp + a == temp;
    } else {
      assert (a + rest)[1..] == a[1..] + rest;
      TakeName(a[1..], rest, temp + [a[0]]);
      assert temp + [a[0]] + a[1..] == temp + a;
    }
  }

  lemma TakeArgument(o: string, a: string, rest: string)
    requires Plain(o) && Plain(a) && a != ""
    ensures Pieces(o + "." + a + rest, false, "") == Pieces(rest, true, a)
  {
    var s := "." + a + rest;
    assert o + "." + a + rest == o + s;
    SkipObject(o, s, "");
    assert s[0] == '.' && s[2..] == a[1..] + rest && "" + [CharAt(s, 1)] == [a[0]];
    TakeName(a[1..], rest, [a[0]]);
    assert [a[0]] + a[1..] == a;
  }

  /** Splitting inverts stringification for every list of member names. */
  lemma {:induction false} SplitStringified(o: string, names: seq<string>)
    requires Plain(o) && MemberNames(names)
    ensures Pieces(Stringified(o, names), false, "") == names
  {
    if names != [] {
      var rest := if |names| == 1 then "" else ", " + Stringified(o, names[1..]);
      TakeArgument(o, names[0], rest);
      if |names| > 1 {
        assert rest[2..] == Stringified(o, names[1..]);
        SplitStringified(o, names[1..]);
      }
    }
  }

  // ----- Objects and members -----

  type Int32 = n: int | -0x8000_0000 <= n < 0x8000_0000

  datatype Json = Null | Number(n: int) | Text(s: string) | List(items: seq<string>)

  type Tree = map<string, Json>

  /** A member of a message: int, std::string or std::vector<std::string>. */
  datatype Member = MInt(n: Int32) | MText(s: string) | MList(items: seq<string>)

  datatype Kind = IntKind | TextKind | ObjKind

  function KindOf(a: Member): Kind {
    match a
    case MInt(_) => IntKind
    case MText(_) => TextKind
    case MList(_) => ObjKind
  }

  /** Storing one member; an empty list leaves no trace. */
  function Put(t: Tree, name: string, a: Member): Tree {
    match a
    case MInt(n) => t[name := Number(n)]
    case MText(s) => t[name := Text(s)]
    case MList(items) => if items == [] then t else t[name := List(items)]
  }

  function PutAll(t: Tree, names: seq<string>, args: seq<Member>): Tree
    requires |args| <= |names|
    decreases |args|
  {
    if args == [] then t else PutAll(Put(t, names[0], args[0]), names[1..], args[1..])
  }

  function Lookup(t: Tree, name: string): Json {
    if name in t then t[name] else Null
  }

  /** Reading one member from a value; None where jsoncpp throws. A list is appended to what the member holds. */
  function Read(a: Member, v: Json): Option<Member> {
    match a
    case MInt(_) =>
      (match v
       case Null => Some(MInt(0))
       case Number(n) => if -0x8000_0000 <= n < 0x8000_0000 then Some(MInt(n)) else None
       case _ => None)
    case MText(_) =>
      (match v
       case Null => Some(MText(""))
       case Number(n) => Some(MText(ToString(n)))
       case Text(s) => Some(MText(s))
       case List(_) => None)
    case MList(before) => Some(MList(before + if v.List? then v.items else []))
  }

  function ReadAll(t: Tree, names: seq<string>, args: seq<Member>): Option<seq<Member>>
    requires |args| <= |names|
  {
    if args == [] then Some([])
    else
      var first, rest := Read(args[0], Lookup(t, names[0])), ReadAll(t, names[1..], args[1..]);
      if first.Some? && rest.Some? then Some([first.value] + rest.value) else None
  }

  predicate SameKinds(a: seq<Member>, b: seq<Member>) {
    |a| == |b| && forall i :: 0 <= i < |a| ==> KindOf(a[i]) == KindOf(b[i])
  }

  predicate DistinctNames(names: seq<string>) {
    forall i, j :: 0 <= i < j < |names| ==> names[i] != names[j]
  }

  /** What a member holds after it has been read over what it held before. */
  function Over(before: Member, sent: Member): Member {
    if before.MList? && sent.MList? then MList(before.items + sent.items) else sent
  }

  predicate ListsEmpty(a: seq<Member>) {
    forall i :: 0 <= i < |a| ==> a[i].MList? ==> a[i].items == []
  }

  lemma {:induction false} PutElsewhere(t: Tree, names: seq<string>, args: seq<Member>, name: string)
    requires |args| <= |names| && name !in names
    ensures Lookup(PutAll(t, names, args), name) == Lookup(t, name)
    decreases |args|
  {
    if args != [] {
      PutElsewhere(Put(t, names[0], args[0]), names[1..], args[1..], name);
    }
  }

  /** A number or text is stored under the name as what it is, and so is a list that is not empty. */
  predicate StoredAs(t: Tree, name: string, a: Member) {
    match a
    case MInt(n) => name in t && t[name] == Number(n)
    case MText(s) => name in t && t[name] == Text(s)
    case MList(items) => if items == [] then name !in t else name in t && t[name] == List(items)
  }

  lemma {:induction false} PutStored(t: Tree, names: seq<string>, args: seq<Member>, i: nat)
    requires i < |args| <= |names| && DistinctNames(names) && names[i] !in t
    ensures StoredAs(PutAll(t, names, args), names[i], args[i])
    decreases |args|
  {
    var t1 := Put(t, names[0], args[0]);
    if i > 0 {
      assert names[i] != names[0] && names[1..][i - 1] == names[i];
      PutStored(t1, names[1..], args[1..], i - 1);
    } else {
      assert names[0] !in names[1..];
      PutRest(t1, names[1..], args[1..], names[0]);
    }
  }

  lemma AllStored(t: Tree, names: seq<string>, k: nat, args: seq<Member>)
    requires k + |args| <= |names| && DistinctNames(names) && forall i :: k <= i < |names| ==> names[i] !in t
    ensures forall i :: 0 <= i < |args| ==> StoredAs(PutAll(t, names[k..], args), names[k + i], args[i])
  {
    hide StoredAs, PutAll;
    forall i | 0 <= i < |args|
      ensures StoredAs(PutAll(t, names[k..], args), names[k + i], args[i])
    {
      PutStored(t, names[k..], args, i);
    }
  }

  lemma {:induction false} PutRest(t: Tree, names: seq<string>, args: seq<Member>, name: string)
    requires |args| <= |names| && name !in names
    ensures (name in PutAll(t, names, args) <==> name in t) && (name in t ==> PutAll(t, names, args)[name] == t[name])
    decreases |args|
  {
    if args != [] {
      PutRest(Put(t, names[0], args[0]), names[1..], args[1..], name);
    }
  }

  lemma {:induction false} ReadBack(t: Tree, names: seq<string>, sent: seq<Member>, into: seq<Member>)
    requires |sent| == |names| && DistinctNames(names) && SameKinds(sent, into)
    requires forall i :: 0 <= i < |names| ==> names[i] !in t
    ensures var got := ReadAll(PutAll(t, names, sent), names, into);
            && got.Some? && |got.value| == |sent|
            && forall i :: 0 <= i < |sent| ==> got.value[i] == Over(into[i], sent[i])
    decreases |sent|
  {
    if sent != [] {
      var t1 := Put(t, names[0], sent[0]);
      assert names[0] !in names[1..];
      PutElsewhere(t1, names[1..], sent[1..], names[0]);
      ReadBack(t1, names[1..], sent[1..], into[1..]);
      assert PutAll(t, names, sent) == PutAll(t1, names[1..], sent[1..]);
    }
  }

  /** A message read over another one of the same kinds is the message sent exactly when no list held anything before.
      */
  lemma RestoredIff(names: seq<string>, sent: seq<Member>, into: seq<Member>)
    requires |sent| == |names| && DistinctNames(names) && SameKinds(sent, into)
    ensures ReadAll(PutAll(map[], names, sent), names, into) == Some(sent) <==> ListsEmpty(into)
  {
    ReadBack(map[], names, sent, into);
    var got := ReadAll(PutAll(map[], names, sent), names, into).value;
    if ListsEmpty(into) {
      forall i | 0 <= i < |sent|
        ensures got[i] == sent[i]
      {
        assert KindOf(sent[i]) == KindOf(into[i]);
        if into[i].MList? {
          assert into[i].items + sent[i].items == sent[i].items;
        }
      }
      assert got == sent;
    } else {
      var i :| 0 <= i < |into| && into[i].MList? && into[i].items != [];
      assert KindOf(sent[i]) == KindOf(into[i]);
      assert |got[i].items| > |sent[i].items|;
    }
  }

  class JsonSerial {
    var current: Tree
    var count: nat
    var position: nat
    var names: seq<string>
    var nameType: map<string, Kind>

    constructor ()
      ensures current == map[] && count == position == 0 && names == [] && nameType == map[]
    {
      current, count, position, names, nameType := map[], 0, 0, [], map[];
    }

    /** The parameter pack is taken apart from the front; `count` stays at the last member. The members of one struct
        have different names, and an object is filled once. */
    method ToJson(names: seq<string>, args: seq<Member>)
      requires args != [] && count + |args| <= |names| && DistinctNames(names)
      requires forall i :: count <= i < |names| ==> names[i] !in current
      modifies this
      ensures current == PutAll(old(current), names[old(count)..], args)
      ensures forall i :: 0 <= i < |args| ==> StoredAs(current, names[old(count) + i], args[i])
      ensures count == old(count) + |args| - 1 && position == 0
      ensures if |args| > 1 then this.names == names && nameType != map[]
              else this.names == old(this.names) && nameType == old(nameType)
      decreases |args|
    {
      var arg := args[0];
      ghost var t0, k := current, count;
      hide StoredAs;
      AllStored(t0, names, k, args);
      match arg {
        case MList(items) =>
          for i := 0 to |items|
            invariant count == k && current == Put(t0, names[k], MList(items[..i]))
            invariant this.names == old(this.names) && nameType == old(nameType)
          {
            var before := if names[count] in current then current[names[count]].items else [];
            current := current[names[count] := List(before + [items[i]])];
            assert items[..i + 1] == items[..i] + [items[i]];
          }
          assert items[..|items|] == items;
        case MInt(n) =>
          current := current[names[count] := Number(n)];
        case MText(s) =>
          current := current[names[count] := Text(s)];
      }
      assert current == Put(t0, names[k], arg);
      if |args| > 1 {
        JudgeType(names, arg);
        count := count + 1;
        assert names[k..][1..] == names[k + 1..];
        ToJson(names, args[1..]);
      }
      position := 0;
    }

    method JudgeType(names: seq<string>, arg: Member)
      requires count < |names|
      modifies this`nameType, this`names
      ensures this.names == names && nameType != map[] && nameType == old(nameType)[names[count] := KindOf(arg)]
    {
      nameType := nameType[names[count] := KindOf(arg)];
      assert names[count] in nameType;
      this.names := names;
    }

    method Set(val: Tree)
      modifies this`current
      ensures current == val
    {
      current := val;
    }

    /** One member; looking up an absent name creates it with a null value. */
    method JudgeType1(arg: Member) returns (r: Option<Member>)
      requires position < |names|
      modifies this`current
      ensures r == Read(arg, Lookup(old(current), names[position]))
      // a value of the member's type is taken over, a list behind what the member holds; an absent one is empty
      ensures names[position] !in old(current) ==>
                r == Some(match arg case MInt(_) => MInt(0) case MText(_) => MText("") case MList(b) => MList(b))
      ensures names[position] in old(current) ==>
                match old(current)[names[position]]
                case Number(n) => arg.MInt? && -0x8000_0000 <= n < 0x8000_0000 ==> r == Some(MInt(n))
                case Text(s) => (arg.MText? ==> r == Some(MText(s))) && (arg.MInt? ==> r == None)
                case List(items) => if arg.MList? then r == Some(MList(arg.items + items)) else r == None
                case Null => true
      ensures forall name: string :: Lookup(current, name) == Lookup(old(current), name)
    {
      var v := Lookup(current, names[position]);
      assert arg.MList? ==> arg.items + [] == arg.items;
      current := current[names[position] := v];
      r := Read(arg, v);
    }

    /** Without recorded types nothing is read. */
    method ToObj(args: seq<Member>) returns (r: Option<seq<Member>>)
      requires args != [] && (nameType != map[] ==> position + |args| <= |names|)
      modifies this`current, this`position
      ensures nameType == map[] ==> r == Some(args)
      ensures nameType != map[] ==> r == ReadAll(old(current), names[old(position)..], args)
      ensures forall name: string :: Lookup(current, name) == Lookup(old(current), name)
      decreases |args|
    {
      if nameType == map[] {
        return Some(args);
      }
      ghost var t0, rest := current, names[position..];
      var first := JudgeType1(args[0]);
      if first.None? {
        return None;
      }
      if |args| > 1 {
        position := position + 1;
        assert rest[1..] == names[position..];
        ReadAllSame(t0, current, rest[1..], args[1..]);
        var others := ToObj(args[1..]);
        if others.None? {
          return None;
        }
        return Some([first.value] + others.value);
      }
      assert args[1..] == [] && [first.value] + [] == [first.value];
      return Some([first.value]);
    }
  }

  lemma {:induction false} ReadAllSame(t: Tree, t': Tree, names: seq<string>, args: seq<Member>)
    requires |args| <= |names| && forall name: string :: Lookup(t', name) == Lookup(t, name)
    ensures ReadAll(t', names, args) == ReadAll(t, names, args)
  {
    if args != [] {
      ReadAllSame(t, t', names[1..], args[1..]);
    }
  }

  /** tcpserver::send followed by tcpserver::recv, JSON text left out: the receiver serialises a blank message first,
      which records its names, then takes over the object received and reads it into the blank message. */
  method Transfer(prefix: string, names: seq<string>, sent: seq<Member>, blank: seq<Member>)
    returns (got: Option<seq<Member>>)
    requires Plain(prefix) && MemberNames(names) && DistinctNames(names) && |names| == |sent| > 1 &&
             SameKinds(sent, blank)
    ensures got == ReadAll(PutAll(map[], names, sent), names, blank)
    ensures got == Some(sent) <==> ListsEmpty(blank)
  {
    SplitStringified(prefix, names);
    RestoredIff(names, sent, blank);
    var sender := new JsonSerial();
    var pieces := SplitString(Stringified(prefix, names));
    assert names[0..] == names;
    sender.ToJson(pieces, sent);
    var receiver := new JsonSerial();
    pieces := SplitString(Stringified(prefix, names));
    receiver.ToJson(pieces, blank);
    receiver.Set(sender.current);
    got := receiver.ToObj(blank);
  }
}
