/** The key-value store and the persistent list kept in it (src/modules/db). */
module Database {
  import opened Text
  import opened Keys

  type Store = map<string, string>

  /** What levelDB::Get leaves in a string that was empty before. */
  function Value(m: Store, key: string): string {
    if key in m then m[key] else ""
  }

  /** Two stores agree on a key: absent in both, or present with one value. */
  predicate Same(m: Store, m': Store, key: string) {
    (key in m <==> key in m') && (key in m ==> m[key] == m'[key])
  }

  /** A levelDB database whose operations succeed, which is what an open LevelDB on a working disk does. */
  class LevelDB {
    var m: Store

    constructor ()
      ensures m == map[]
    {
      m := map[];
    }

    method Put(key: string, value: string) returns (ok: bool)
      modifies this
      ensures ok && m == old(m)[key := value]
    {
      m := m[key := value];
      ok := true;
    }

    method Delete(key: string) returns (ok: bool)
      modifies this
      ensures ok && m == old(m) - {key}
    {
      m := m - {key};
      ok := true;
    }

    /** A failed read leaves the caller's string as it was. */
    method Get(key: string, before: string) returns (ok: bool, value: string)
      ensures ok == (key in m) && value == if key in m then m[key] else before
    {
      ok := key in m;
      value := if key in m then m[key] else before;
    }
  }

  // ----- The list's stored form -----

  function Slot(l: Name, i: nat): string {
    Encode(ListSlot(l, i))
  }

  ghost predicate ListKey(key: string, l: Name) {
    key == Encode(ListLength(l)) || exists i: nat :: key == Slot(l, i)
  }

  /** Every key outside list `l` is as it was. */
  ghost predicate OnlyListChanged(m: Store, m': Store, l: Name) {
    forall key: string :: !ListKey(key, l) ==> Same(m, m', key)
  }

  ghost predicate Slots(m: Store, l: Name, n: nat) {
    forall i: nat :: i < n ==> Slot(l, i) in m
  }

  function Items(m: Store, l: Name, n: nat): (s: seq<string>)
    ensures |s| == n && forall i {:trigger s[i]} :: 0 <= i < n ==> s[i] == Value(m, Slot(l, i))
  {
    seq(n, (i: nat) => Value(m, Slot(l, i)))
  }

  predicate Distinct(s: seq<string>) {
    forall i, j :: 0 <= i < j < |s| ==> s[i] != s[j]
  }

  /** The store holds a duplicate-free list of n items under name `l`; slots past n may hold anything. */
  ghost predicate ListOk(m: Store, l: Name, n: nat) {
    && (if Encode(ListLength(l)) in m then m[Encode(ListLength(l))] == Dec(n) else n == 0)
    && Slots(m, l, n)
    && Distinct(Items(m, l, n))
  }

  function RemoveIndex(s: seq<string>, i: nat): seq<string>
    requires i < |s|
  {
    s[..i] + s[i + 1..]
  }

  /** The sequence without the first occurrence of a value. */
  function Without(s: seq<string>, v: string): seq<string> {
    if s == [] then [] else if s[0] == v then s[1..] else [s[0]] + Without(s[1..], v)
  }

  lemma {:induction false} WithoutIndex(s: seq<string>, i: nat)
    requires Distinct(s) && i < |s|
    ensures Without(s, s[i]) == RemoveIndex(s, i)
  {
    if i > 0 {
      WithoutIndex(s[1..], i - 1);
      assert [s[0]] + (s[1..][..i - 1] + s[1..][i..]) == s[..i] + s[i + 1..];
    }
  }

  lemma {:induction false} WithoutMissing(s: seq<string>, v: string)
    requires v !in s
    ensures Without(s, v) == s
  {
    if s != [] {
      WithoutMissing(s[1..], v);
    }
  }

  /** On a duplicate-free sequence Without is set difference, and stays duplicate-free. */
  lemma {:induction false} WithoutSet(s: seq<string>, v: string)
    requires Distinct(s)
    ensures Distinct(Without(s, v))
    ensures forall x :: x in Without(s, v) <==> x in s && x != v
  {
    if s != [] {
      var rest := s[1..];
      assert s == [s[0]] + rest;
      assert s[0] !in rest;
      WithoutSet(rest, v);
      if s[0] != v {
        assert forall x :: x in Without(s, v) <==> x == s[0] || x in Without(rest, v);
      }
    }
  }

  const SIZE_MAX: nat := 0xFFFF_FFFF_FFFF_FFFF

  /** `n - 1` in size_t. */
  function Pred(n: nat): nat {
    if n == 0 then SIZE_MAX else n - 1
  }

  /** The items while a removal is under way: slots start..i-1 have received their right neighbours. */
  function Shifted(s: seq<string>, start: nat, i: nat): seq<string>
    requires start <= i < |s|
  {
    s[..start] + s[start + 1..i + 1] + s[i..]
  }

  lemma PutSlot(m: Store, l: Name, n: nat, i: nat, v: string)
    ensures OnlyListChanged(m, m[Slot(l, i) := v], l)
    ensures Same(m, m[Slot(l, i) := v], Encode(ListLength(l)))
    ensures i < n && Slots(m, l, n) ==>
              Slots(m[Slot(l, i) := v], l, n) && Items(m[Slot(l, i) := v], l, n) == Items(m, l, n)[i := v]
  {
    hide Encode, Decode;
    EncodeDecode();
    var m' := m[Slot(l, i) := v];
    assert Decode(Slot(l, i)) == ListSlot(l, i) != ListLength(l) == Decode(Encode(ListLength(l)));
    forall k: nat | k < n && k != i
      ensures Value(m', Slot(l, k)) == Value(m, Slot(l, k))
    {
      assert Decode(Slot(l, k)) == ListSlot(l, k) != Decode(Slot(l, i));
    }
  }

  /** Storing a length keeps the slots, so the list becomes that many of them. */
  lemma PutLength(m: Store, l: Name, n: nat, v: string)
    ensures OnlyListChanged(m, m[Encode(ListLength(l)) := v], l)
    ensures Slots(m, l, n) ==> Slots(m[Encode(ListLength(l)) := v], l, n)
    ensures Items(m[Encode(ListLength(l)) := v], l, n) == Items(m, l, n)
  {
    hide Encode, Decode;
    EncodeDecode();
    var m' := m[Encode(ListLength(l)) := v];
    assert Decode(Encode(ListLength(l))) == ListLength(l);
    forall k: nat | k < n
      ensures Same(m, m', Slot(l, k))
    {
      assert Decode(Slot(l, k)) == ListSlot(l, k) != ListLength(l);
    }
  }

  lemma ShiftStep(s: seq<string>, start: nat, i: nat)
    requires start <= i && i + 1 < |s|
    ensures Shifted(s, start, i)[i + 1] == s[i + 1]
    ensures Shifted(s, start, i)[i := s[i + 1]] == Shifted(s, start, i + 1)
  {
  }

  /** A finished shift followed by storing the smaller length is the list without item `start`. */
  lemma RemovedItem(m: Store, l: Name, s: seq<string>, start: nat)
    requires start < |s| && Distinct(s) && Slots(m, l, |s|) && Items(m, l, |s|) == Shifted(s, start, |s| - 1)
    ensures var m' := m[Encode(ListLength(l)) := Dec(|s| - 1)];
            Items(m', l, |s| - 1) == RemoveIndex(s, start) && ListOk(m', l, |s| - 1) && OnlyListChanged(m, m', l)
  {
    hide Encode;
    var n, r := |s| - 1, RemoveIndex(s, start);
    var m' := m[Encode(ListLength(l)) := Dec(n)];
    ShiftedPrefix(s, start);
    ItemsPrefix(m, l, |s|, n);
    SlotsPrefix(m, l, |s|, n);
    assert Items(m, l, n) == r;
    PutLength(m, l, n, Dec(n));
    RemoveDistinct(s, start);
    assert Items(m', l, n) == r;
  }

  lemma SlotsPrefix(m: Store, l: Name, n: nat, k: nat)
    requires k <= n && Slots(m, l, n)
    ensures Slots(m, l, k)
  {
  }

  lemma ItemsPrefix(m: Store, l: Name, n: nat, k: nat)
    requires k <= n
    ensures Items(m, l, n)[..k] == Items(m, l, k)
  {
  }

  lemma ShiftedPrefix(s: seq<string>, start: nat)
    requires start < |s|
    ensures Shifted(s, start, |s| - 1)[..|s| - 1] == RemoveIndex(s, start)
  {
  }

  lemma RemoveDistinct(s: seq<string>, i: nat)
    requires i < |s| && Distinct(s)
    ensures Distinct(RemoveIndex(s, i))
  {
    var r := RemoveIndex(s, i);
    forall j, k | 0 <= j < k < |r|
      ensures r[j] != r[k]
    {
      assert r[j] == s[if j < i then j else j + 1] && r[k] == s[if k < i then k else k + 1];
    }
  }

  ghost predicate SlotsBehind(m: Store, l: Name, start: nat, k: nat) {
    forall i: nat :: start < i <= k ==> Slot(l, i) in m
  }

  lemma PutSize(m: Store, key: string, v: string)
    ensures |m[key := v]| == |m| + if key in m then 0 else 1
  {
    assert m[key := v].Keys == m.Keys + {key};
  }

  /** Overwriting slot i from slot i + 1 adds at most the slot at the start. */
  lemma PullDownKeeps(m: Store, l: Name, start: nat, i: nat, v: string)
    requires SlotsBehind(m, l, start, i) && start <= i
    ensures |m[Slot(l, i) := v]| <= |m| + if i == start then 1 else 0
    ensures Slot(l, i + 1) in m ==> SlotsBehind(m[Slot(l, i) := v], l, start, i + 1)
  {
    hide Encode;
    PutSize(m, Slot(l, i), v);
  }

  /** If slots start+1..k all exist the store has at least that many entries. */
  lemma {:induction false} SlotsFit(m: Store, l: Name, start: nat, k: nat)
    requires SlotsBehind(m, l, start, k) && start <= k
    ensures |m| >= k - start
    decreases k
  {
    if k > start {
      EncodeDecode();
      var rest := m - {Slot(l, k)};
      forall i: nat | start < i <= k - 1
        ensures Slot(l, i) in rest
      {
        assert Decode(Slot(l, i)) == ListSlot(l, i) != ListSlot(l, k) == Decode(Slot(l, k));
      }
      SlotsFit(rest, l, start, k - 1);
      assert m.Keys == rest.Keys + {Slot(l, k)};
      assert |m.Keys| == |rest.Keys| + 1;
    }
  }

  /** The item a removal at `start` takes out of n items. */
  function First(start: nat, n: nat): nat {
    if start < n then start else if n > 0 then n - 1 else 0
  }

  /** How far a removal at `start` has shifted when it has reached slot i. */
  function Reached(start: nat, n: nat, i: nat): nat {
    if start < n then i else if n > 0 then n - 1 else 0
  }

  /** A removal at `start` from the n items of m0 has reached slot i. */
  ghost predicate Shifting(m0: Store, m: Store, l: Name, n: nat, start: nat, i: nat) {
    && OnlyListChanged(m0, m, l) && Same(m0, m, Encode(ListLength(l)))
    && (n > 0 ==> Slots(m, l, n) && (start < n ==> start <= i < n))
    && (n > 0 ==> Items(m, l, n) == Shifted(Items(m0, l, n), First(start, n), Reached(start, n, i)))
    && (n == 0 ==> start <= i && SlotsBehind(m, l, start, i)) && |m| <= |m0| + if n == 0 && i > start then 1 else 0
  }

  lemma ShiftingStart(m: Store, l: Name, n: nat, start: nat)
    requires ListOk(m, l, n)
    ensures Shifting(m, m, l, n, start, start)
  {
    hide Encode;
    if n > 0 {
      var s, first := Items(m, l, n), First(start, n);
      assert Shifted(s, first, first) == s;
      assert start >= n ==> first == n - 1;
    }
  }

  lemma ShiftingEnd(m0: Store, m: Store, l: Name, n: nat, start: nat, i: nat)
    requires Shifting(m0, m, l, n, start, i) && Pred(n) <= i
    ensures n > 0 ==> Slots(m, l, n)
    ensures n > 0 ==> Items(m, l, n) == Shifted(Items(m0, l, n), First(start, n), n - 1)
    ensures n == 0 && start < SIZE_MAX ==> SIZE_MAX - start <= |m0| + 1
  {
    hide Encode;
    if n == 0 && start < SIZE_MAX {
      SlotsFit(m, l, start, SIZE_MAX);
    }
  }

  /** What a removal keeps, wherever it stops. */
  lemma ShiftingFrame(m0: Store, m: Store, l: Name, n: nat, start: nat, i: nat)
    requires Shifting(m0, m, l, n, start, i)
    ensures OnlyListChanged(m0, m, l) && Same(m0, m, Encode(ListLength(l))) && |m| <= |m0| + 1
  {
    hide Encode;
  }

  lemma ShiftingStep(m0: Store, m: Store, l: Name, n: nat, start: nat, i: nat)
    requires Shifting(m0, m, l, n, start, i) && start <= i < Pred(n)
    ensures n > 0 ==> Slot(l, i + 1) in m
    ensures Slot(l, i + 1) in m ==> Shifting(m0, m[Slot(l, i) := Value(m, Slot(l, i + 1))], l, n, start, i + 1)
  {
    hide Encode;
    var v := Value(m, Slot(l, i + 1));
    PutSlot(m, l, n, i, v);
    if n > 0 {
      ShiftStep(Items(m0, l, n), start, i);
      assert Items(m, l, n)[i + 1] == v;
      PutSize(m, Slot(l, i), v);
    } else {
      PullDownKeeps(m, l, start, i, v);
    }
  }

  class LevelDBList {
    const db: LevelDB
    const name: Name
    var length: nat

    ghost predicate Valid()
      reads this, db
    {
      ListOk(db.m, name, length)
    }

    function Contents(): (s: seq<string>)
      reads this, db
    {
      Items(db.m, name, length)
    }

    /** Opening a list finds what was stored under its name: nothing, or the list closed before. */
    constructor (db: LevelDB, name: Name, ghost n: nat)
      requires ListOk(db.m, name, n)
      ensures this.db == db && this.name == name && length == n && Valid()
      ensures Contents() == Items(db.m, name, n)
    {
      this.db := db;
      this.name := name;
      var key := JoinKey([name, "length"]);
      var _, len := db.Get(key, "");
      BuiltListKeys(name, 0);
      StoiToString(n);
      length := if len != "" then Stoi(len).value else 0;
    }

    method ReadSlot(i: nat) returns (flag: bool, value: string)
      ensures flag == (Slot(name, i) in db.m) && value == Value(db.m, Slot(name, i))
    {
      BuiltListKeys(name, i);
      flag, value := db.Get(JoinKey([name, Dec(i)]), "");
    }

    method WriteSlot(i: nat, value: string) returns (ok: bool)
      modifies db
      ensures ok && db.m == old(db.m)[Slot(name, i) := value]
    {
      BuiltListKeys(name, i);
      ok := db.Put(JoinKey([name, Dec(i)]), value);
    }

    /** Stores the length the list object holds. */
    method StoreLength()
      modifies db
      ensures db.m == old(db.m)[Encode(ListLength(name)) := Dec(length)]
    {
      BuiltListKeys(name, 0);
      var _ := db.Put(JoinKey([name, "length"]), Dec(length));
    }

    /** One step of a removal: slot i receives slot i + 1 if there is one. */
    method PullDown(i: nat) returns (ok: bool)
      modifies db
      ensures ok <==> Slot(name, i + 1) in old(db.m)
      ensures db.m == if ok then old(db.m)[Slot(name, i) := old(db.m)[Slot(name, i + 1)]] else old(db.m)
    {
      var flag, value := ReadSlot(i + 1);
      if !flag {
        return false;
      }
      ok := WriteSlot(i, value);
    }

    method Size() returns (n: nat)
      ensures n == |Contents()|
    {
      n := length;
    }

    method At(index: nat) returns (value: string)
      ensures value == Value(db.m, Slot(name, index))
      ensures index < length ==> value == Contents()[index]
    {
      var _, v := ReadSlot(index);
      value := v;
    }

    method IsSame(value: string) returns (same: bool)
      ensures same <==> value in Contents()
    {
      hide Encode;
      var i := 0;
      while i < length
        invariant i <= length && value !in Contents()[..i]
      {
        var item := At(i);
        if item == value {
          return true;
        }
        i := i + 1;
      }
      assert Contents()[..length] == Contents();
      return false;
    }

    /** A missing slot makes the search report index 0. */
    method Find(value: string) returns (index: int)
      ensures Slots(db.m, name, length) && value in Contents() ==>
                0 <= index < |Contents()| && Contents()[index] == value && value !in Contents()[..index]
      ensures Slots(db.m, name, length) && value !in Contents() ==> index == -1
    {
      hide Encode;
      index := -1;
      var i := 0;
      while i < length
        invariant i <= length && index == -1 && value !in Contents()[..i]
      {
        var flag, temp := ReadSlot(i);
        if !flag {
          assert Slot(name, i) !in db.m;
          return 0;
        }
        if temp == value {
          assert Contents()[i] == value;
          index := i;
          return;
        }
        i := i + 1;
      }
      assert Contents()[..length] == Contents();
    }

    method PushBack(value: string) returns (ok: bool)
      requires Valid()
      modifies this, db
      ensures Valid() && OnlyListChanged(old(db.m), db.m, name) && |db.m| <= |old(db.m)| + 2
      ensures ok <==> value !in old(Contents())
      ensures Contents() == if ok then old(Contents()) + [value] else old(Contents())
    {
      hide Encode;
      PutSize(db.m, Slot(name, length), value);
      var same := IsSame(value);
      if same {
        return false;
      }
      PutSlot(db.m, name, length, length, value);
      PushedSlot(db.m, name, length, value);
      ok := WriteSlot(length, value);
      if ok {
        length := length + 1;
      }
      PutLength(db.m, name, length, Dec(length));
      PutSize(db.m, Encode(ListLength(name)), Dec(length));
      StoreLength();
    }

    /** The loop of both removals, over indices start..length-2; on an empty list `length - 1` wraps around. */
    method ShiftFrom(start: nat) returns (ok: bool)
      requires Valid()
      modifies db
      ensures OnlyListChanged(old(db.m), db.m, name) && Same(old(db.m), db.m, Encode(ListLength(name)))
      ensures |db.m| <= |old(db.m)| + 1
      ensures length > 0 ==> ok && Slots(db.m, name, length)
      ensures length > 0 ==> Contents() == Shifted(old(Contents()), First(start, length), length - 1)
      ensures length == 0 && start < SIZE_MAX && ok ==> SIZE_MAX - start <= |old(db.m)| + 1
    {
      hide Encode, Shifting, Shifted, ListOk, Items, Slots, OnlyListChanged, Same;
      var i := start;
      ghost var m0, m := db.m, db.m;
      ShiftingStart(m0, name, length, start);
      while i < Pred(length)
        invariant start <= i && db.m == m && Shifting(m0, m, name, length, start, i)
      {
        ShiftingStep(m0, m, name, length, start, i);
        ok := PullDown(i);
        if !ok {
          ShiftingFrame(m0, m, name, length, start, i);
          return;
        }
        m := m[Slot(name, i) := Value(m, Slot(name, i + 1))];
        i := i + 1;
      }
      ok := true;
      ShiftingFrame(m0, m, name, length, start, i);
      ShiftingEnd(m0, m, name, length, start, i);
    }

    /** The end of both removals: one item fewer, and the length stored. */
    method Shrink(ghost s: seq<string>, ghost first: nat)
      requires length > 0 ==> first < |s| == length && Distinct(s) && Slots(db.m, name, length)
      requires length > 0 ==> Contents() == Shifted(s, first, length - 1)
      modifies this, db
      ensures OnlyListChanged(old(db.m), db.m, name) && |db.m| <= |old(db.m)| + 1
      ensures old(length) > 0 ==> Valid() && Contents() == RemoveIndex(s, first)
    {
      hide Encode;
      if length > 0 {
        RemovedItem(db.m, name, s, first);
      } else {
        PutLength(db.m, name, 0, Dec(SIZE_MAX));
      }
      length := Pred(length);
      PutSize(db.m, Encode(ListLength(name)), Dec(length));
      StoreLength();
    }

    /** Nothing is removed from an empty list. */
    method PopFront() returns (ok: bool)
      requires Valid()
      modifies this, db
      ensures OnlyListChanged(old(db.m), db.m, name) && |db.m| <= |old(db.m)| + 2
      ensures old(Contents()) != [] ==> ok && Valid() && Contents() == old(Contents())[1..]
      ensures old(Contents()) == [] && |old(db.m)| + 1 < SIZE_MAX ==> !ok && Valid() && Contents() == []
    {
      hide Encode;
      ok := ShiftFrom(0);
      if !ok {
        return;
      }
      Shrink(old(Contents()), 0);
    }

    /** An index past the end removes the last item; nothing is removed from an empty list. */
    method RemoveAt(index: nat) returns (ok: bool)
      requires Valid()
      modifies this, db
      ensures OnlyListChanged(old(db.m), db.m, name) && |db.m| <= |old(db.m)| + 2
      ensures old(Contents()) != [] ==>
                && ok && Valid()
                && Contents() == RemoveIndex(old(Contents()), if index < old(length) then index else old(length) - 1)
      ensures old(Contents()) == [] && index + |old(db.m)| + 1 < SIZE_MAX ==> !ok && Valid() && Contents() == []
    {
      hide Encode;
      if index == 0 {
        ok := PopFront();
        return;
      }
      ok := ShiftFrom(index);
      if !ok {
        return;
      }
      Shrink(old(Contents()), First(index, length));
    }

    method RemoveValue(value: string) returns (ok: bool)
      requires Valid()
      modifies this, db
      ensures Valid() && OnlyListChanged(old(db.m), db.m, name) && |db.m| <= |old(db.m)| + 2
      ensures ok <==> value in old(Contents())
      ensures Contents() == Without(old(Contents()), value)
    {
      hide Encode;
      var index := Find(value);
      if index != -1 {
        WithoutIndex(Contents(), index);
        ok := RemoveAt(index);
      } else {
        WithoutMissing(Contents(), value);
        ok := false;
      }
    }
  }

  // ----- Runs of list operations -----

  datatype ListOp =
    | PushBackOp(value: string)
    | PopFrontOp
    | RemoveAtOp(index: nat)
    | RemoveValueOp(value: string)
    | ReopenOp

  /** What one operation does to a sequence; removals from an empty one leave it empty. */
  function Apply(s: seq<string>, op: ListOp): seq<string> {
    match op
    case PushBackOp(v) => if v in s then s else s + [v]
    case PopFrontOp => if s == [] then [] else s[1..]
    case RemoveAtOp(i) => if s == [] then [] else RemoveIndex(s, if i < |s| then i else |s| - 1)
    case RemoveValueOp(v) => Without(s, v)
    case ReopenOp => s
  }

  function ApplyAll(s: seq<string>, ops: seq<ListOp>): seq<string>
    decreases |ops|
  {
    if ops == [] then s else Apply(ApplyAll(s, ops[..|ops| - 1]), ops[|ops| - 1])
  }

  /** The index an operation names. */
  function IndexOf(op: ListOp): nat {
    match op
    case RemoveAtOp(i) => i
    case _ => 0
  }

  /** A store so large that a wrapped loop bound could be reached would not fit into memory. */
  predicate Feasible(size: nat, op: ListOp) {
    size + IndexOf(op) + 1 < SIZE_MAX
  }

  method Perform(list: LevelDBList, op: ListOp) returns (list': LevelDBList)
    requires list.Valid() && Feasible(|list.db.m|, op)
    modifies list, list.db
    ensures |list.db.m| <= |old(list.db.m)| + 2
    ensures list'.db == list.db && list'.name == list.name && (list' == list || fresh(list')) && list'.Valid()
    ensures list'.Contents() == Apply(old(list.Contents()), op) && OnlyListChanged(old(list.db.m), list.db.m, list.name)
  {
    hide Encode, ListOk, Items, ListKey, Without, RemoveIndex;
    list' := list;
    match op
    case PushBackOp(v) =>
      var _ := list.PushBack(v);
    case PopFrontOp =>
      var _ := list.PopFront();
    case RemoveAtOp(index) =>
      var _ := list.RemoveAt(index);
    case RemoveValueOp(v) =>
      var _ := list.RemoveValue(v);
    case ReopenOp =>
      list' := new LevelDBList(list.db, list.name, list.length);
  }

  /** The stored list refines the abstract one over every run, reopening included. */
  method RunList(db: LevelDB, name: Name, ghost n: nat, ops: seq<ListOp>) returns (list: LevelDBList)
    requires ListOk(db.m, name, n) && forall i :: 0 <= i < |ops| ==> Feasible(|db.m| + 2 * |ops|, ops[i])
    modifies db
    ensures list.db == db && list.name == name && list.Valid() && Distinct(list.Contents())
    ensures list.Contents() == ApplyAll(Items(old(db.m), name, n), ops)
    ensures OnlyListChanged(old(db.m), db.m, name)
  {
    hide Encode;
    list := new LevelDBList(db, name, n);
    for i := 0 to |ops|
      invariant fresh(list) && list.db == db && list.name == name && list.Valid()
      invariant list.Contents() == ApplyAll(Items(old(db.m), name, n), ops[..i])
      invariant OnlyListChanged(old(db.m), db.m, name) && |db.m| <= |old(db.m)| + 2 * i
    {
      assert ops[..i + 1][..i] == ops[..i] && ops[..i + 1][i] == ops[i];
      list := Perform(list, ops[i]);
    }
    assert ops[..|ops|] == ops;
  }

  lemma PushedSlot(m: Store, l: Name, n: nat, v: string)
    requires Slots(m, l, n)
    ensures Slots(m[Slot(l, n) := v], l, n + 1) && Items(m[Slot(l, n) := v], l, n + 1) == Items(m, l, n) + [v]
  {
    hide Encode, Decode;
    EncodeDecode();
    var m' := m[Slot(l, n) := v];
    forall k: nat | k < n
      ensures Slot(l, k) in m' && Value(m', Slot(l, k)) == Value(m, Slot(l, k))
    {
      assert Decode(Slot(l, k)) == ListSlot(l, k) != ListSlot(l, n) == Decode(Slot(l, n));
    }
  }
}
