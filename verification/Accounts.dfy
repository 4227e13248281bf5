/** User records: a user's name is its key, and the value is the encoded password. */
module Accounts {
  import opened Text
  import opened Keys
  import opened Database
  import opened MetaData
  import opened FileStore
  import opened MasterStore
  import Base64

  /** The user's name is the key itself. */
  lemma UserKey(u: Name)
    ensures Encode(User(u)) == u
  {
  }

  /** master_server::login succeeds. */
  predicate LoginOk(m: Store, u: Name, pwd: seq<bv8>) {
    Value(m, Encode(User(u))) == Base64.Encode(pwd)
  }

  /** master_server::regist succeeds. */
  predicate RegisterOk(m: Store, u: Name) {
    Value(m, Encode(User(u))) == ""
  }

  /** What master_server::regist makes of the store. */
  function Registered(m: Store, u: Name, pwd: seq<bv8>): Store {
    if RegisterOk(m, u) then m[Encode(User(u)) := Base64.Encode(pwd)] else m
  }

  /** After a user has registered, exactly the registered password logs in, and the name is taken unless that password
      is empty: an empty one leaves the user as good as unregistered. */
  lemma LoginAfterRegister(m: Store, u: Name, pwd: seq<bv8>, pwd': seq<bv8>)
    requires RegisterOk(m, u)
    ensures LoginOk(Registered(m, u, pwd), u, pwd') <==> pwd' == pwd
    ensures RegisterOk(Registered(m, u, pwd), u) <==> pwd == []
  {
    hide Encode, Base64.Encode;
    if Base64.Encode(pwd) == Base64.Encode(pwd') {
      Base64.EncodeInjective(pwd, pwd');
    }
    Base64.EmptyEncodes();
    if Base64.Encode(pwd) == Base64.Encode([]) {
      Base64.EncodeInjective(pwd, []);
    }
  }

  /** An unregistered user logs in with the empty password and no other. */
  lemma UnregisteredLogin(m: Store, u: Name, pwd: seq<bv8>)
    requires RegisterOk(m, u)
    ensures LoginOk(m, u, pwd) <==> pwd == []
  {
    hide Encode, Base64.Encode;
    Base64.EmptyEncodes();
    if Base64.Encode(pwd) == Base64.Encode([]) {
      Base64.EncodeInjective(pwd, []);
    }
  }

  /** A refused registration changes nothing, and a user with a stored password logs in with the same passwords before
      and after any registration, of the same name or another. */
  lemma PasswordKept(m: Store, u: Name, v: Name, pwd: seq<bv8>, w: seq<bv8>)
    requires Value(m, u) != ""
    ensures LoginOk(Registered(m, v, pwd), u, w) <==> LoginOk(m, u, w)
    ensures u == v ==> Registered(m, v, pwd) == m
  {
    hide Encode, Base64.Encode;
    UserKey(u);
    UserKey(v);
  }

  /** Registering changes neither files nor lists nor what another user may do. */
  lemma RegisterFrame(m: Store, u: Name, pwd: seq<bv8>)
    ensures var m' := Registered(m, u, pwd);
            && SameFiles(m, m')
            && (forall l: Name, len: nat :: ListOk(m, l, len) ==>
                 ListOk(m', l, len) && Items(m', l, len) == Items(m, l, len))
            && (forall v: Name, w: seq<bv8> :: v != u ==>
                 (LoginOk(m', v, w) <==> LoginOk(m, v, w)) && (RegisterOk(m', v) <==> RegisterOk(m, v)))
  {
    hide Encode, Decode, Base64.Encode, ListOk, Items;
    EncodeDecode();
    var m' := Registered(m, u, pwd);
    forall k: Key | k != User(u)
      ensures Same(m, m', Encode(k))
    {
      assert Decode(Encode(k)) != Decode(Encode(User(u)));
    }
    forall l: Name, len: nat | ListOk(m, l, len)
      ensures ListOk(m', l, len) && Items(m', l, len) == Items(m, l, len)
    {
      KeysKeepList(m, m', l, len);
    }
    forall n: Name, p: Name
      ensures SameFile(m, m', n, p)
    {
      SameRecords(m, m', n, p);
    }
    forall v: Name | v != u
      ensures Value(m', Encode(User(v))) == Value(m, Encode(User(v)))
    {
      assert Same(m, m', Encode(User(v)));
    }
  }

  lemma SameRecords(m: Store, m': Store, n: Name, p: Name)
    requires forall k: Key :: !k.User? ==> Same(m, m', Encode(k))
    ensures SameFile(m, m', n, p)
  {
    hide Encode;
    forall i: nat
      ensures SameChunk(m, m', n, p, i)
    {
      assert Same(m, m', Encode(Data(n, p, i)));
    }
  }
}
