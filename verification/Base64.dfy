/** The password encoder of the master server, against Base64 as section 4 of RFC 4648 defines it. */
module Base64 {
  import opened Text

  const ROW0: string := "ABCDEFGHIJKLMNOP"
  const ROW1: string := "QRSTUVWXYZabcdef"
  const ROW2: string := "ghijklmnopqrstuv"
  const ROW3: string := "wxyz0123456789+/"
  const TABLE: string := ROW0 + ROW1 + ROW2 + ROW3

  // ----- Section 4 of RFC 4648 -----

  /** A 24-bit group of three bytes, read as four 6-bit values from the most significant on. */
  function Group(a: bv8, b: bv8, c: bv8): bv24 {
    ((a as bv24) << 16) | ((b as bv24) << 8) | (c as bv24)
  }

  function Sextets(g: bv24): (r: seq<bv8>)
    ensures |r| == 4
  {
    [((g >> 18) & 0x3F) as bv8, ((g >> 12) & 0x3F) as bv8, ((g >> 6) & 0x3F) as bv8, (g & 0x3F) as bv8]
  }

  function Letter(v: bv8): char {
    if v < 64 then TABLE[v as nat] else '='
  }

  function Letters(vs: seq<bv8>): (r: string)
    ensures |r| == |vs| && forall i :: 0 <= i < |r| ==> r[i] == Letter(vs[i])
  {
    seq(|vs|, i requires 0 <= i < |vs| => Letter(vs[i]))
  }

  /** A final group of one or two bytes is completed with zero bits, and padded with one '=' for each missing byte. */
  function Encode(bytes: seq<bv8>): string {
    if |bytes| == 0 then ""
    else if |bytes| == 1 then Letters(Sextets(Group(bytes[0], 0, 0))[..2]) + "=="
    else if |bytes| == 2 then Letters(Sextets(Group(bytes[0], bytes[1], 0))[..3]) + "="
    else Letters(Sextets(Group(bytes[0], bytes[1], bytes[2]))) + Encode(bytes[3..])
  }

  /** Table 1 of RFC 4648, read from character to value. */
  function CharValue(c: char): Option<nat> {
    if 'A' <= c <= 'Z' then Some(c as int - 'A' as int)
    else if 'a' <= c <= 'z' then Some(c as int - 'a' as int + 26)
    else if '0' <= c <= '9' then Some(c as int - '0' as int + 52)
    else if c == '+' then Some(62)
    else if c == '/' then Some(63)
    else None
  }

  function Value6(c: char): bv8 {
    if CharValue(c).Some? && CharValue(c).value < 64 then CharValue(c).value as bv8 else 0
  }

  /** The three bytes of four 6-bit values. */
  function Bytes(a: bv8, b: bv8, c: bv8, d: bv8): seq<bv8> {
    [(a << 2) | (b >> 4), (b << 4) | (c >> 2), (c << 6) | d]
  }

  /** Decodes whole groups; padding tells how many bytes of a group are real. */
  function Decode(s: string): Option<seq<bv8>>
    decreases |s|
  {
    if s == "" then Some([])
    else if |s| < 4 then None
    else
      var rest := Decode(s[4..]);
      var bytes := Bytes(Value6(s[0]), Value6(s[1]), Value6(s[2]), Value6(s[3]));
      if rest.None? then None
      else if s[2] == '=' then Some(bytes[..1] + rest.value)
      else if s[3] == '=' then Some(bytes[..2] + rest.value)
      else Some(bytes + rest.value)
  }

  // ----- Facts about the table and the groups -----

  lemma TableValue(v: bv8)
    requires v < 64
    ensures |TABLE| == 64 && CharValue(Letter(v)) == Some(v as nat) && Value6(Letter(v)) == v && Letter(v) != '='
  {
    var i := v as nat;
    assert i < 64;
    TableIndex(i);
    assert i as bv8 == v;
  }

  lemma TableIndex(i: nat)
    requires i < 64
    ensures |TABLE| == 64 && CharValue(TABLE[i]) == Some(i) && TABLE[i] != '='
  {
    hide CharValue;
    PadUnused();
    if i < 16 {
      Row0(i);
      assert TABLE[i] == ROW0[i];
    } else if i < 32 {
      Row1(i - 16);
      assert TABLE[i] == ROW1[i - 16];
    } else if i < 48 {
      Row2(i - 32);
      assert TABLE[i] == ROW2[i - 32];
    } else {
      Row3(i - 48);
      assert TABLE[i] == ROW3[i - 48];
    }
  }

  lemma PadUnused()
    ensures CharValue('=') == None
  {
  }

  lemma Row0(i: nat)
    requires i < 16
    ensures CharValue(ROW0[i]) == Some(i)
  {
  }

  lemma Row1(i: nat)
    requires i < 16
    ensures CharValue(ROW1[i]) == Some(16 + i)
  {
  }

  lemma Row2(i: nat)
    requires i < 16
    ensures CharValue(ROW2[i]) == Some(32 + i)
  {
  }

  lemma Row3(i: nat)
    requires i < 16
    ensures CharValue(ROW3[i]) == Some(48 + i)
  {
  }

  /** Every 6-bit value indexes the table, and four of them give back the three bytes. */
  lemma GroupRoundTrip(a: bv8, b: bv8, c: bv8)
    ensures var s := Sextets(Group(a, b, c));
            |s| == 4 && s[0] < 64 && s[1] < 64 && s[2] < 64 && s[3] < 64 && Bytes(s[0], s[1], s[2], s[3]) == [a, b, c]
  {
  }

  lemma OneByte(a: bv8)
    ensures Bytes(Sextets(Group(a, 0, 0))[0], Sextets(Group(a, 0, 0))[1], 0, 0)[0] == a
  {
  }

  lemma TwoBytes(a: bv8, b: bv8)
    ensures var s := Sextets(Group(a, b, 0)); Bytes(s[0], s[1], s[2], 0)[0] == a && Bytes(s[0], s[1], s[2], 0)[1] == b
  {
  }

  lemma DecodeFull(a: bv8, b: bv8, c: bv8, rest: string, bytes: seq<bv8>)
    requires Decode(rest) == Some(bytes)
    ensures Decode(Letters(Sextets(Group(a, b, c))) + rest) == Some([a, b, c] + bytes)
  {
    hide Sextets, Bytes, CharValue, Letter, Value6;
    var s := Sextets(Group(a, b, c));
    GroupRoundTrip(a, b, c);
    TableValue(s[0]);
    TableValue(s[1]);
    TableValue(s[2]);
    TableValue(s[3]);
    var text := Letters(s) + rest;
    assert text[4..] == rest;
    assert text[0] == Letter(s[0]) && text[1] == Letter(s[1]) && text[2] == Letter(s[2]) && text[3] == Letter(s[3]);
  }

  lemma DecodeOne(a: bv8)
    ensures Decode(Letters(Sextets(Group(a, 0, 0))[..2]) + "==") == Some([a])
  {
    hide Group, CharValue, Letter;
    var s := Sextets(Group(a, 0, 0));
    GroupRoundTrip(a, 0, 0);
    OneByte(a);
    TableValue(s[0]);
    TableValue(s[1]);
    var text := Letters(s[..2]) + "==";
    assert text[4..] == "" && text[0] == Letter(s[0]) && text[1] == Letter(s[1]) && text[2] == text[3] == '=';
    PadValue();
    assert Bytes(s[0], s[1], 0, 0)[..1] + [] == [a];
  }

  lemma DecodeTwo(a: bv8, b: bv8)
    ensures Decode(Letters(Sextets(Group(a, b, 0))[..3]) + "=") == Some([a, b])
  {
    hide Group, CharValue, Letter;
    var s := Sextets(Group(a, b, 0));
    GroupRoundTrip(a, b, 0);
    TwoBytes(a, b);
    TableValue(s[0]);
    TableValue(s[1]);
    TableValue(s[2]);
    var text := Letters(s[..3]) + "=";
    assert text[4..] == "" && text[0] == Letter(s[0]) && text[1] == Letter(s[1]) && text[2] == Letter(s[2]) &&
           text[3] == '=';
    PadValue();
    assert Bytes(s[0], s[1], s[2], 0)[..2] + [] == [a, b];
  }

  lemma PadValue()
    ensures Value6('=') == 0
  {
  }

  /** Encoding loses nothing: the decoder returns every byte string. */
  lemma {:induction false} DecodeEncode(bytes: seq<bv8>)
    ensures Decode(Encode(bytes)) == Some(bytes)
    ensures |Encode(bytes)| == 4 * ((|bytes| + 2) / 3)
  {
    hide Sextets, Decode;
    if |bytes| == 0 {
      DecodeNothing();
    } else if |bytes| == 1 {
      DecodeOne(bytes[0]);
      GroupRoundTrip(bytes[0], 0, 0);
      assert bytes == [bytes[0]];
    } else if |bytes| == 2 {
      DecodeTwo(bytes[0], bytes[1]);
      GroupRoundTrip(bytes[0], bytes[1], 0);
      assert bytes == [bytes[0], bytes[1]];
    } else {
      DecodeEncode(bytes[3..]);
      DecodeFull(bytes[0], bytes[1], bytes[2], Encode(bytes[3..]), bytes[3..]);
      GroupRoundTrip(bytes[0], bytes[1], bytes[2]);
      assert bytes == [bytes[0], bytes[1], bytes[2]] + bytes[3..];
    }
  }

  lemma DecodeNothing()
    ensures Decode("") == Some([])
  {
  }

  lemma EncodeInjective(a: seq<bv8>, b: seq<bv8>)
    requires Encode(a) == Encode(b)
    ensures a == b
  {
    DecodeEncode(a);
    DecodeEncode(b);
  }

  // ----- The encoder of the server -----

  lemma {:induction false} EncodeGroups(done: seq<bv8>, tail: seq<bv8>)
    requires |done| % 3 == 0
    ensures Encode(done + tail) == Encode(done) + Encode(tail)
  {
    hide Letters, Sextets, Group;
    if done == [] {
      assert done + tail == tail;
    } else {
      assert (done + tail)[3..] == done[3..] + tail;
      EncodeGroups(done[3..], tail);
      var head := Letters(Sextets(Group(done[0], done[1], done[2])));
      assert head + Encode(done[3..]) + Encode(tail) == head + (Encode(done[3..]) + Encode(tail));
    }
  }

  /** The masks and shifts of the staging buffer are the 6-bit values of its group. */
  lemma Staged(a: bv8, b: bv8, c: bv8)
    ensures [(a & 0xfc) >> 2, ((a & 0x03) << 4) + ((b & 0xf0) >> 4), ((b & 0x0f) << 2) + ((c & 0xc0) >> 6), c & 0x3f]
            == Sextets(Group(a, b, c))
  {
    var s := Sextets(Group(a, b, c));
    assert (a & 0xfc) >> 2 == s[0];
    assert ((a & 0x03) << 4) + ((b & 0xf0) >> 4) == s[1];
    assert ((b & 0x0f) << 2) + ((c & 0xc0) >> 6) == s[2];
    assert c & 0x3f == s[3];
  }

  /** Computes the four table indices of the three staged bytes. */
  method Fill(three: array<bv8>, four: array<bv8>)
    requires three.Length == 3 && four.Length == 4
    modifies four
    ensures four[..] == Sextets(Group(three[0], three[1], three[2]))
  {
    Staged(three[0], three[1], three[2]);
    four[0] := (three[0] & 0xfc) >> 2;
    four[1] := ((three[0] & 0x03) << 4) + ((three[1] & 0xf0) >> 4);
    four[2] := ((three[1] & 0x0f) << 2) + ((three[2] & 0xc0) >> 6);
    four[3] := three[2] & 0x3f;
  }

  /** Appends the letters of the first `count` indices, all of which lie inside the table. */
  method AppendLetters(ret: string, four: array<bv8>, count: nat) returns (ret': string)
    requires four.Length == 4 && count <= 4 && forall i :: 0 <= i < 4 ==> four[i] < 64
    ensures ret' == ret + Letters(four[..count])
  {
    ret' := ret;
    var j := 0;
    while j < count
      invariant j <= count && ret' == ret + Letters(four[..j])
    {
      TableValue(four[j]);
      ret' := ret' + [TABLE[four[j] as nat]];
      j := j + 1;
      assert four[..j] == four[..j - 1] + [four[j - 1]];
    }
  }

  function Pad(n: nat): string {
    seq(n, _ => '=')
  }

  /** One or two left-over bytes are the whole of their final group. */
  lemma EncodeTail(tail: seq<bv8>, a: bv8, b: bv8)
    requires |tail| == 1 || |tail| == 2
    requires a == tail[0] && b == if |tail| == 2 then tail[1] else 0
    ensures Encode(tail) == Letters(Sextets(Group(a, b, 0))[..|tail| + 1]) + Pad(3 - |tail|)
  {
    hide Sextets, Group;
    assert Pad(2) == "==" && Pad(1) == "=";
  }

  lemma EncodeGroup(done: seq<bv8>, a: bv8, b: bv8, c: bv8)
    requires |done| % 3 == 0
    ensures Encode(done + [a, b, c]) == Encode(done) + Letters(Sextets(Group(a, b, c)))
  {
    hide Sextets, Group, Letter;
    EncodeGroups(done, [a, b, c]);
    var letters := Letters(Sextets(Group(a, b, c)));
    assert [a, b, c][3..] == [];
    assert letters + "" == letters;
  }

  /** Emits a full staging buffer. */
  method FlushGroup(ret: string, three: array<bv8>, four: array<bv8>) returns (ret': string)
    requires three.Length == 3 && four.Length == 4
    modifies four
    ensures ret' == ret + Letters(Sextets(Group(three[0], three[1], three[2])))
  {
    hide Sextets, Group;
    Fill(three, four);
    GroupRoundTrip(three[0], three[1], three[2]);
    ret' := AppendLetters(ret, four, 4);
    assert four[..4] == four[..];
  }

  /** Emits a buffer of one or two bytes, completed with zero bytes, and pads the text. */
  method FlushTail(ret: string, three: array<bv8>, four: array<bv8>, staged: nat) returns (ret': string)
    requires three.Length == 3 && four.Length == 4 && 1 <= staged <= 2
    modifies three, four
    ensures ret' == ret + Encode(old(three[..staged]))
  {
    hide Encode, Sextets, Group, Letters;
    var i := staged;
    var j := i;
    while j < 3
      invariant i <= j <= 3 && three[..i] == old(three[..i]) && forall k :: i <= k < j ==> three[k] == 0
    {
      three[j] := 0;
      j := j + 1;
    }
    ghost var tail := three[..i];
    assert three[0] == tail[0] && (i == 2 ==> three[1] == tail[1]);
    Fill(three, four);
    GroupRoundTrip(three[0], three[1], three[2]);
    EncodeTail(tail, three[0], three[1]);
    ret' := AppendLetters(ret, four, i + 1);
    ghost var before := ret';
    while i < 3
      invariant staged <= i <= 3 && ret' == before + Pad(i - staged)
    {
      ret' := ret' + "=";
      i := i + 1;
    }
  }

  /** encrypt_pwd: three bytes are staged at a time. */
  method EncryptPwd(pwd: seq<bv8>) returns (ret: string)
    ensures ret == Encode(pwd)
  {
    hide Encode, Sextets, Group, Letters;
    ret := "";
    EmptyEncodes();
    var i, pos := 0, 0;
    var three := new bv8[3](_ => 0);
    var four := new bv8[4](_ => 0);
    while pos < |pwd|
      invariant 0 <= i < 3 && i <= pos <= |pwd| && (pos - i) % 3 == 0
      invariant three[..i] == pwd[pos - i..pos] && ret == Encode(pwd[..pos - i])
    {
      ghost var staged := three[..i];
      three[i] := pwd[pos];
      assert three[..i + 1] == staged + [pwd[pos]] == pwd[pos - i..pos + 1];
      i, pos := i + 1, pos + 1;
      if i == 3 {
        ret := FlushGroup(ret, three, four);
        EncodeGroup(pwd[..pos - 3], three[0], three[1], three[2]);
        assert pwd[..pos - 3] + [three[0], three[1], three[2]] == pwd[..pos] by {
          assert pwd[pos - 3..pos] == three[..3] == [three[0], three[1], three[2]];
        }
        i := 0;
      }
    }
    EncodeGroups(pwd[..pos - i], pwd[pos - i..]);
    assert pwd[..pos - i] + pwd[pos - i..] == pwd;
    assert three[..i] == pwd[pos - i..];
    if i > 0 {
      ret := FlushTail(ret, three, four, i);
    } else {
      assert pwd[pos..] == [] && ret + "" == ret;
    }
  }

  lemma EmptyEncodes()
    ensures Encode([]) == ""
  {
  }
}
