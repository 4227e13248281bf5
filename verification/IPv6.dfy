/** The IPv6 address printer with zero compression (src/modules/socket/address.cc), against the text form of section 2.2
    of RFC 4291. */
module IPv6 {
  import opened Text

  type Group = n: nat | n < 0x1_0000

  // ----- Hexadecimal groups -----

  function HexDigit(d: nat): char
    requires d < 16
  {
    "0123456789abcdef"[d]
  }

  /** The value of a hexadecimal digit of either case. */
  function HexDigitValue(c: char): Option<nat> {
    if '0' <= c <= '9' then Some(c as int - '0' as int)
    else if 'a' <= c <= 'f' then Some(c as int - 'a' as int + 10)
    else if 'A' <= c <= 'F' then Some(c as int - 'A' as int + 10)
    else None
  }

  /** std::hex: lower case, no leading zeros. */
  function Hex(n: nat): string {
    if n < 16 then [HexDigit(n)] else Hex(n / 16) + [HexDigit(n % 16)]
  }

  function HexValue(s: string): Option<nat> {
    if s == "" then Some(0)
    else
      var init, last := HexValue(s[..|s| - 1]), HexDigitValue(s[|s| - 1]);
      if init.Some? && last.Some? then Some(init.value * 16 + last.value) else None
  }

  /** One to four hexadecimal digits. */
  function ParseGroup(s: string): Option<nat> {
    if 1 <= |s| <= 4 then HexValue(s) else None
  }

  lemma HexDigitBack(d: nat)
    requires d < 16
    ensures HexDigitValue(HexDigit(d)) == Some(d) && HexDigit(d) != ':'
    ensures (d > 0 ==> HexDigit(d) != '0') && !('A' <= HexDigit(d) <= 'Z')
  {
  }

  lemma {:induction false} HexRoundTrip(n: nat)
    ensures HexValue(Hex(n)) == Some(n)
    ensures Hex(n) != "" && Free(Hex(n), ':')
    ensures n < 16 ==> |Hex(n)| == 1
    // lower case, without leading zeros
    ensures (n > 0 ==> Hex(n)[0] != '0') && forall i :: 0 <= i < |Hex(n)| ==> !('A' <= Hex(n)[i] <= 'Z')
  {
    hide HexDigit, HexDigitValue;
    HexDigitBack(n % 16);
    var s := Hex(n);
    if n < 16 {
      assert s[..0] == "" && s[0] == HexDigit(n);
      assert HexValue("") == Some(0);
    } else {
      HexRoundTrip(n / 16);
      assert s[..|s| - 1] == Hex(n / 16) && s[|s| - 1] == HexDigit(n % 16);
    }
  }

  lemma GroupRoundTrip(n: Group)
    ensures ParseGroup(Hex(n)) == Some(n) && Hex(n) != "" && Free(Hex(n), ':')
  {
    HexRoundTrip(n);
    if n >= 16 {
      HexRoundTrip(n / 16);
      assert |Hex(n)| == |Hex(n / 16)| + 1;
      if n / 16 >= 16 {
        HexRoundTrip(n / 16 / 16);
        assert |Hex(n / 16)| == |Hex(n / 16 / 16)| + 1;
        if n / 16 / 16 >= 16 {
          HexRoundTrip(n / 16 / 16 / 16);
        }
      }
    }
  }

  // ----- The text form of the standard -----

  /** "::" stands at position i. */
  predicate DoubleAt(s: string, i: nat) {
    i + 1 < |s| && s[i] == ':' && s[i + 1] == ':'
  }

  function FirstDouble(s: string, from: nat): (r: Option<nat>)
    ensures r.Some? ==> from <= r.value && DoubleAt(s, r.value)
    decreases |s| - from
  {
    if from >= |s| then None else if DoubleAt(s, from) then Some(from) else FirstDouble(s, from + 1)
  }

  function ParseGroups(parts: seq<string>): Option<seq<nat>> {
    if parts == [] then Some([])
    else
      var first, rest := ParseGroup(parts[0]), ParseGroups(parts[1..]);
      if first.Some? && rest.Some? then Some([first.value] + rest.value) else None
  }

  /** Groups separated by single colons; an empty text has none. */
  function ParseSide(s: string): Option<seq<nat>> {
    if s == "" then Some([]) else ParseGroups(Split(s, ':'))
  }

  function Zeros(n: nat): (r: seq<nat>)
    ensures |r| == n && forall i :: 0 <= i < n ==> r[i] == 0
  {
    seq(n, _ => 0)
  }

  /** Eight groups, or "::" once in place of one or more groups of zeros. */
  function Parse(s: string): Option<seq<nat>> {
    match FirstDouble(s, 0)
    case None =>
      var all := ParseSide(s);
      if all.Some? && |all.value| == 8 then all else None
    case Some(k) =>
      var left, right := ParseSide(s[..k]), ParseSide(s[k + 2..]);
      if left.Some? && right.Some? && |left.value| + |right.value| < 8
      then Some(left.value + Zeros(8 - |left.value| - |right.value|) + right.value) else None
  }

  // ----- What is printed -----

  function Hexes(g: seq<Group>): (r: seq<string>)
    ensures |r| == |g| && forall i :: 0 <= i < |g| ==> r[i] == Hex(g[i])
  {
    seq(|g|, i requires 0 <= i < |g| => Hex(g[i]))
  }

  /** The groups joined by single colons. */
  function Side(g: seq<Group>): string {
    Join(Hexes(g), ':')
  }

  /** Where the first run of zeros begins; |g| if there is none. */
  function ZerosFrom(g: seq<Group>): (a: nat)
    ensures a <= |g| && (forall i :: 0 <= i < a ==> g[i] != 0) && (a < |g| ==> g[a] == 0)
  {
    if g == [] || g[0] == 0 then 0 else 1 + ZerosFrom(g[1..])
  }

  function ZerosTo(g: seq<Group>): (b: nat)
    ensures b <= |g| && (forall i :: 0 <= i < b ==> g[i] == 0) && (b < |g| ==> g[b] != 0)
  {
    if g == [] || g[0] != 0 then 0 else 1 + ZerosTo(g[1..])
  }

  /** Where the first run of zeros ends. */
  function RunEnd(g: seq<Group>): (b: nat)
    ensures ZerosFrom(g) <= b <= |g| && (ZerosFrom(g) < |g| ==> ZerosFrom(g) < b)
    ensures forall i :: ZerosFrom(g) <= i < b ==> g[i] == 0
    ensures b < |g| ==> g[b] != 0
  {
    var a := ZerosFrom(g);
    assert forall i :: a <= i < |g| ==> g[i] == g[a..][i - a];
    a + ZerosTo(g[a..])
  }

  function Printed(g: seq<Group>): string {
    var a := ZerosFrom(g);
    var b := RunEnd(g);
    if a == |g| then Side(g) else Side(g[..a]) + "::" + Side(g[b..])
  }

  /** Text before group i: what the loop has printed when it comes to group i. */
  function Before(g: seq<Group>, i: nat): string
    requires i <= |g|
  {
    var a := ZerosFrom(g);
    var b := RunEnd(g);
    if i <= a then Side(g[..i]) else if i <= b then Side(g[..a]) else Side(g[..a]) + "::" + Side(g[b..i])
  }

  lemma SideNext(g: seq<Group>, i: nat, j: nat)
    requires i <= j < |g|
    ensures Side(g[i..j + 1]) == if i == j then Hex(g[j]) else Side(g[i..j]) + ":" + Hex(g[j])
  {
    if i == j {
      assert Hexes(g[i..j + 1]) == [Hex(g[j])];
    } else {
      assert Hexes(g[i..j + 1]) == Hexes(g[i..j]) + [Hex(g[j])];
      JoinAppend(Hexes(g[i..j]), Hex(g[j]), ':');
    }
  }

  lemma BeforeHead(g: seq<Group>, i: nat)
    requires i < ZerosFrom(g)
    ensures Before(g, i + 1) == Before(g, i) + (if i > 0 then ":" else "") + Hex(g[i])
  {
    hide Hex, ZerosFrom, RunEnd, Side;
    assert g[..i + 1] == g[0..i + 1] && g[..i] == g[0..i];
    SideNext(g, 0, i);
    if i == 0 {
      SideEmpty();
    }
  }

  lemma BeforeTail(g: seq<Group>, i: nat)
    requires ZerosFrom(g) < RunEnd(g) <= i < |g|
    ensures Before(g, i + 1) == Before(g, i) + (if i > RunEnd(g) then ":" else "::") + Hex(g[i])
  {
    hide Hex, ZerosFrom, RunEnd, Side;
    var left, right := Side(g[..ZerosFrom(g)]), Side(g[RunEnd(g)..i]);
    SideNext(g, RunEnd(g), i);
    if i > RunEnd(g) {
      OneText(left, right, Hex(g[i]));
    }
  }

  lemma OneText(left: string, right: string, last: string)
    ensures left + "::" + (right + ":" + last) == left + "::" + right + ":" + last
  {
  }

  lemma SideEmpty()
    ensures Side([]) == ""
  {
  }

  /** IPv6Address::insert: the groups in host order and the port. */
  method Insert(g: seq<Group>, port: nat) returns (os: string)
    requires |g| == 8
    ensures os == Inserted(g, port)
  {
    hide Hex, Printed, Before, Side, ZerosFrom, RunEnd;
    os := "[";
    var usedZeros := false;
    ghost var a, b := ZerosFrom(g), RunEnd(g);
    BeforeFirst(g);
    for i := 0 to 8
      invariant os == "[" + Before(g, i)
      invariant usedZeros <==> a < b < i
    {
      ghost var before := Before(g, i);
      if g[i] == 0 && !usedZeros {
        BeforeGap(g, i);
        continue;
      }
      if i < a {
        BeforeHead(g, i);
      } else {
        BeforeTail(g, i);
      }
      if i > 0 && g[i - 1] == 0 && !usedZeros {
        os := os + ":";
        usedZeros := true;
      }
      if i > 0 {
        os := os + ":";
      }
      os := os + Hex(g[i]);
    }
    if !usedZeros && g[7] == 0 {
      os := os + "::";
    }
    BeforeLast(g);
    os := os + "]:" + Dec(port);
  }

  /** Nothing is printed inside the first run of zeros. */
  lemma BeforeGap(g: seq<Group>, i: nat)
    requires ZerosFrom(g) <= i < RunEnd(g)
    ensures Before(g, i + 1) == Before(g, i)
  {
  }

  lemma BeforeFirst(g: seq<Group>)
    ensures Before(g, 0) == ""
  {
    assert g[..0] == [];
  }

  lemma BeforeLast(g: seq<Group>)
    ensures var a := ZerosFrom(g);
            var b := RunEnd(g);
            Printed(g) == Before(g, |g|) + if a < |g| == b then "::" else ""
  {
    assert g[..|g|] == g;
    var a := ZerosFrom(g);
    var b := RunEnd(g);
    if b == |g| {
      assert g[b..] == [];
      assert Side(g[b..]) == "";
    } else {
      assert g[b..] == g[b..|g|];
    }
  }

  // ----- Reading the printed text back -----

  ghost predicate NoDouble(s: string) {
    forall i: nat :: !DoubleAt(s, i)
  }

  lemma {:induction false} JoinNoDouble(parts: seq<string>)
    requires AllFree(parts, ':') && forall i :: 0 <= i < |parts| ==> parts[i] != ""
    ensures NoDouble(Join(parts, ':'))
    ensures parts != [] ==> var s := Join(parts, ':'); s != "" && s[0] != ':' && s[|s| - 1] != ':'
  {
    if |parts| > 1 {
      JoinNoDouble(parts[1..]);
      var rest, s := Join(parts[1..], ':'), Join(parts, ':');
      forall i: nat
        ensures !DoubleAt(s, i)
      {
        if i > |parts[0]| {
          assert !DoubleAt(rest, i - |parts[0]| - 1);
        }
      }
    }
  }

  lemma {:induction false} ParseHexes(g: seq<Group>)
    ensures ParseGroups(Hexes(g)) == Some(g)
  {
    hide Hex, ParseGroup;
    if g != [] {
      ParseHexes(g[1..]);
      GroupRoundTrip(g[0]);
      assert Hexes(g)[1..] == Hexes(g[1..]);
      var first: seq<nat> := [g[0]];
      assert first + g[1..] == g;
    }
  }

  /** One side of the printed text holds no "::", neither begins nor ends with a colon, and reads back as its groups. */
  lemma SideReads(g: seq<Group>)
    ensures ParseSide(Side(g)) == Some(g) && NoDouble(Side(g))
    ensures g != [] ==> var s := Side(g); s != "" && s[0] != ':' && s[|s| - 1] != ':'
  {
    hide Hex, Split, ParseGroup;
    forall i | 0 <= i < |g|
      ensures Hexes(g)[i] != "" && Free(Hexes(g)[i], ':')
    {
      GroupRoundTrip(g[i]);
    }
    JoinNoDouble(Hexes(g));
    if g != [] {
      SplitJoin(Hexes(g), ':');
    }
    ParseHexes(g);
  }

  lemma {:induction false} FirstDoubleIs(s: string, from: nat, k: nat)
    requires from <= k && (forall i: nat :: i < k ==> !DoubleAt(s, i)) && (DoubleAt(s, k) || k >= |s|)
    ensures FirstDouble(s, from) == if DoubleAt(s, k) then Some(k) else None
    decreases k - from
  {
    if from < k && from < |s| {
      FirstDoubleIs(s, from + 1, k);
    }
  }

  /** "::" stands in the compressed text once only. */
  lemma OneDouble(left: seq<Group>, right: seq<Group>)
    ensures forall i: nat :: DoubleAt(Side(left) + "::" + Side(right), i) <==> i == |Side(left)|
  {
    hide Side;
    SideReads(left);
    SideReads(right);
    var l, r := Side(left), Side(right);
    var s := l + "::" + r;
    if left == [] {
      SideEmpty();
    }
    if right == [] {
      SideEmpty();
    }
    forall i: nat
      ensures DoubleAt(s, i) <==> i == |l|
    {
      if i < |l| {
        assert !DoubleAt(l, i);
      } else if i >= |l| + 2 {
        assert !DoubleAt(r, i - |l| - 2);
      }
    }
  }

  lemma ParseCompressed(left: seq<Group>, right: seq<Group>)
    requires |left| + |right| < 8
    ensures Parse(Side(left) + "::" + Side(right)) == Some(left + Zeros(8 - |left| - |right|) + right)
  {
    hide Side, ParseSide;
    OneDouble(left, right);
    SideReads(left);
    SideReads(right);
    var s := Side(left) + "::" + Side(right);
    FirstDoubleIs(s, 0, |Side(left)|);
    assert s[..|Side(left)|] == Side(left) && s[|Side(left)| + 2..] == Side(right);
  }

  /** The printer is faithful: the printed text of every address reads back as that address. */
  lemma PrintedReadsBack(g: seq<Group>)
    requires |g| == 8
    ensures Parse(Printed(g)) == Some(g)
  {
    hide Side, ParseSide;
    var a, b := ZerosFrom(g), RunEnd(g);
    if a == 8 {
      SideReads(g);
      FirstDoubleIs(Side(g), 0, |Side(g)|);
    } else {
      ParseCompressed(g[..a], g[b..]);
      assert g[..a] + Zeros(b - a) + g[b..] == g;
    }
  }

  /** "::" is printed once if the address has a zero group, and else not at all. */
  lemma PrintedDoubleIff(g: seq<Group>)
    ensures (exists i: nat :: DoubleAt(Printed(g), i)) <==> 0 in g
    ensures forall i: nat, j: nat :: DoubleAt(Printed(g), i) && DoubleAt(Printed(g), j) ==> i == j
  {
    hide Side;
    var a, b := ZerosFrom(g), RunEnd(g);
    if a == |g| {
      SideReads(g);
    } else {
      OneDouble(g[..a], g[b..]);
      assert DoubleAt(Printed(g), |Side(g[..a])|);
    }
  }

  function Inserted(g: seq<Group>, port: nat): string {
    "[" + Printed(g) + "]:" + Dec(port)
  }

  /** The text is the address in brackets, and behind the last colon the port in base ten. */
  lemma InsertedReads(g: seq<Group>, port: nat)
    requires |g| == 8
    ensures var s := Inserted(g, port);
            exists a: string, b: string ::
              s == "[" + a + "]:" + b && Parse(a) == Some(g) && Free(b, ':') && AllDigits(b) && DigitsValue(b) == port
  {
    hide Printed, Parse;
    PrintedReadsBack(g);
    DecFree(port, ':');
    DecValue(port);
    assert Inserted(g, port) == "[" + Printed(g) + "]:" + Dec(port);
  }

  /** Different addresses or ports print differently. */
  lemma InsertedInjective(g: seq<Group>, port: nat, g': seq<Group>, port': nat)
    requires |g| == |g'| == 8 && Inserted(g, port) == Inserted(g', port')
    ensures g == g' && port == port'
  {
    hide Printed, Parse;
    DecFree(port, ':');
    DecFree(port', ':');
    assert Inserted(g, port) == ("[" + Printed(g) + "]") + [':'] + Dec(port);
    assert Inserted(g', port') == ("[" + Printed(g') + "]") + [':'] + Dec(port');
    TailUnique("[" + Printed(g) + "]", Dec(port), "[" + Printed(g') + "]", Dec(port'), ':');
    DecInjective(port, port');
    assert Printed(g) == ("[" + Printed(g) + "]")[1..|Printed(g)| + 1] ==
           ("[" + Printed(g') + "]")[1..|Printed(g')| + 1] == Printed(g');
    PrintedReadsBack(g);
    PrintedReadsBack(g');
  }
}
