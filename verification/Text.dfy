/** Separator-joined text and decimal numbers: the two encodings every stored key and value is built from. */
module Text {

  datatype Option<+T> = None | Some(value: T)

  predicate Free(s: string, sep: char) {
    sep !in s
  }

  predicate AllFree(parts: seq<string>, sep: char) {
    forall i :: 0 <= i < |parts| ==> Free(parts[i], sep)
  }

  /** The parts with one separator between neighbours. */
  function Join(parts: seq<string>, sep: char): string {
    if |parts| == 0 then ""
    else if |parts| == 1 then parts[0]
    else parts[0] + [sep] + Join(parts[1..], sep)
  }

  /** Cuts a text at every separator; never empty. */
  function Split(s: string, sep: char): (r: seq<string>)
    ensures |r| >= 1 && AllFree(r, sep)
  {
    if s == "" then [""]
    else
      var rest := Split(s[1..], sep);
      if s[0] == sep then [""] + rest else [[s[0]] + rest[0]] + rest[1..]
  }

  lemma {:induction false} SplitPrefix(a: string, s: string, sep: char)
    requires Free(a, sep)
    ensures Split(a + s, sep) == [a + Split(s, sep)[0]] + Split(s, sep)[1..]
  {
    if a == "" {
      assert a + s == s && a + Split(s, sep)[0] == Split(s, sep)[0];
    } else {
      assert (a + s)[1..] == a[1..] + s && (a + s)[0] == a[0];
      SplitPrefix(a[1..], s, sep);
      assert [a[0]] + (a[1..] + Split(s, sep)[0]) == a + Split(s, sep)[0];
    }
  }

  lemma {:induction false} SplitJoin(parts: seq<string>, sep: char)
    requires |parts| > 0 && AllFree(parts, sep)
    ensures Split(Join(parts, sep), sep) == parts
  {
    if |parts| == 1 {
      SplitPrefix(parts[0], "", sep);
      assert parts[0] + "" == parts[0];
    } else {
      var tail := [sep] + Join(parts[1..], sep);
      SplitJoin(parts[1..], sep);
      assert tail[1..] == Join(parts[1..], sep);
      assert Split(tail, sep) == [""] + parts[1..];
      SplitPrefix(parts[0], tail, sep);
      assert parts[0] + "" == parts[0];
      assert parts[0] + [sep] + Join(parts[1..], sep) == parts[0] + tail;
    }
  }

  lemma {:induction false} JoinSplit(s: string, sep: char)
    ensures Join(Split(s, sep), sep) == s
  {
    if s != "" {
      JoinSplit(s[1..], sep);
      var rest := Split(s[1..], sep);
      var all := Split(s, sep);
      if s[0] == sep {
        assert all[1..] == rest;
      } else if |rest| > 1 {
        assert all[1..] == rest[1..];
      }
    }
  }

  lemma SplitFree(s: string, sep: char)
    requires Free(s, sep)
    ensures Split(s, sep) == [s]
  {
    SplitPrefix(s, "", sep);
    assert s + "" == s;
  }

  /** Cutting at one separator first. */
  lemma {:induction false} SplitAppend(a: string, b: string, sep: char)
    ensures Split(a + [sep] + b, sep) == Split(a, sep) + Split(b, sep)
  {
    var s := a + [sep] + b;
    if a == "" {
      assert s[1..] == b;
    } else {
      assert s[1..] == a[1..] + [sep] + b && s[0] == a[0];
      SplitAppend(a[1..], b, sep);
    }
  }

  /** Separator-free parts are determined by their joined text. */
  lemma JoinInjective(a: seq<string>, b: seq<string>, sep: char)
    requires |a| > 0 && AllFree(a, sep) && |b| > 0 && AllFree(b, sep)
    requires Join(a, sep) == Join(b, sep)
    ensures a == b
  {
    SplitJoin(a, sep);
    SplitJoin(b, sep);
  }

  lemma {:induction false} JoinAppend(parts: seq<string>, last: string, sep: char)
    requires |parts| > 0
    ensures Join(parts + [last], sep) == Join(parts, sep) + [sep] + last
  {
    if |parts| == 1 {
      assert (parts + [last])[1..] == [last];
    } else {
      assert (parts + [last])[1..] == parts[1..] + [last];
      JoinAppend(parts[1..], last, sep);
    }
  }

  /** The text behind the last separator. */
  lemma TailUnique(a: string, s: string, b: string, t: string, sep: char)
    requires a + [sep] + s == b + [sep] + t && Free(s, sep) && Free(t, sep)
    ensures a == b && s == t
  {
    var x, y := a + [sep] + s, b + [sep] + t;
    assert x[|a|] == sep && y[|b|] == sep;
    assert a == x[..|a|] && b == y[..|b|] && s == x[|a| + 1..] && t == y[|b| + 1..];
  }

  function DigitChar(d: nat): char
    requires d < 10
  {
    "0123456789"[d]
  }

  predicate IsDigit(c: char) {
    '0' <= c <= '9'
  }

  function DigitValue(c: char): nat
    requires IsDigit(c)
  {
    c as int - '0' as int
  }

  predicate AllDigits(s: string) {
    forall i :: 0 <= i < |s| ==> IsDigit(s[i])
  }

  /** std::to_string of a number that is not negative. */
  function Dec(n: nat): (s: string)
    ensures |s| > 0 && AllDigits(s)
  {
    if n < 10 then [DigitChar(n)] else Dec(n / 10) + [DigitChar(n % 10)]
  }

  function DigitsValue(s: string): nat
    requires AllDigits(s)
  {
    if s == "" then 0 else DigitsValue(s[..|s| - 1]) * 10 + DigitValue(s[|s| - 1])
  }

  /** std::to_string. */
  function ToString(n: int): string {
    if n < 0 then "-" + Dec(-n) else Dec(n)
  }

  /** The longest prefix made of digits. */
  function DigitPrefix(s: string): (r: string)
    ensures AllDigits(r)
  {
    if s == "" || !IsDigit(s[0]) then "" else [s[0]] + DigitPrefix(s[1..])
  }

  predicate IsSpace(c: char) {
    c == ' ' || '\t' <= c <= '\r'
  }

  /** std::stoi without its range check: leading white space, one optional sign, then the longest run of digits;
      None where it throws because there is no digit. */
  function Stoi(s: string): Option<int>
    decreases |s|
  {
    if s == "" then None
    else if IsSpace(s[0]) then Stoi(s[1..])
    else
      var signed := s[0] == '-' || s[0] == '+';
      var digits := DigitPrefix(if signed then s[1..] else s);
      if digits == "" then None
      else Some(if s[0] == '-' then 0 - DigitsValue(digits) else DigitsValue(digits))
  }

  lemma {:induction false} DecValue(n: nat)
    ensures DigitsValue(Dec(n)) == n
  {
    if n >= 10 {
      DecValue(n / 10);
      var s := Dec(n);
      assert s[..|s| - 1] == Dec(n / 10);
    } else {
      assert Dec(n)[..0] == "";
    }
  }

  lemma {:induction false} DigitPrefixOfDigits(s: string)
    requires AllDigits(s)
    ensures DigitPrefix(s) == s
  {
    if s != "" {
      DigitPrefixOfDigits(s[1..]);
    }
  }

  /** Reading back a printed number returns it. */
  lemma StoiToString(n: int)
    ensures Stoi(ToString(n)) == Some(n)
  {
    hide Stoi, Dec;
    var k := if n < 0 then -n else n;
    StoiReads(k, "", "");
    assert Dec(k) + "" == Dec(k) && "-" + Dec(k) + "" == "-" + Dec(k);
  }

  lemma {:induction false} DigitPrefixBefore(s: string, rest: string)
    requires AllDigits(s) && (rest == "" || !IsDigit(rest[0]))
    ensures DigitPrefix(s + rest) == s
  {
    if s == "" {
      assert s + rest == rest;
    } else {
      assert (s + rest)[1..] == s[1..] + rest;
      DigitPrefixBefore(s[1..], rest);
    }
  }

  /** What stands behind a number is ignored, and so is white space before it; a text that begins otherwise holds none.
      */
  lemma StoiReads(n: nat, rest: string, s: string)
    requires rest == "" || !IsDigit(rest[0])
    ensures Stoi(Dec(n) + rest) == Stoi("+" + Dec(n) + rest) == Some(n) && Stoi("-" + Dec(n) + rest) == Some(0 - n)
    ensures s != "" && (s[0] == ' ' || 9 <= s[0] as int <= 13) ==> Stoi(s) == Stoi(s[1..])
    ensures s == "" || (s[0] !in " +-" && !('0' <= s[0] <= '9') && !(9 <= s[0] as int <= 13)) ==> Stoi(s) == None
  {
    StoiBegins(s);
    hide DigitPrefix, DigitsValue;
    var d := Dec(n) + rest;
    DecValue(n);
    DigitPrefixBefore(Dec(n), rest);
    assert d[0] == Dec(n)[0] && IsDigit(d[0]);
    assert ("+" + Dec(n) + rest)[1..] == d && ("-" + Dec(n) + rest)[1..] == d;
  }

  lemma StoiBegins(s: string)
    ensures s != "" && (s[0] == ' ' || 9 <= s[0] as int <= 13) ==> Stoi(s) == Stoi(s[1..])
    ensures s == "" || (s[0] !in " +-" && !('0' <= s[0] <= '9') && !(9 <= s[0] as int <= 13)) ==> Stoi(s) == None
  {
  }

  lemma DecInjective(a: nat, b: nat)
    requires Dec(a) == Dec(b)
    ensures a == b
  {
    DecValue(a);
    DecValue(b);
  }

  /** A separator that is not a digit never occurs in a printed number. */
  lemma DecFree(n: nat, sep: char)
    requires !IsDigit(sep)
    ensures Free(Dec(n), sep)
  {
    var s := Dec(n);
    assert forall i :: 0 <= i < |s| ==> IsDigit(s[i]);
  }

  const TWO_TO_15: int := 0x8000
  const TWO_TO_16: int := 0x1_0000

  /** Conversion to int16_t: the value modulo 2^16, in two's complement. */
  function ToInt16(n: int): (r: int)
    ensures -TWO_TO_15 <= r < TWO_TO_15
    ensures (n - r) % TWO_TO_16 == 0
  {
    (n + TWO_TO_15) % TWO_TO_16 - TWO_TO_15
  }
}
