/** Which texts the readers of numbers, addresses and hexadecimal keys accept, and what they make of them. */
module Numerals {
  import opened Bytes
  import opened Text
  import opened Addresses

  // ---- Hexadecimal ----

  function LowerChar(c: char): (r: char) {
    if 'A' <= c <= 'Z' then (c as int + 32) as char else c
  }

  function Lower(s: string): (r: string)
    ensures |r| == |s| && forall i :: 0 <= i < |s| ==> r[i] == LowerChar(s[i])
  {
    seq(|s|, i requires 0 <= i < |s| => LowerChar(s[i]))
  }

  lemma HexValueExactly(c: char, n: nat)
    requires n < 16
    ensures HexValue(c) == Some(n) <==> LowerChar(c) == HexDigit(n)
  {
  }

  lemma EncodePair(key: Octets)
    requires key != []
    ensures var e := HexEncode(key);
            |e| >= 2 && e[0] == HexDigit(key[0] / 16) && e[1] == HexDigit(key[0] % 16) && e[2..] == HexEncode(key[1..])
  {
  }

  /** A hexadecimal text, in either case, is read as the octets whose lower-case notation it has, and no other text is. */
  lemma {:induction false} HexDecodeExactly(s: string, key: Octets)
    ensures HexDecode(s) == Some(key) <==> Lower(s) == HexEncode(key)
    decreases |s|
  {
    if |s| >= 2 && key != [] {
      HexDecodeExactly(s[2..], key[1..]);
      EncodePair(key);
      HexValueExactly(s[0], key[0] / 16);
      HexValueExactly(s[1], key[0] % 16);
      DecodePair(s, key);
      hide HexDecode, HexEncode, HexValue, HexDigit, LowerChar;
      SamePairs(Lower(s), HexEncode(key));
      SamePairs(HexEncode(key), Lower(s));
      LowerTail(s);
    } else if key != [] {
      EncodePair(key);
    }
  }

  lemma LowerTail(s: string)
    requires |s| >= 2
    ensures var l := Lower(s); l[0] == LowerChar(s[0]) && l[1] == LowerChar(s[1]) && l[2..] == Lower(s[2..])
  {
    hide LowerChar;
  }

  lemma SamePairs(a: string, b: string)
    requires |a| >= 2 && |b| >= 2
    ensures a == b <==> a[0] == b[0] && a[1] == b[1] && a[2..] == b[2..]
  {
    assert a == [a[0], a[1]] + a[2..] && b == [b[0], b[1]] + b[2..];
  }

  lemma DecodePair(s: string, key: Octets)
    requires |s| >= 2 && key != []
    ensures HexDecode(s) == Some(key) <==>
            && HexValue(s[0]) == Some(key[0] / 16) && HexValue(s[1]) == Some(key[0] % 16)
            && HexDecode(s[2..]) == Some(key[1..])
  {
    hide HexValue;
    var high, low, rest := HexValue(s[0]), HexValue(s[1]), HexDecode(s[2..]);
    if high.Some? && low.Some? && rest.Some? {
      var first: byte := high.value * 16 + low.value;
      assert first / 16 == high.value && first % 16 == low.value;
      var all := [first] + rest.value;
      assert all[0] == first && all[1..] == rest.value && key == [key[0]] + key[1..];
    }
  }

  /** Dropping separators in one pass is removing the spaces and then the colons. */
  lemma {:induction false} StripIsReplace(s: string)
    ensures StripSeparators(s) == Replace(Replace(s, " ", ""), ":", "")
  {
    assert " " == [' '] && ":" == [':'];
    if s != "" {
      StripIsReplace(s[1..]);
      ReplaceOne(s, ' ');
      var spaceless := Replace(s[1..], " ", "");
      hide Replace;
      if s[0] == ' ' {
        assert Replace(s, " ", "") == spaceless;
      } else {
        var kept := [s[0]] + spaceless;
        assert Replace(s, " ", "") == kept && kept[1..] == spaceless;
        ReplaceOne(kept, ':');
      }
    }
  }

  lemma ReplaceOne(s: string, c: char)
    requires s != ""
    ensures Replace(s, [c], "") == (if s[0] == c then "" else [s[0]]) + Replace(s[1..], [c], "")
  {
    assert [c] <= s <==> s[0] == c;
  }

  /**
    * Every text: it is read as a key if and only if, without its spaces and colons and in lower case, it is the
    * hexadecimal notation of that key.
    */
  lemma KeyFromHexExactly(s: string, key: Octets)
    ensures KeyFromHex(s) == Some(key) <==> Lower(Replace(Replace(s, " ", ""), ":", "")) == HexEncode(key)
  {
    hide HexDecode, HexEncode, Replace, StripSeparators, Lower;
    StripIsReplace(s);
    HexDecodeExactly(StripSeparators(s), key);
  }

  predicate IsHex(c: char) {
    '0' <= c <= '9' || 'a' <= c <= 'f' || 'A' <= c <= 'F'
  }

  /** What is refused: an odd number of digits, or anything that is no digit. */
  lemma {:induction false} HexRefused(s: string)
    ensures HexDecode(s) == None <==> |s| % 2 == 1 || exists c :: c in s && !IsHex(c)
    decreases |s|
  {
    if |s| >= 2 {
      HexRefused(s[2..]);
      assert s == [s[0], s[1]] + s[2..];
      assert HexValue(s[0]).Some? == IsHex(s[0]) && HexValue(s[1]).Some? == IsHex(s[1]);
      assert s[0] in s && s[1] in s && forall c :: c in s[2..] ==> c in s;
      hide HexValue, IsHex;
    } else if |s| == 0 {
      assert forall c :: c !in s;
    }
  }

  // ---- Decimal ----

  function Repeat(c: char, n: nat): (s: string)
    ensures |s| == n && forall d :: d in s ==> d == c
  {
    seq(n, _ => c)
  }

  /** A numeral for `n`: an optional plus sign, any number of leading zeros, the decimal notation. */
  ghost predicate Numeral(s: string, n: nat) {
    exists plus: bool, zeros: nat :: s == Written(plus, zeros, n)
  }

  function Written(plus: bool, zeros: nat, n: nat): (s: string) {
    (if plus then "+" else "") + (Repeat('0', zeros) + Decimal(n))
  }

  predicate Digits(s: string) {
    forall c :: c in s ==> IsDigit(c)
  }

  lemma DigitsParts(a: string, b: string)
    ensures Digits(a + b) <==> Digits(a) && Digits(b)
  {
    forall c ensures c in a + b <==> c in a || c in b {
    }
  }

  lemma {:induction false} ZerosAddNothing(zeros: nat, s: string)
    requires Digits(s)
    ensures Digits(Repeat('0', zeros) + s) && DigitsValue(Repeat('0', zeros) + s) == DigitsValue(s)
    decreases zeros + |s|
  {
    var z := Repeat('0', zeros);
    DigitsParts(z, s);
    var t := z + s;
    if s != "" {
      var front := s[..|s| - 1];
      assert s == front + [s[|s| - 1]];
      DigitsParts(front, [s[|s| - 1]]);
      ZerosAddNothing(zeros, front);
      assert t[..|t| - 1] == z + front && t[|t| - 1] == s[|s| - 1];
    } else if zeros > 0 {
      ZerosAddNothing(zeros - 1, "");
      assert t[..|t| - 1] == Repeat('0', zeros - 1) + "" && t[|t| - 1] == '0';
    }
  }

  lemma LastDigit(s: string)
    requires s != "" && Digits(s)
    ensures var front, d := s[..|s| - 1], s[|s| - 1] as int - '0' as int;
            && 0 <= d < 10 && s == front + [Digit(d)] && Digits(front)
            && DigitsValue(s) == DigitsValue(front) * 10 + d
  {
    var front, last := s[..|s| - 1], s[|s| - 1];
    assert last in s && s == front + [last];
    DigitsParts(front, [last]);
    DigitOf(last);
  }

  lemma DigitOf(c: char)
    requires IsDigit(c)
    ensures Digit(c as int - '0' as int) == c
  {
  }

  lemma ShortDecimal(d: nat)
    requires d < 10
    ensures Decimal(d) == [Digit(d)] && DigitsValue("") == 0
  {
  }

  /** Digits are leading zeros and the decimal notation of their value. */
  lemma {:induction false} ZerosThenDecimal(s: string)
    requires s != "" && Digits(s)
    ensures exists zeros: nat :: s == Repeat('0', zeros) + Decimal(DigitsValue(s))
    decreases |s|
  {
    hide Digits, Digit, DigitsValue, Decimal;
    var front, d := s[..|s| - 1], s[|s| - 1] as int - '0' as int;
    LastDigit(s);
    ShortDecimal(d);
    if front == "" {
      assert s == Repeat('0', 0) + Decimal(d);
    } else {
      ZerosThenDecimal(front);
      var v := DigitsValue(front);
      var k: nat :| front == Repeat('0', k) + Decimal(v);
      OneMoreDigit(v, d);
      if v == 0 {
        assert s == Repeat('0', k + 1) + Decimal(d);
      } else {
        assert s == Repeat('0', k) + Decimal(v * 10 + d);
      }
    }
  }

  lemma OneMoreDigit(v: nat, d: nat)
    requires d < 10
    ensures v == 0 ==> Decimal(v) == "0" && Decimal(v * 10 + d) == [Digit(d)]
    ensures v > 0 ==> Decimal(v * 10 + d) == Decimal(v) + [Digit(d)]
  {
    assert (v * 10 + d) / 10 == v && (v * 10 + d) % 10 == d;
  }

  /** Every text: it is read as an octet if and only if it is a numeral for it. */
  lemma ParseU8Exactly(s: string, n: byte)
    ensures ParseU8(s) == Some(n) <==> Numeral(s, n)
  {
    hide ParseU8, Numeral;
    if ParseU8(s) == Some(n) {
      ParsedIsNumeral(s, n);
    }
    if Numeral(s, n) {
      NumeralIsParsed(s, n);
    }
  }

  lemma ParsedIsNumeral(s: string, n: byte)
    requires ParseU8(s) == Some(n)
    ensures Numeral(s, n)
  {
    hide DigitsValue, Decimal, Repeat;
    var plus := s != "" && s[0] == '+';
    var digits := if plus then s[1..] else s;
    assert Digits(digits);
    ZerosThenDecimal(digits);
    var zeros: nat :| digits == Repeat('0', zeros) + Decimal(DigitsValue(digits));
    assert s == (if plus then "+" else "") + digits;
    assert s == Written(plus, zeros, n);
  }

  lemma NumeralIsParsed(s: string, n: byte)
    requires Numeral(s, n)
    ensures ParseU8(s) == Some(n)
  {
    hide DigitsValue, Decimal, Repeat;
    var plus: bool, zeros: nat :| s == Written(plus, zeros, n);
    var digits := Repeat('0', zeros) + Decimal(n);
    ZerosAddNothing(zeros, Decimal(n));
    DecimalValue(n);
    NotPlus(digits);
    assert plus ==> s[0] == '+' && s[1..] == digits;
    assert !plus ==> s == digits;
  }

  lemma NotPlus(digits: string)
    requires digits != "" && Digits(digits)
    ensures digits[0] != '+' && forall c :: c in digits ==> IsDigit(c)
  {
    assert digits[0] in digits;
  }

  lemma NumeralHasNo(s: string, n: nat, sep: char)
    requires Numeral(s, n) && !IsDigit(sep) && sep != '+'
    ensures sep !in s
  {
    hide Decimal, Repeat;
    var plus: bool, zeros: nat :| s == Written(plus, zeros, n);
    assert forall c :: c in s ==> c == '+' || c in Repeat('0', zeros) || c in Decimal(n);
  }

  // ---- Addresses ----

  /** Three numerals with two separators between them. */
  ghost predicate ThreeNumerals(s: string, sep: char, a: nat, b: nat, c: nat) {
    exists x, y, z :: s == ThreeTexts(x, y, z, sep) && Numeral(x, a) && Numeral(y, b) && Numeral(z, c)
  }

  function ThreeTexts(x: string, y: string, z: string, sep: char): (s: string) {
    x + [sep] + (y + [sep] + z)
  }

  function Rejoined(parts: seq<string>, sep: char): (s: string)
    requires parts != []
  {
    if |parts| == 1 then parts[0] else parts[0] + [sep] + Rejoined(parts[1..], sep)
  }

  lemma {:induction false} SplitRejoined(s: string, sep: char)
    ensures Rejoined(Split(s, sep), sep) == s
  {
    if s != "" {
      var rest := Split(s[1..], sep);
      SplitRejoined(s[1..], sep);
      assert s == [s[0]] + s[1..];
      if s[0] == sep {
        assert ([""] + rest)[1..] == rest;
        assert "" + [sep] + s[1..] == s;
      } else {
        var all := [[s[0]] + rest[0]] + rest[1..];
        assert all[1..] == rest[1..];
        assert Rejoined(all, sep) == [s[0]] + Rejoined(rest, sep) by {
          if |rest| > 1 {
            assert [s[0]] + rest[0] + [sep] + Rejoined(rest[1..], sep)
                   == [s[0]] + (rest[0] + [sep] + Rejoined(rest[1..], sep));
          }
        }
      }
    }
  }

  lemma SplitThree(s: string, sep: char)
    requires |Split(s, sep)| == 3
    ensures var parts := Split(s, sep); s == ThreeTexts(parts[0], parts[1], parts[2], sep)
  {
    hide Split;
    SplitRejoined(s, sep);
    var parts := Split(s, sep);
    assert parts[1..] == [parts[1], parts[2]] && parts[1..][1..] == [parts[2]];
    assert Rejoined([parts[2]], sep) == parts[2];
    assert Rejoined([parts[1], parts[2]], sep) == parts[1] + [sep] + parts[2] by {
      assert [parts[1], parts[2]][1..] == [parts[2]];
    }
  }

  /** Every text: it is read as three octets if and only if it is numerals for them with the separator between. */
  lemma ParseJoinedExactly(s: string, sep: char, a: byte, b: byte, c: byte)
    requires !IsDigit(sep) && sep != '+'
    ensures ParseJoined(s, sep) == Some((a, b, c)) <==> ThreeNumerals(s, sep, a, b, c)
  {
    hide Split, ParseU8, Numeral;
    if ParseJoined(s, sep) == Some((a, b, c)) {
      var parts := Split(s, sep);
      SplitThree(s, sep);
      ParseU8Exactly(parts[0], a);
      ParseU8Exactly(parts[1], b);
      ParseU8Exactly(parts[2], c);
    }
    if ThreeNumerals(s, sep, a, b, c) {
      var x, y, z :| s == ThreeTexts(x, y, z, sep) && Numeral(x, a) && Numeral(y, b) && Numeral(z, c);
      NumeralHasNo(x, a, sep);
      NumeralHasNo(y, b, sep);
      NumeralHasNo(z, c, sep);
      SplitFirst(x, sep, y + [sep] + z);
      SplitFirst(y, sep, z);
      SplitNone(z, sep);
      assert Split(s, sep) == [x, y, z];
      ParseU8Exactly(x, a);
      ParseU8Exactly(y, b);
      ParseU8Exactly(z, c);
    }
  }

  /** Every text: it is read as a group address if and only if it is numerals for main, middle and sub group. */
  lemma ParseGroupExactly(s: string, g: GroupAddress)
    ensures ParseGroup(s) == Some(g) <==> ThreeNumerals(s, '/', g / 2048, (g / 256) % 8, g % 256)
  {
    hide ParseJoined, ThreeNumerals;
    ParseJoinedExactly(s, '/', g / 2048, (g / 256) % 8, g % 256);
    GroupParts(g);
    var parts := ParseJoined(s, '/');
    if parts.Some? {
      PackedGroup(parts.value.0, parts.value.1, parts.value.2, g);
    }
  }

  lemma PackedGroup(main: byte, middle: byte, sub: byte, g: GroupAddress)
    ensures PackGroup(main, middle, sub) == Some(g) <==> main == g / 2048 && middle == (g / 256) % 8 && sub == g % 256
  {
    GroupParts(g);
    if main <= 15 && middle <= 7 {
      var packed := main * 2048 + middle * 256 + sub;
      assert packed / 256 == main * 8 + middle && packed / 2048 == main;
    }
  }

  /** And as an individual address if and only if it is numerals for area, line and device. */
  lemma ParseIndividualExactly(s: string, a: IndividualAddress)
    ensures ParseIndividual(s) == Some(a) <==> ThreeNumerals(s, '.', a / 4096, (a / 256) % 16, a % 256)
  {
    hide ParseJoined, ThreeNumerals;
    ParseJoinedExactly(s, '.', a / 4096, (a / 256) % 16, a % 256);
    IndividualParts(a);
    var parts := ParseJoined(s, '.');
    if parts.Some? {
      PackedIndividual(parts.value.0, parts.value.1, parts.value.2, a);
    }
  }

  lemma PackedIndividual(area: byte, line: byte, device: byte, a: IndividualAddress)
    ensures PackIndividual(area, line, device) == Some(a)
            <==> area == a / 4096 && line == (a / 256) % 16 && device == a % 256
  {
    IndividualParts(a);
    if area <= 15 && line <= 15 {
      var packed := area * 4096 + line * 256 + device;
      assert packed / 256 == area * 16 + line && packed / 4096 == area;
    }
  }
}
