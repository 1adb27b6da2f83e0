/** Substring search and replacement, as the standard library's `str::find` and `str::replace` do them. */
module Text {
  import opened Bytes

  predicate MatchAt(s: string, p: string, i: nat) {
    i + |p| <= |s| && s[i..i + |p|] == p
  }

  /** The first occurrence of `p` in `s`. */
  function Find(s: string, p: string): (r: Option<nat>)
    ensures r.Some? ==> r.value + |p| <= |s|
    decreases |s|
  {
    if MatchAt(s, p, 0) then Some(0)
    else if s == "" then None
    else Shifted(1, Find(s[1..], p))
  }

  function Shifted(k: nat, r: Option<nat>): (out: Option<nat>) {
    if r.None? then None else Some(k + r.value)
  }

  lemma MatchTail(s: string, p: string, i: nat)
    requires s != ""
    ensures MatchAt(s, p, i + 1) <==> MatchAt(s[1..], p, i)
  {
    if i + 1 + |p| <= |s| {
      assert s[1..][i..i + |p|] == s[i + 1..i + 1 + |p|];
    }
  }

  /** What is found is an occurrence, no occurrence precedes it, and nothing is found only if there is none. */
  lemma {:induction false} FindIsFirst(s: string, p: string, i: nat)
    ensures var r := Find(s, p);
            && (r.None? ==> !MatchAt(s, p, i))
            && (r.Some? ==> MatchAt(s, p, r.value) && (i < r.value ==> !MatchAt(s, p, i)))
    decreases |s|
  {
    if !MatchAt(s, p, 0) && s != "" {
      FindIsFirst(s[1..], p, if i > 0 then i - 1 else 0);
      var rest := Find(s[1..], p);
      if rest.Some? {
        MatchTail(s, p, rest.value);
      }
      if i > 0 {
        MatchTail(s, p, i - 1);
      }
    }
  }

  lemma FirstMatch(s: string, p: string, i: nat)
    requires MatchAt(s, p, i) && forall j: nat :: j < i ==> !MatchAt(s, p, j)
    ensures Find(s, p) == Some(i)
  {
    var r := Find(s, p);
    FindIsFirst(s, p, i);
  }

  /** One differing character rules an occurrence out. */
  lemma Mismatch(s: string, p: string, i: nat, k: nat)
    requires k < |p| && (i + k >= |s| || s[i + k] != p[k])
    ensures !MatchAt(s, p, i)
  {
    if i + |p| <= |s| {
      assert s[i..i + |p|][k] == s[i + k];
    }
  }

  /** If `p[0]` does not occur in `a`, the first `p` of `a + p + b` is the one after `a`. */
  lemma FindAfter(a: string, p: string, b: string)
    requires p != "" && p[0] !in a
    ensures Find(a + p + b, p) == Some(|a|)
  {
    var s := a + p + b;
    assert s[|a|..|a| + |p|] == p;
    forall j: nat | j < |a|
      ensures !MatchAt(s, p, j)
    {
      assert s[j] == a[j];
      Mismatch(s, p, j, 0);
    }
    FirstMatch(s, p, |a|);
  }

  /** If `p` starts nowhere in `a`, even running over into `b`, the search goes on in `b`. */
  lemma {:induction false} FindShift(a: string, b: string, p: string)
    requires forall j: nat :: j < |a| ==> !MatchAt(a + b, p, j)
    ensures Find(a + b, p) == Shifted(|a|, Find(b, p))
  {
    hide MatchAt;
    if a == "" {
      assert a + b == b;
    } else {
      var rest := a[1..];
      assert (a + b)[1..] == rest + b;
      forall j: nat | j < |rest| ensures !MatchAt(rest + b, p, j) {
        MatchTail(a + b, p, j);
      }
      FindShift(rest, b, p);
    }
  }

  lemma FindAbsent(s: string, p: string)
    requires p != "" && p[0] !in s
    ensures Find(s, p) == None
  {
    NeverMatches(s, p, 0);
  }

  /** A character of the pattern that the text does not contain. */
  lemma NeverMatches(s: string, p: string, k: nat)
    requires k < |p| && p[k] !in s
    ensures Find(s, p) == None
  {
    var r := Find(s, p);
    if r.Some? {
      Mismatch(s, p, r.value, k);
      FindIsFirst(s, p, 0);
    }
  }

  /** Every non-overlapping occurrence of `p`, from the left, replaced by `r`. */
  function Replace(s: string, p: string, r: string): (out: string)
    requires p != ""
    decreases |s|
  {
    if s == "" then ""
    else if p <= s then r + Replace(s[|p|..], p, r)
    else [s[0]] + Replace(s[1..], p, r)
  }

  /** Characters that cannot start the pattern are copied. */
  lemma {:induction false} ReplaceSkip(a: string, b: string, p: string, r: string)
    requires p != "" && p[0] !in a
    ensures Replace(a + b, p, r) == a + Replace(b, p, r)
  {
    if a == "" {
      assert a + b == b;
    } else {
      assert (a + b)[1..] == a[1..] + b;
      ReplaceSkip(a[1..], b, p, r);
      assert a + Replace(b, p, r) == [a[0]] + (a[1..] + Replace(b, p, r));
    }
  }

  lemma ReplaceHit(p: string, rest: string, r: string)
    requires p != ""
    ensures Replace(p + rest, p, r) == r + Replace(rest, p, r)
  {
    assert (p + rest)[|p|..] == rest;
  }

  /** Text that does not match and cannot match inside is copied. */
  lemma ReplaceMiss(e: string, rest: string, p: string, r: string)
    requires p != "" && e != "" && !(p <= e + rest) && p[0] !in e[1..]
    ensures Replace(e + rest, p, r) == e + Replace(rest, p, r)
  {
    assert (e + rest)[1..] == e[1..] + rest;
    ReplaceSkip(e[1..], rest, p, r);
    assert e + Replace(rest, p, r) == [e[0]] + (e[1..] + Replace(rest, p, r));
  }

  function Split(s: string, sep: char): (r: seq<string>)
    ensures |r| > 0
  {
    if s == "" then [""]
    else if s[0] == sep then [""] + Split(s[1..], sep)
    else
      var rest := Split(s[1..], sep);
      [[s[0]] + rest[0]] + rest[1..]
  }

  lemma {:induction false} SplitFirst(a: string, sep: char, b: string)
    requires sep !in a
    ensures Split(a + [sep] + b, sep) == [a] + Split(b, sep)
  {
    if a == "" {
      assert a + [sep] + b == [sep] + b;
    } else {
      assert (a + [sep] + b)[1..] == a[1..] + [sep] + b;
      SplitFirst(a[1..], sep, b);
      assert a == [a[0]] + a[1..];
    }
  }

  lemma {:induction false} SplitNone(a: string, sep: char)
    requires sep !in a
    ensures Split(a, sep) == [a]
  {
    if a != "" {
      SplitNone(a[1..], sep);
      assert a == [a[0]] + a[1..];
    }
  }

  // ---- Decimal and hexadecimal numerals ----

  function Digit(n: nat): (c: char)
    requires n < 10
  {
    "0123456789"[n]
  }

  predicate IsDigit(c: char) { '0' <= c <= '9' }

  /** `Display` of an unsigned integer. */
  function Decimal(n: nat): (s: string)
    ensures s != "" && forall c :: c in s ==> IsDigit(c)
  {
    if n < 10 then [Digit(n)] else Decimal(n / 10) + [Digit(n % 10)]
  }

  function DigitsValue(s: string): (n: nat)
    requires forall c :: c in s ==> IsDigit(c)
  {
    if s == "" then 0
    else
      assert IsDigit(s[|s| - 1]);
      DigitsValue(s[..|s| - 1]) * 10 + (s[|s| - 1] as int - '0' as int)
  }

  /** `parse::<u8>()`: an optional plus sign, at least one digit, and no overflow. */
  function ParseU8(s: string): (r: Option<byte>) {
    var digits := if s != "" && s[0] == '+' then s[1..] else s;
    if digits == "" || exists c :: c in digits && !IsDigit(c) then None
    else
      var n := DigitsValue(digits);
      if n > 255 then None else Some(n)
  }

  lemma {:induction false} DecimalValue(n: nat)
    ensures DigitsValue(Decimal(n)) == n
  {
    var s := Decimal(n);
    if n < 10 {
      assert s[..0] == "";
    } else {
      assert s[..|s| - 1] == Decimal(n / 10);
      DecimalValue(n / 10);
    }
  }

  lemma ParseDecimal(n: byte)
    ensures ParseU8(Decimal(n)) == Some(n)
  {
    DecimalValue(n);
    assert IsDigit(Decimal(n)[0]);
  }

  function HexDigit(n: nat): (c: char)
    requires n < 16
    ensures IsDigit(c) || 'a' <= c <= 'f'
  {
    "0123456789abcdef"[n]
  }

  function HexValue(c: char): (r: Option<nat>)
    ensures r.Some? ==> r.value < 16
  {
    if '0' <= c <= '9' then Some(c as int - '0' as int)
    else if 'a' <= c <= 'f' then Some(c as int - 'a' as int + 10)
    else if 'A' <= c <= 'F' then Some(c as int - 'A' as int + 10)
    else None
  }

  function HexEncode(data: Octets): (s: string)
    ensures forall c :: c in s ==> IsDigit(c) || 'a' <= c <= 'f'
  {
    if data == [] then "" else [HexDigit(data[0] / 16), HexDigit(data[0] % 16)] + HexEncode(data[1..])
  }

  function HexDecode(s: string): (r: Option<Octets>) {
    if s == "" then Some([])
    else if |s| == 1 then None
    else
      var high, low, rest := HexValue(s[0]), HexValue(s[1]), HexDecode(s[2..]);
      if high.None? || low.None? || rest.None? then None
      else Some([high.value * 16 + low.value] + rest.value)
  }

  lemma HexDigitValue(n: nat)
    requires n < 16
    ensures HexValue(HexDigit(n)) == Some(n)
  {
  }

  lemma HexDecodePair(high: char, low: char, rest: string)
    requires HexValue(high).Some? && HexValue(low).Some? && HexDecode(rest).Some?
    ensures HexDecode([high, low] + rest) ==
            Some([HexValue(high).value * 16 + HexValue(low).value] + HexDecode(rest).value)
  {
    assert ([high, low] + rest)[2..] == rest;
  }

  lemma {:induction false} HexRoundTrip(data: Octets)
    ensures HexDecode(HexEncode(data)) == Some(data)
  {
    if data != [] {
      HexDigitValue(data[0] / 16);
      HexDigitValue(data[0] % 16);
      HexRoundTrip(data[1..]);
      HexDecodePair(HexDigit(data[0] / 16), HexDigit(data[0] % 16), HexEncode(data[1..]));
      hide HexDigit, HexValue, HexDecode;
      assert data == [data[0]] + data[1..];
    }
  }

  /** The text without its spaces and colons. */
  function StripSeparators(s: string): (r: string) {
    if s == "" then "" else (if s[0] == ' ' || s[0] == ':' then "" else [s[0]]) + StripSeparators(s[1..])
  }

  lemma {:induction false} StripNothing(s: string)
    requires ' ' !in s && ':' !in s
    ensures StripSeparators(s) == s
  {
    if s != "" {
      assert s[0] in s;
      StripNothing(s[1..]);
      assert s == [s[0]] + s[1..];
    }
  }

  /** `SecurityKey::from_hex`. */
  function KeyFromHex(s: string): (r: Option<Octets>) {
    HexDecode(StripSeparators(s))
  }

  lemma KeyHexRoundTrip(key: Octets)
    ensures KeyFromHex(HexEncode(key)) == Some(key)
  {
    StripNothing(HexEncode(key));
    HexRoundTrip(key);
  }
}
