/** Octets, big-endian integers and bytewise XOR: the vocabulary shared by every codec of the crate. */
module Bytes {

  type byte = x: int | 0 <= x < 256

  type u16 = x: int | 0 <= x < 0x1_0000

  type Octets = seq<byte>

  datatype Option<+T> = None | Some(value: T)

  datatype Result<+T, +E> = Ok(value: T) | Err(error: E) {
    predicate IsFailure() { Err? }
    function PropagateFailure<U>(): Result<U, E>
      requires Err?
    {
      Err(error)
    }
    function Extract(): T
      requires Ok?
    {
      value
    }
  }

  /** Rust's `(n as u16).to_be_bytes()`: the two low octets, high one first. */
  function U16Bytes(n: nat): (r: Octets)
    ensures |r| == 2
  {
    [(n / 256) % 256, n % 256]
  }

  function U16From(high: byte, low: byte): (n: u16) {
    high * 256 + low
  }

  lemma U16Back(high: byte, low: byte)
    ensures U16Bytes(U16From(high, low)) == [high, low]
  {
  }

  lemma U16RoundTrip(n: nat)
    ensures U16From(U16Bytes(n)[0], U16Bytes(n)[1]) == n % 0x1_0000
  {
    SplitMod(n, 256);
  }

  function Pow256(n: nat): (p: nat)
    ensures p > 0
  {
    if n == 0 then 1 else 256 * Pow256(n - 1)
  }

  /** The `len` low octets of `n`, most significant first. */
  function ToBe(n: nat, len: nat): (r: Octets)
    ensures |r| == len
  {
    if len == 0 then [] else ToBe(n / 256, len - 1) + [n % 256]
  }

  function FromBe(s: Octets): (n: nat) {
    if s == [] then 0 else FromBe(s[..|s| - 1]) * 256 + s[|s| - 1]
  }

  /** Reading back a big-endian number yields it modulo the width of the field. */
  lemma {:induction false} ToBeFromBe(n: nat, len: nat)
    ensures FromBe(ToBe(n, len)) == n % Pow256(len)
  {
    if len > 0 {
      var s := ToBe(n, len);
      assert s[..len - 1] == ToBe(n / 256, len - 1);
      ToBeFromBe(n / 256, len - 1);
      SplitMod(n, Pow256(len - 1));
    }
  }

  /** The octet at each position: the most significant one comes first. */
  lemma {:induction false} ToBeAt(n: nat, len: nat, i: nat)
    requires i < len
    ensures ToBe(n, len)[i] == (n / Pow256(len - 1 - i)) % 256
  {
    if i < len - 1 {
      ToBeAt(n / 256, len - 1, i);
      DivDiv(n, 256, Pow256(len - 2 - i));
    }
  }

  /** Numbers that fit the field have different octets. */
  lemma ToBeDiffers(n: nat, m: nat, len: nat)
    requires n < Pow256(len) && m < Pow256(len)
    ensures ToBe(n, len) == ToBe(m, len) <==> n == m
  {
    hide ToBe, Pow256;
    ToBeFromBe(n, len);
    ToBeFromBe(m, len);
    SmallMod(n, Pow256(len));
    SmallMod(m, Pow256(len));
  }

  /** A 16-bit field is a big-endian number of two octets. */
  lemma U16IsBigEndian(n: nat, high: byte, low: byte)
    ensures U16Bytes(n) == ToBe(n, 2) && U16From(high, low) == FromBe([high, low])
  {
    assert ToBe(n, 2) == ToBe(n / 256, 1) + [n % 256];
    assert ToBe(n / 256, 1) == ToBe(n / 256 / 256, 0) + [(n / 256) % 256];
    assert [high, low][..1] == [high] && [high][..0] == [];
    assert FromBe([high, low]) == FromBe([high]) * 256 + low;
  }

  lemma SmallMod(n: nat, m: nat)
    requires n < m
    ensures n % m == n
  {
  }

  lemma DivDiv(n: nat, d: nat, p: nat)
    requires d > 0 && p > 0
    ensures d * p > 0 && n / (d * p) == (n / d) / p
  {
    var q := n / d;
    DivParts(n, d);
    DivParts(q, p);
    Recombine(d, p, q, q / p, q % p, n % d);
    QuotientUnique(n, d * p, q / p, d * (q % p) + n % d);
  }

  lemma DivParts(n: nat, m: nat)
    requires m > 0
    ensures n == m * (n / m) + n % m && n % m < m
  {
  }

  lemma Recombine(d: nat, p: nat, q: nat, k: nat, r: nat, s: nat)
    requires q == p * k + r && r < p && s < d
    ensures d * q + s == (d * p) * k + (d * r + s) && d * r + s < d * p
  {
    Distribute(d, p * k, r);
    Regroup(d, p, k);
    Distribute(d, r, 1);
    MulMono(d, r + 1, p);
  }

  lemma Regroup(a: nat, b: nat, c: nat)
    ensures a * (b * c) == (a * b) * c
  {
  }

  lemma Distribute(d: nat, a: nat, b: nat)
    ensures d * (a + b) == d * a + d * b
  {
  }

  lemma QuotientUnique(n: nat, m: nat, k: int, r: nat)
    requires m > 0 && n == m * k + r && r < m
    ensures n / m == k
  {
    ModUnique(n, m, k, r);
    var d := k - n / m;
    assert m * d == 0 by {
      assert m * d == m * k - m * (n / m);
    }
    if d >= 1 {
      MulMono(m, 1, d);
    } else if d <= -1 {
      MulMono(m, d, -1);
    }
  }

  /** Octets are recovered from the big-endian number they stand for. */
  lemma {:induction false} FromBeToBe(s: Octets)
    ensures ToBe(FromBe(s), |s|) == s
  {
    if s != [] {
      FromBeToBe(s[..|s| - 1]);
      assert s == s[..|s| - 1] + [s[|s| - 1]];
    }
  }

  lemma SplitMod(n: nat, p: nat)
    requires p > 0
    ensures ((n / 256) % p) * 256 + n % 256 == n % (256 * p)
  {
    var q := n / 256;
    var k := q / p;
    assert q == k * p + q % p;
    assert n == (256 * p) * k + (q % p * 256 + n % 256) by {
      assert n == 256 * q + n % 256;
      assert 256 * (k * p) == (256 * p) * k;
    }
    ModUnique(n, 256 * p, k, q % p * 256 + n % 256);
  }

  lemma ModUnique(n: nat, m: nat, k: int, r: nat)
    requires m > 0 && n == m * k + r && r < m
    ensures n % m == r
  {
    var d := k - n / m;
    assert m * d == n % m - r by {
      assert m * d == m * k - m * (n / m);
    }
    if d >= 1 {
      MulMono(m, 1, d);
    } else if d <= -1 {
      MulMono(m, d, -1);
    }
  }

  lemma MulMono(m: nat, a: int, b: int)
    requires a <= b
    ensures m * a <= m * b
  {
  }

  lemma Pow256Six()
    ensures Pow256(6) == 0x1_0000_0000_0000
  {
    assert Pow256(2) == 0x1_0000;
    assert Pow256(4) == 0x1_0000_0000;
  }

  /** Exclusive or of the `n` low bits. */
  function XorBits(a: nat, b: nat, n: nat): (r: nat) {
    if n == 0 then 0 else 2 * XorBits(a / 2, b / 2, n - 1) + (if a % 2 == b % 2 then 0 else 1)
  }

  /** Inclusive or of the `n` low bits. */
  function OrBits(a: nat, b: nat, n: nat): (r: nat)
    ensures r < Pow2(n)
    ensures b == 0 && a < Pow2(n) ==> r == a
  {
    if n == 0 then 0 else 2 * OrBits(a / 2, b / 2, n - 1) + (if a % 2 == 1 || b % 2 == 1 then 1 else 0)
  }

  function Pow2(n: nat): (p: nat)
    ensures p > 0
  {
    if n == 0 then 1 else 2 * Pow2(n - 1)
  }

  lemma {:induction false} XorBitsLaws(a: nat, b: nat, n: nat)
    requires a < Pow2(n)
    ensures XorBits(a, b, n) < Pow2(n)
    ensures XorBits(a, b, n) == XorBits(b, a, n)
    ensures XorBits(XorBits(a, b, n), b, n) == a
  {
    if n > 0 {
      XorBitsLaws(a / 2, b / 2, n - 1);
      var high := XorBits(a / 2, b / 2, n - 1);
      var x := XorBits(a, b, n);
      HalfAndBit(x, high, if a % 2 == b % 2 then 0 else 1);
    }
  }

  lemma HalfAndBit(x: nat, high: nat, bit: nat)
    requires x == 2 * high + bit && bit < 2
    ensures x / 2 == high && x % 2 == bit
  {
  }

  /** Rust's `a ^ b` on `u8`. */
  function XorByte(a: byte, b: byte): (r: byte) {
    XorBitsLaws(a, b, 8);
    assert Pow2(8) == 256 by { assert Pow2(4) == 16; }
    XorBits(a, b, 8)
  }

  lemma XorByteLaws(a: byte, b: byte)
    ensures XorByte(a, b) == XorByte(b, a)
    ensures XorByte(XorByte(a, b), b) == a
  {
    assert Pow2(8) == 256 by { assert Pow2(4) == 16; }
    XorBitsLaws(a, b, 8);
  }

  /** Bit `j` of a number. */
  predicate BitAt(a: nat, j: nat) {
    (a / Pow2(j)) % 2 == 1
  }

  lemma BitOfHalf(a: nat, j: nat)
    requires j > 0
    ensures BitAt(a, j) == BitAt(a / 2, j - 1)
  {
    DivDiv(a, 2, Pow2(j - 1));
  }

  /** The bits of two numbers joined, the upper one above `k` bits of the lower. */
  lemma {:induction false} BitsJoined(high: nat, low: nat, k: nat, j: nat)
    requires low < Pow2(k)
    ensures BitAt(high * Pow2(k) + low, j) <==> if j < k then BitAt(low, j) else BitAt(high, j - k)
    decreases k
  {
    if k > 0 {
      var x := high * Pow2(k) + low;
      JoinedHalf(high, low, Pow2(k - 1));
      if j > 0 {
        BitsJoined(high, low / 2, k - 1, j - 1);
        BitOfHalf(x, j);
        BitOfHalf(low, j);
      } else {
        LowestBit(x);
        LowestBit(low);
      }
    }
  }

  lemma JoinedHalf(high: nat, low: nat, p: nat)
    requires low < 2 * p
    ensures var x := high * (2 * p) + low; x / 2 == high * p + low / 2 && x % 2 == low % 2 && low / 2 < p
  {
    assert high * (2 * p) == 2 * (high * p);
  }

  lemma XorBitsStep(a: nat, b: nat, n: nat)
    requires n > 0
    ensures var x := XorBits(a, b, n);
            x / 2 == XorBits(a / 2, b / 2, n - 1) && (x % 2 == 1 <==> a % 2 != b % 2)
  {
  }

  lemma OrBitsStep(a: nat, b: nat, n: nat)
    requires n > 0
    ensures var x := OrBits(a, b, n);
            x / 2 == OrBits(a / 2, b / 2, n - 1) && (x % 2 == 1 <==> a % 2 == 1 || b % 2 == 1)
  {
    hide Pow2;
  }

  lemma LowestBit(a: nat)
    ensures BitAt(a, 0) <==> a % 2 == 1
  {
  }

  lemma {:induction false} XorBitsAt(a: nat, b: nat, n: nat, j: nat)
    requires j < n
    ensures BitAt(XorBits(a, b, n), j) <==> BitAt(a, j) != BitAt(b, j)
  {
    hide BitAt, XorBits, Pow2;
    var x := XorBits(a, b, n);
    XorBitsStep(a, b, n);
    if j == 0 {
      LowestBit(a);
      LowestBit(b);
      LowestBit(x);
    } else {
      XorBitsAt(a / 2, b / 2, n - 1, j - 1);
      BitOfHalf(a, j);
      BitOfHalf(b, j);
      BitOfHalf(x, j);
    }
  }

  lemma {:induction false} OrBitsAt(a: nat, b: nat, n: nat, j: nat)
    requires j < n
    ensures BitAt(OrBits(a, b, n), j) <==> BitAt(a, j) || BitAt(b, j)
  {
    hide BitAt, OrBits, Pow2;
    var x := OrBits(a, b, n);
    OrBitsStep(a, b, n);
    if j == 0 {
      LowestBit(a);
      LowestBit(b);
      LowestBit(x);
    } else {
      OrBitsAt(a / 2, b / 2, n - 1, j - 1);
      BitOfHalf(a, j);
      BitOfHalf(b, j);
      BitOfHalf(x, j);
    }
  }

  /** Exclusive or, bit by bit. */
  lemma XorByteAt(a: byte, b: byte, j: nat)
    requires j < 8
    ensures BitAt(XorByte(a, b), j) <==> BitAt(a, j) != BitAt(b, j)
  {
    XorBitsAt(a, b, 8, j);
  }

  /** Bytewise XOR of two octet strings of one length. */
  function XorOctets(a: Octets, b: Octets): (r: Octets)
    requires |a| == |b|
    ensures |r| == |a|
    ensures forall i :: 0 <= i < |a| ==> r[i] == XorByte(a[i], b[i])
  {
    if a == [] then [] else XorOctets(a[..|a| - 1], b[..|b| - 1]) + [XorByte(a[|a| - 1], b[|b| - 1])]
  }

  /** XOR commutes, and XORing twice with the same string restores the first one. */
  lemma XorOctetsLaws(a: Octets, b: Octets)
    requires |a| == |b|
    ensures XorOctets(a, b) == XorOctets(b, a)
    ensures XorOctets(XorOctets(a, b), b) == a
  {
    forall i | 0 <= i < |a|
      ensures XorByte(a[i], b[i]) == XorByte(b[i], a[i]) && XorByte(XorByte(a[i], b[i]), b[i]) == a[i]
    {
      XorByteLaws(a[i], b[i]);
    }
  }

  function Zeros(n: nat): (r: Octets)
    ensures |r| == n && forall i :: 0 <= i < n ==> r[i] == 0
  {
    seq(n, _ => 0)
  }
}
