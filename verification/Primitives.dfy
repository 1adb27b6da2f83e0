/**
  * The cryptographic building blocks of KNX Secure.
  *
  * AES-128, SHA-256, PBKDF2 and X25519 are foreign crates: they are the function values of a `Suite`, and
  * everything the crate itself does with them (padding, CBC chaining, counter blocks, keystream positions)
  * is written out.
  */
module Primitives {
  import opened Bytes

  type Block = b: Octets | |b| == 16 witness Zeros(16)

  type Point = p: Octets | |p| == 32 witness Zeros(32)

  datatype Suite = Suite(
    aes: (Block, Block) -> Block,
    sha256: Octets -> Point,
    deviceKdf: string -> Block,
    userKdf: string -> Block,
    publicOf: Point -> Point,
    exchange: (Point, Point) -> Point)

  /** Section 6.1 of RFC 7748: both parties compute the same shared secret. */
  ghost predicate DiffieHellman(s: Suite) {
    forall a, b :: s.exchange(a, s.publicOf(b)) == s.exchange(b, s.publicOf(a))
  }

  datatype CryptoError = BadKeyLength | BadBlockLength | BadCounterLength

  /** Zero padding up to the next multiple of the block size: aligned, nothing lost, and no longer than needed. */
  function BytePad(data: Octets, blockSize: nat): (r: Octets)
    requires blockSize > 0
    ensures |r| % blockSize == 0
    ensures |data| <= |r| < |data| + blockSize
    ensures data <= r
    ensures forall i :: |data| <= i < |r| ==> r[i] == 0
  {
    var remainder := |data| % blockSize;
    if remainder == 0 then data
    else
      PadLength(|data|, blockSize);
      data + Zeros(blockSize - remainder)
  }

  lemma PadLength(n: nat, m: nat)
    requires m > 0
    ensures (n + m - n % m) % m == 0
  {
    var q := n / m + 1;
    assert n + m - n % m == m * q + 0 by {
      assert m * q == m * (n / m) + m;
    }
    ModUnique(n + m - n % m, m, q, 0);
  }

  // ---- CBC-MAC ----

  /** The CBC chaining value after absorbing `data`, block by block, from chaining value `y`. */
  function CbcMac(s: Suite, key: Block, y: Block, data: Octets): (r: Block)
    requires |data| % 16 == 0
    decreases |data|
  {
    if data == [] then y
    else CbcMac(s, key, s.aes(key, XorOctets(y, data[..16])), data[16..])
  }

  /** Absorbing a concatenation is absorbing its parts in turn. */
  lemma {:induction false} CbcMacAppend(s: Suite, key: Block, y: Block, a: Octets, b: Octets)
    requires |a| % 16 == 0 && |b| % 16 == 0
    ensures CbcMac(s, key, y, a + b) == CbcMac(s, key, CbcMac(s, key, y, a), b)
    decreases |a|
  {
    if a == [] {
      assert a + b == b;
    } else {
      assert (a + b)[..16] == a[..16];
      assert (a + b)[16..] == a[16..] + b;
      CbcMacAppend(s, key, s.aes(key, XorOctets(y, a[..16])), a[16..], b);
    }
  }

  lemma CbcMacBlock(s: Suite, key: Block, y: Block, data: Octets, pos: nat)
    requires pos % 16 == 0 && pos + 16 <= |data|
    ensures CbcMac(s, key, y, data[..pos + 16]) ==
            s.aes(key, XorOctets(CbcMac(s, key, y, data[..pos]), data[pos..pos + 16]))
  {
    var chunk := data[pos..pos + 16];
    assert data[..pos + 16] == data[..pos] + chunk;
    CbcMacAppend(s, key, y, data[..pos], chunk);
    assert chunk[..16] == chunk && chunk[16..] == [];
  }

  lemma CbcMacNothing(s: Suite, key: Block, y: Block)
    ensures CbcMac(s, key, y, []) == y
  {
  }

  /** XOR a chunk into the chaining value in place. */
  method XorInto(y: array<byte>, chunk: Octets)
    requires y.Length == |chunk|
    modifies y
    ensures y[..] == XorOctets(old(y[..]), chunk)
  {
    for i := 0 to y.Length
      invariant forall j :: 0 <= j < i ==> y[j] == XorByte(old(y[j]), chunk[j])
      invariant forall j :: i <= j < y.Length ==> y[j] == old(y[j])
    {
      y[i] := XorByte(y[i], chunk[i]);
    }
  }

  method CopyInto(y: array<byte>, source: Octets)
    requires y.Length == |source|
    modifies y
    ensures y[..] == source
  {
    forall i | 0 <= i < y.Length {
      y[i] := source[i];
    }
  }

  /** What is authenticated: block 0, the length of the additional data, the additional data, the payload. */
  function MacInput(additional: Octets, payload: Octets, block0: Octets): (r: Octets) {
    block0 + U16Bytes(|additional|) + additional + payload
  }

  /** Every part of it stands at its offset. */
  lemma MacInputLayout(additional: Octets, payload: Octets, block0: Octets)
    requires |block0| == 16
    ensures var m, n := MacInput(additional, payload, block0), 18 + |additional|;
            && |m| == n + |payload|
            && m[..16] == block0 && U16From(m[16], m[17]) == |additional| % 0x1_0000
            && m[18..n] == additional && m[n..] == payload
  {
    U16RoundTrip(|additional|);
  }

  /** Below 2^16 octets of additional data, different parts are never authenticated by the same octets. */
  lemma MacInputDetermines(
    additional: Octets, payload: Octets, block0: Octets, additional': Octets, payload': Octets, block0': Octets)
    requires |block0| == |block0'| == 16 && |additional| < 0x1_0000 && |additional'| < 0x1_0000
    ensures MacInput(additional, payload, block0) == MacInput(additional', payload', block0')
            <==> additional == additional' && payload == payload' && block0 == block0'
  {
    hide MacInput;
    MacInputLayout(additional, payload, block0);
    MacInputLayout(additional', payload', block0');
  }

  /**
    * Nor, when block 0 ends with the length of the payload, by the same octets with their padding: what is chained
    * determines additional data, payload and block 0.
    */
  lemma ChainedDetermines(
    additional: Octets, payload: Octets, block0: Octets, additional': Octets, payload': Octets, block0': Octets)
    requires |block0| == |block0'| == 16 && |additional| < 0x1_0000 && |additional'| < 0x1_0000
    requires |payload| == U16From(block0[14], block0[15]) && |payload'| == U16From(block0'[14], block0'[15])
    ensures BytePad(MacInput(additional, payload, block0), 16) == BytePad(MacInput(additional', payload', block0'), 16)
            <==> additional == additional' && payload == payload' && block0 == block0'
  {
    hide MacInput, BytePad;
    var m, m' := MacInput(additional, payload, block0), MacInput(additional', payload', block0');
    MacInputLayout(additional, payload, block0);
    MacInputLayout(additional', payload', block0');
    var padded, padded' := BytePad(m, 16), BytePad(m', 16);
    if padded == padded' {
      assert padded[..|m|] == m && padded'[..|m'|] == m';
      SameFronts(padded, |m|, |m'|);
      MacInputDetermines(additional, payload, block0, additional', payload', block0');
    }
  }

  lemma SameFronts(padded: Octets, n: nat, n': nat)
    requires 18 <= n <= |padded| && 18 <= n' <= |padded|
    ensures padded[..n][..16] == padded[..n'][..16]
    ensures padded[..n][16] == padded[..n'][16] && padded[..n][17] == padded[..n'][17]
  {
  }

  function MacCbc(s: Suite, key: Octets, additional: Octets, payload: Octets, block0: Octets)
    : (r: Result<Octets, CryptoError>)
    ensures r.Ok? <==> |key| == 16 && |block0| == 16
    ensures r.Ok? ==> |r.value| == 16
  {
    if |key| != 16 then Err(BadKeyLength)
    else if |block0| != 16 then Err(BadBlockLength)
    else Ok(CbcMac(s, key, Zeros(16), BytePad(MacInput(additional, payload, block0), 16)))
  }

  /** The loop over 16-octet chunks, updating one block in place. */
  method ChainBlocks(s: Suite, key: Block, padded: Octets) returns (mac: Block)
    requires |padded| % 16 == 0
    ensures mac == CbcMac(s, key, Zeros(16), padded)
  {
    hide CbcMac, XorOctets;
    var y := new byte[16](_ => 0);
    var blocks := |padded| / 16;
    assert padded[..0] == [] && y[..] == Zeros(16);
    CbcMacNothing(s, key, Zeros(16));
    for k := 0 to blocks
      invariant y[..] == CbcMac(s, key, Zeros(16), padded[..16 * k])
    {
      CbcMacBlock(s, key, Zeros(16), padded, 16 * k);
      XorInto(y, padded[16 * k..16 * k + 16]);
      CopyInto(y, s.aes(key, y[..]));
    }
    assert padded[..16 * blocks] == padded;
    mac := y[..];
  }

  /** The in-place CBC loop computes the recursive CBC-MAC of the zero-padded input, or the same error. */
  method CalculateMacCbc(s: Suite, key: Octets, additional: Octets, payload: Octets, block0: Octets)
    returns (r: Result<Octets, CryptoError>)
    ensures r == MacCbc(s, key, additional, payload, block0)
  {
    if |key| != 16 {
      return Err(BadKeyLength);
    }
    if |block0| != 16 {
      return Err(BadBlockLength);
    }
    var mac := ChainBlocks(s, key, BytePad(MacInput(additional, payload, block0), 16));
    return Ok(mac);
  }

  /** The octet at a position of the padded text: block 0, the length of the additional data, the data, zeros. */
  function MacOctet(additional: Octets, payload: Octets, block0: Block, i: nat): (b: byte) {
    var n := 18 + |additional|;
    if i < 16 then block0[i]
    else if i == 16 then (|additional| / 256) % 256
    else if i == 17 then |additional| % 256
    else if i < n then additional[i - 18]
    else if i < n + |payload| then payload[i - n]
    else 0
  }

  /** The chaining value after `k` blocks, octet by octet. */
  function Chained(s: Suite, key: Block, additional: Octets, payload: Octets, block0: Block, k: nat): (y: Block) {
    if k == 0 then Zeros(16)
    else
      var y := Chained(s, key, additional, payload, block0, k - 1);
      s.aes(key, seq(16, i requires 0 <= i < 16 =>
                           XorByte(y[i], MacOctet(additional, payload, block0, 16 * (k - 1) + i))))
  }

  lemma PaddedOctets(additional: Octets, payload: Octets, block0: Block)
    ensures var padded := BytePad(MacInput(additional, payload, block0), 16);
            && |padded| == 16 * ((33 + |additional| + |payload|) / 16)
            && forall i :: 0 <= i < |padded| ==> padded[i] == MacOctet(additional, payload, block0, i)
  {
    var m := MacInput(additional, payload, block0);
    var padded := BytePad(m, 16);
    forall i | 0 <= i < |padded|
      ensures padded[i] == MacOctet(additional, payload, block0, i)
    {
      if i < |m| {
        assert padded[i] == m[i];
      }
    }
  }

  lemma {:induction false} ChainedBlocks(
    s: Suite, key: Block, additional: Octets, payload: Octets, block0: Block, padded: Octets, k: nat)
    requires |padded| % 16 == 0 && 16 * k <= |padded|
    requires forall i :: 0 <= i < |padded| ==> padded[i] == MacOctet(additional, payload, block0, i)
    ensures CbcMac(s, key, Zeros(16), padded[..16 * k]) == Chained(s, key, additional, payload, block0, k)
  {
    hide MacOctet, CbcMac, XorByte;
    if k == 0 {
      CbcMacNothing(s, key, Zeros(16));
      assert padded[..0] == [];
    } else {
      var pos := 16 * (k - 1);
      ChainedBlocks(s, key, additional, payload, block0, padded, k - 1);
      CbcMacBlock(s, key, Zeros(16), padded, pos);
      var y := Chained(s, key, additional, payload, block0, k - 1);
      assert XorOctets(y, padded[pos..pos + 16]) ==
             seq(16, i requires 0 <= i < 16 => XorByte(y[i], MacOctet(additional, payload, block0, pos + i)));
    }
  }

  /** The MAC, from its definition on octets: every octet of every part is chained in, at its place. */
  lemma MacIsChained(s: Suite, key: Octets, additional: Octets, payload: Octets, block0: Octets)
    ensures |key| != 16 ==> MacCbc(s, key, additional, payload, block0) == Err(BadKeyLength)
    ensures |key| == 16 && |block0| != 16 ==> MacCbc(s, key, additional, payload, block0) == Err(BadBlockLength)
    ensures |key| == 16 && |block0| == 16 ==>
              MacCbc(s, key, additional, payload, block0)
              == Ok(Chained(s, key, additional, payload, block0, (33 + |additional| + |payload|) / 16))
  {
    hide BytePad, MacInput, MacOctet, Chained, CbcMac;
    if |key| == 16 && |block0| == 16 {
      var padded := BytePad(MacInput(additional, payload, block0), 16);
      PaddedOctets(additional, payload, block0);
      ChainedBlocks(s, key, additional, payload, block0, padded, (33 + |additional| + |payload|) / 16);
      assert padded[..|padded|] == padded;
    }
  }

  // ---- CTR mode ----

  /** The big-endian 128-bit counter block `k` steps after `counter0`, wrapping. */
  function CounterBlock(counter0: Block, k: nat): (r: Block) {
    ToBe(FromBe(counter0) + k, 16)
  }

  /** The counter is the 128-bit number that many steps on, and the blocks of one run of the counter all differ. */
  lemma CounterCounts(counter0: Block, k: nat, j: nat)
    ensures FromBe(CounterBlock(counter0, k)) == (FromBe(counter0) + k) % Pow256(16)
    ensures CounterBlock(counter0, 0) == counter0
    ensures k < j < k + Pow256(16) ==> CounterBlock(counter0, k) != CounterBlock(counter0, j)
  {
    hide ToBe, FromBe, Pow256;
    var c, p := FromBe(counter0), Pow256(16);
    ToBeFromBe(c + k, 16);
    ToBeFromBe(c + j, 16);
    FromBeToBe(counter0);
    if k < j < k + p {
      RemaindersDiffer(c + k, c + j, p);
    }
  }

  lemma RemaindersDiffer(a: nat, b: nat, p: nat)
    requires a < b < a + p
    ensures a % p != b % p
  {
    var k, m := a / p, b / p;
    assert a == p * k + a % p && b == p * m + b % p;
    if a % p == b % p {
      var d := m - k;
      assert p * d == b - a by {
        assert p * d == p * m - p * k;
      }
      if d >= 1 {
        MulMono(p, 1, d);
      } else {
        MulMono(p, d, 0);
      }
    }
  }

  function KeystreamByte(s: Suite, key: Block, counter0: Block, p: nat): (r: byte) {
    s.aes(key, CounterBlock(counter0, p / 16))[p % 16]
  }

  /** `data` XORed with the keystream from position `p` on. */
  function CtrXor(s: Suite, key: Block, counter0: Block, p: nat, data: Octets): (r: Octets)
    ensures |r| == |data|
    ensures forall i :: 0 <= i < |data| ==> r[i] == XorByte(data[i], KeystreamByte(s, key, counter0, p + i))
  {
    seq(|data|, i requires 0 <= i < |data| => XorByte(data[i], KeystreamByte(s, key, counter0, p + i)))
  }

  /** The stream cipher is its own inverse at every keystream position. */
  lemma CtrXorTwice(s: Suite, key: Block, counter0: Block, p: nat, data: Octets)
    ensures CtrXor(s, key, counter0, p, CtrXor(s, key, counter0, p, data)) == data
  {
    var once := CtrXor(s, key, counter0, p, data);
    forall i | 0 <= i < |data|
      ensures CtrXor(s, key, counter0, p, once)[i] == data[i]
    {
      XorByteLaws(data[i], KeystreamByte(s, key, counter0, p + i));
    }
  }

  /** A CTR stream cipher that remembers how much keystream it has used. */
  class CtrCipher {
    const suite: Suite
    const key: Block
    const counter0: Block
    var used: nat

    constructor (suite: Suite, key: Block, counter0: Block)
      ensures this.suite == suite && this.key == key && this.counter0 == counter0 && used == 0
    {
      this.suite := suite;
      this.key := key;
      this.counter0 := counter0;
      used := 0;
    }

    method ApplyKeystream(buf: array<byte>)
      modifies this, buf
      ensures buf[..] == CtrXor(suite, key, counter0, old(used), old(buf[..]))
      ensures used == old(used) + buf.Length
    {
      for i := 0 to buf.Length
        invariant used == old(used) + i
        invariant forall j :: 0 <= j < i ==>
          buf[j] == XorByte(old(buf[j]), KeystreamByte(suite, key, counter0, old(used) + j))
        invariant forall j :: i <= j < buf.Length ==> buf[j] == old(buf[j])
      {
        buf[i] := XorByte(buf[i], KeystreamByte(suite, key, counter0, used));
        used := used + 1;
      }
    }
  }

  /** (payload, mac) after CTR mode, the MAC taking the first part of the keystream. */
  function Ctr(s: Suite, key: Octets, counter0: Octets, mac: Octets, payload: Octets)
    : (r: Result<(Octets, Octets), CryptoError>)
  {
    if |key| != 16 then Err(BadKeyLength)
    else if |counter0| != 16 then Err(BadCounterLength)
    else Ok((CtrXor(s, key, counter0, |mac|, payload), CtrXor(s, key, counter0, 0, mac)))
  }

  /**
    * Octet by octet: one keystream runs through the MAC and then through the payload, each octet of it the octet of
    * the encrypted counter block at its position.
    */
  lemma CtrOctets(s: Suite, key: Octets, counter0: Octets, mac: Octets, payload: Octets)
    ensures |key| != 16 ==> Ctr(s, key, counter0, mac, payload) == Err(BadKeyLength)
    ensures |key| == 16 && |counter0| != 16 ==> Ctr(s, key, counter0, mac, payload) == Err(BadCounterLength)
    ensures |key| == 16 && |counter0| == 16 ==>
              var r := Ctr(s, key, counter0, mac, payload);
              && r.Ok? && |r.value.0| == |payload| && |r.value.1| == |mac|
              && (forall i :: 0 <= i < |mac| ==>
                    r.value.1[i] == XorByte(mac[i], s.aes(key, CounterBlock(counter0, i / 16))[i % 16]))
              && (forall i :: 0 <= i < |payload| ==>
                    r.value.0[i] == XorByte(payload[i],
                                            s.aes(key, CounterBlock(counter0, (|mac| + i) / 16))[(|mac| + i) % 16]))
  {
    hide XorByte, CounterBlock;
  }

  /** Octet `i` is masked with octet `i % 16` of the encryption of counter block `first + i / 16`. */
  predicate MaskedBy(s: Suite, key: Block, counter0: Block, first: nat, text: Octets, masked: Octets) {
    && |masked| == |text|
    && forall i :: 0 <= i < |text| ==>
         masked[i] == XorByte(text[i], s.aes(key, CounterBlock(counter0, first + i / 16))[i % 16])
  }

  /** With a MAC of one block, the MAC takes the first counter block and the payload starts with the second. */
  lemma CtrBlocks(s: Suite, key: Block, counter0: Block, mac: Octets, payload: Octets)
    requires |mac| == 16
    ensures var r := Ctr(s, key, counter0, mac, payload);
            && r.Ok? && |r.value.0| == |payload| && |r.value.1| == 16
            && MaskedBy(s, key, counter0, 0, mac, r.value.1) && MaskedBy(s, key, counter0, 1, payload, r.value.0)
  {
    hide XorByte, CounterBlock, Ctr;
    CtrOctets(s, key, counter0, mac, payload);
    var x := Ctr(s, key, counter0, mac, payload).value.0;
    forall i | 0 <= i < |payload|
      ensures x[i] == XorByte(payload[i], s.aes(key, CounterBlock(counter0, 1 + i / 16))[i % 16])
    {
      assert (16 + i) / 16 == 1 + i / 16 && (16 + i) % 16 == i % 16;
    }
  }

  /** Both `encrypt_ctr` and `decrypt_ctr`: one cipher object run over a copy of the MAC, then of the payload. */
  method RunCtr(s: Suite, key: Octets, counter0: Octets, mac: Octets, payload: Octets)
    returns (r: Result<(Octets, Octets), CryptoError>)
    ensures r == Ctr(s, key, counter0, mac, payload)
  {
    if |key| != 16 {
      return Err(BadKeyLength);
    }
    if |counter0| != 16 {
      return Err(BadCounterLength);
    }
    var cipher := new CtrCipher(s, key, counter0);
    var macBuf := new byte[|mac|](i requires 0 <= i < |mac| => mac[i]);
    var payloadBuf := new byte[|payload|](i requires 0 <= i < |payload| => payload[i]);
    assert macBuf[..] == mac && payloadBuf[..] == payload;
    cipher.ApplyKeystream(macBuf);
    cipher.ApplyKeystream(payloadBuf);
    return Ok((payloadBuf[..], macBuf[..]));
  }

  /** Decryption restores exactly the payload and the MAC that were encrypted, whatever the MAC's length. */
  lemma CtrRoundTrip(s: Suite, key: Octets, counter0: Octets, mac: Octets, payload: Octets)
    requires |key| == 16 && |counter0| == 16
    ensures var sealed := Ctr(s, key, counter0, mac, payload).value;
            && |sealed.0| == |payload| && |sealed.1| == |mac|
            && Ctr(s, key, counter0, sealed.1, sealed.0) == Ok((payload, mac))
  {
    CtrXorTwice(s, key, counter0, |mac|, payload);
    CtrXorTwice(s, key, counter0, 0, mac);
  }
}
