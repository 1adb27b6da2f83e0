/** Data Secure group payloads, and the key ring that holds their keys and the senders' sequence numbers. */
module GroupSecurity {
  import opened Bytes
  import opened Primitives

  datatype GroupError = NoKey | TooShort | MacFailed | Crypto(cause: CryptoError)

  function Counter0(seqBytes: Octets): (r: Octets)
    requires |seqBytes| == 6
    ensures |r| == 16
  {
    [0x01] + seqBytes + Zeros(9)
  }

  function Block0(seqBytes: Octets, payloadLength: nat): (r: Octets)
    requires |seqBytes| == 6
    ensures |r| == 16
  {
    [0x49] + seqBytes + Zeros(7) + U16Bytes(payloadLength)
  }

  /** Both blocks, octet by octet: the flags, the number, zeros, and in block 0 the length of the payload. */
  lemma BlockOctets(seqBytes: Octets, payloadLength: nat)
    requires |seqBytes| == 6
    ensures var c := Counter0(seqBytes);
            c[0] == 0x01 && c[1..7] == seqBytes && c[7..] == [0, 0, 0, 0, 0, 0, 0, 0, 0]
    ensures var b := Block0(seqBytes, payloadLength);
            && b[0] == 0x49 && b[1..7] == seqBytes && b[7..14] == [0, 0, 0, 0, 0, 0, 0]
            && U16From(b[14], b[15]) == payloadLength % 0x1_0000
  {
    U16RoundTrip(payloadLength);
  }

  /** Different numbers of 48 bits never share a counter block or a block 0. */
  lemma BlocksDiffer(n: nat, m: nat, length: nat, length': nat)
    requires n < 0x1_0000_0000_0000 && m < 0x1_0000_0000_0000
    ensures Counter0(ToBe(n, 6)) == Counter0(ToBe(m, 6)) <==> n == m
    ensures Block0(ToBe(n, 6), length) == Block0(ToBe(m, 6), length')
            <==> n == m && length % 0x1_0000 == length' % 0x1_0000
  {
    hide ToBe, Counter0, Block0, U16From;
    Pow256Six();
    ToBeDiffers(n, m, 6);
    BlockOctets(ToBe(n, 6), length);
    BlockOctets(ToBe(m, 6), length');
    if n == m && length % 0x1_0000 == length' % 0x1_0000 {
      SameLengths(ToBe(n, 6), length, length');
    }
  }

  lemma SameLengths(seqBytes: Octets, length: nat, length': nat)
    requires |seqBytes| == 6 && length % 0x1_0000 == length' % 0x1_0000
    ensures Block0(seqBytes, length) == Block0(seqBytes, length')
  {
    U16RoundTrip(length);
    U16RoundTrip(length');
    U16Back(U16Bytes(length)[0], U16Bytes(length)[1]);
    U16Back(U16Bytes(length')[0], U16Bytes(length')[1]);
  }

  function GroupMac(s: Suite, key: Octets, seqBytes: Octets, payload: Octets): (r: Result<Octets, CryptoError>)
    requires |seqBytes| == 6
    ensures r.Ok? ==> |r.value| == 16
  {
    MacCbc(s, key, seqBytes, payload, Block0(seqBytes, |payload|))
  }

  /** `seq(6) | encrypted payload | first 4 octets of the encrypted MAC`. */
  function Encrypted(s: Suite, keys: map<u16, Octets>, destination: u16, payload: Octets, sequenceNumber: nat)
    : (r: Result<Octets, GroupError>)
  {
    if destination !in keys then Err(NoKey)
    else
      var seqBytes := ToBe(sequenceNumber, 6);
      var mac := GroupMac(s, keys[destination], seqBytes, payload);
      if mac.Err? then Err(Crypto(mac.error))
      else
        var sealed := Ctr(s, keys[destination], Counter0(seqBytes), mac.value, payload).value;
        Ok(seqBytes + sealed.0 + sealed.1[..4])
  }

  /** What a group MAC authenticates determines the number and the payload of less than 64 KiB. */
  lemma GroupTextDetermines(number: Octets, payload: Octets, number': Octets, payload': Octets)
    requires |number| == |number'| == 6 && |payload| < 0x1_0000 && |payload'| < 0x1_0000
    ensures BytePad(MacInput(number, payload, Block0(number, |payload|)), 16)
            == BytePad(MacInput(number', payload', Block0(number', |payload'|)), 16)
            <==> number == number' && payload == payload'
  {
    hide MacInput, BytePad, Block0, U16From;
    BlockOctets(number, |payload|);
    BlockOctets(number', |payload'|);
    ChainedDetermines(number, payload, Block0(number, |payload|), number', payload', Block0(number', |payload'|));
  }

  /**
    * Every octet of a secured payload: six of the number, the payload masked from the second counter block on, and the
    * first four of the masked MAC over number and payload.
    */
  lemma SecuredOctets(s: Suite, keys: map<u16, Octets>, destination: u16, payload: Octets, sequenceNumber: nat)
    requires destination in keys && |keys[destination]| == 16
    ensures var r := Encrypted(s, keys, destination, payload, sequenceNumber);
            var key, number := keys[destination], ToBe(sequenceNumber, 6);
            var mac := MacCbc(s, key, number, payload, Block0(number, |payload|));
            && r.Ok? && |r.value| == |payload| + 10 && mac.Ok?
            && FromBe(r.value[..6]) == sequenceNumber % 0x1_0000_0000_0000
            && MaskedBy(s, key, Counter0(number), 1, payload, r.value[6..|r.value| - 4])
            && MaskedBy(s, key, Counter0(number), 0, mac.value[..4], r.value[|r.value| - 4..])
  {
    hide MacCbc, Ctr, ToBe, FromBe, Counter0, Block0, MaskedBy;
    var key: Block, number := keys[destination], ToBe(sequenceNumber, 6);
    var mac := GroupMac(s, key, number, payload).value;
    ToBeFromBe(sequenceNumber, 6);
    Pow256Six();
    CtrBlocks(s, key, Counter0(number), mac, payload);
    var sealed := Ctr(s, key, Counter0(number), mac, payload).value;
    ThreeParts(number, sealed.0, sealed.1[..4]);
    MaskedFront(s, key, Counter0(number), mac, sealed.1, 4);
  }

  lemma ThreeParts(number: Octets, data: Octets, kept: Octets)
    requires |number| == 6 && |kept| == 4
    ensures var r := number + data + kept; r[..6] == number && r[6..|r| - 4] == data && r[|r| - 4..] == kept
  {
  }

  lemma MaskedFront(s: Suite, key: Block, counter0: Block, text: Octets, masked: Octets, n: nat)
    requires MaskedBy(s, key, counter0, 0, text, masked) && n <= |text|
    ensures MaskedBy(s, key, counter0, 0, text[..n], masked[..n])
  {
    hide XorByte, CounterBlock;
  }

  /** The received four octets are zero-extended to a whole block before decryption. */
  function Decrypted(s: Suite, keys: map<u16, Octets>, destination: u16, secured: Octets)
    : (r: Result<Octets, GroupError>)
  {
    if |secured| < 10 then Err(TooShort)
    else if destination !in keys then Err(NoKey)
    else
      var seqBytes := secured[..6];
      var padded := secured[|secured| - 4..] + Zeros(12);
      var unmasked := Ctr(s, keys[destination], Counter0(seqBytes), padded, secured[6..|secured| - 4]);
      if unmasked.Err? then Err(Crypto(unmasked.error))
      else
        var mac := GroupMac(s, keys[destination], seqBytes, unmasked.value.0).value;
        if mac[..4] != unmasked.value.1[..4] then Err(MacFailed)
        else Ok(unmasked.value.0)
  }

  /** CTR over a MAC cut to `n` octets and zero-extended again: the kept octets still decrypt. */
  lemma TruncatedMac(s: Suite, key: Block, counter0: Block, mac: Octets, n: nat)
    requires n <= |mac|
    ensures var sealed := CtrXor(s, key, counter0, 0, mac);
            CtrXor(s, key, counter0, 0, sealed[..n] + Zeros(|mac| - n))[..n] == mac[..n]
  {
    var sealed := CtrXor(s, key, counter0, 0, mac);
    var again := CtrXor(s, key, counter0, 0, sealed[..n] + Zeros(|mac| - n));
    forall i | 0 <= i < n
      ensures again[i] == mac[i]
    {
      XorByteLaws(mac[i], KeystreamByte(s, key, counter0, i));
    }
  }

  /**
    * Encryption succeeds exactly when the destination has a key of 16 octets, and then decryption under the same
    * ring returns the payload, for every payload and every sequence number.
    */
  lemma GroupRoundTrip(s: Suite, keys: map<u16, Octets>, destination: u16, payload: Octets, sequenceNumber: nat)
    ensures var secured := Encrypted(s, keys, destination, payload, sequenceNumber);
            && (secured.Ok? <==> destination in keys && |keys[destination]| == 16)
            && (secured.Ok? ==> |secured.value| == |payload| + 10
                                && Decrypted(s, keys, destination, secured.value) == Ok(payload))
  {
    if destination in keys && |keys[destination]| == 16 {
      var key: Block := keys[destination];
      var seqBytes := ToBe(sequenceNumber, 6);
      var counter0: Block := Counter0(seqBytes);
      var mac := GroupMac(s, key, seqBytes, payload).value;
      var sealed := Ctr(s, key, counter0, mac, payload).value;
      var secured := seqBytes + sealed.0 + sealed.1[..4];
      assert Encrypted(s, keys, destination, payload, sequenceNumber) == Ok(secured);
      assert secured[..6] == seqBytes;
      assert secured[6..|secured| - 4] == sealed.0;
      assert secured[|secured| - 4..] == sealed.1[..4];
      hide GroupMac, Encrypted, Counter0;
      CtrXorTwice(s, key, counter0, 16, payload);
      TruncatedMac(s, key, counter0, mac, 4);
    }
  }

  /** A kept MAC that unmasks to the start of a MAC is the start of that MAC masked. */
  lemma MaskedBack(s: Suite, key: Block, counter0: Block, mac: Octets, kept: Octets, n: nat)
    requires n == |kept| <= |mac|
    requires CtrXor(s, key, counter0, 0, kept + Zeros(|mac| - n))[..n] == mac[..n]
    ensures CtrXor(s, key, counter0, 0, mac)[..n] == kept
  {
    var unmasked := CtrXor(s, key, counter0, 0, kept + Zeros(|mac| - n));
    forall i | 0 <= i < n
      ensures CtrXor(s, key, counter0, 0, mac)[i] == kept[i]
    {
      assert unmasked[..n][i] == mac[..n][i];
      XorByteLaws(kept[i], KeystreamByte(s, key, counter0, i));
    }
  }

  /**
    * Decryption accepts exactly what encryption produces: a payload comes out of an octet string if and only if
    * encrypting that payload, under the number in front, gives back that string.
    */
  lemma AcceptsExactlyEncrypted(s: Suite, keys: map<u16, Octets>, destination: u16, secured: Octets, payload: Octets)
    requires |secured| >= 10
    ensures Decrypted(s, keys, destination, secured) == Ok(payload)
            <==> Encrypted(s, keys, destination, payload, FromBe(secured[..6])) == Ok(secured)
  {
    if Decrypted(s, keys, destination, secured) == Ok(payload) {
      var key: Block := keys[destination];
      var seqBytes, data, kept := secured[..6], secured[6..|secured| - 4], secured[|secured| - 4..];
      FromBeToBe(seqBytes);
      var counter0: Block := Counter0(seqBytes);
      var mac := GroupMac(s, key, seqBytes, payload).value;
      assert secured == seqBytes + data + kept;
      hide GroupMac, Counter0, ToBe, FromBe, KeystreamByte, XorByte;
      CtrXorTwice(s, key, counter0, 16, data);
      MaskedBack(s, key, counter0, mac, kept, 4);
    } else {
      GroupRoundTrip(s, keys, destination, payload, FromBe(secured[..6]));
    }
  }

  /** Which error comes back, from the lengths and the key alone; a payload that passes fails only for its MAC. */
  lemma GroupRefusals(s: Suite, keys: map<u16, Octets>, destination: u16, text: Octets, sequenceNumber: nat)
    ensures var sealed, plain := Encrypted(s, keys, destination, text, sequenceNumber),
                                 Decrypted(s, keys, destination, text);
            var unknown := destination !in keys;
            var unusable := destination in keys && |keys[destination]| != 16;
            && (sealed == Err(NoKey) <==> unknown) && (sealed == Err(Crypto(BadKeyLength)) <==> unusable)
            && (plain == Err(TooShort) <==> |text| < 10)
            && (plain == Err(NoKey) <==> |text| >= 10 && unknown)
            && (plain == Err(Crypto(BadKeyLength)) <==> |text| >= 10 && unusable)
            && (|text| >= 10 && !unknown && !unusable && plain.Err? ==> plain == Err(MacFailed))
  {
    hide Counter0, Block0, ToBe, CtrXor, CbcMac;
  }

  // ---- Replay protection per sender ----

  /** A number is taken only above the sender's last one; a refusal changes nothing. */
  function Validate(last: map<u16, nat>, sender: u16, number: nat): (r: (map<u16, nat>, bool)) {
    if sender in last && number <= last[sender] then (last, false) else (last[sender := number], true)
  }

  datatype Attempt = Attempt(sender: u16, number: nat)

  /** The numbers accepted from one sender over a run in which all senders interleave. */
  ghost function AcceptedOf(last: map<u16, nat>, run: seq<Attempt>, sender: u16): (r: seq<nat>)
    decreases |run|
  {
    if run == [] then []
    else
      var (next, ok) := Validate(last, run[0].sender, run[0].number);
      (if ok && run[0].sender == sender then [run[0].number] else []) + AcceptedOf(next, run[1..], sender)
  }

  /** The stored numbers after a run. */
  function StoredAfter(last: map<u16, nat>, run: seq<Attempt>): (r: map<u16, nat>) {
    if run == [] then last
    else Validate(StoredAfter(last, run[..|run| - 1]), run[|run| - 1].sender, run[|run| - 1].number).0
  }

  /** Attempt `i` of a run succeeds. */
  predicate AcceptedAt(last: map<u16, nat>, run: seq<Attempt>, i: nat)
    requires i < |run|
  {
    Validate(StoredAfter(last, run[..i]), run[i].sender, run[i].number).1
  }

  /** The number exceeds the stored one of its sender, if there is one, and every earlier attempt of that sender. */
  ghost predicate Highest(last: map<u16, nat>, run: seq<Attempt>, sender: u16, number: nat) {
    && (sender in last ==> last[sender] < number)
    && forall j :: 0 <= j < |run| && run[j].sender == sender ==> run[j].number < number
  }

  /** After a run a sender's stored number is the highest it had or tried; a sender without either has none. */
  lemma {:induction false} StoredIsHighest(last: map<u16, nat>, run: seq<Attempt>, sender: u16, number: nat)
    ensures var stored := StoredAfter(last, run);
            Highest(last, run, sender, number) <==> (sender in stored ==> stored[sender] < number)
    decreases |run|
  {
    if run != [] {
      var n := |run| - 1;
      var shorter := run[..n];
      StoredIsHighest(last, shorter, sender, number);
      StoredIsHighest(last, shorter, sender, run[n].number);
      assert Highest(last, run, sender, number)
             <==> Highest(last, shorter, sender, number) && (run[n].sender == sender ==> run[n].number < number) by {
        assert run == shorter + [run[n]];
      }
      hide Highest;
    }
  }

  /**
    * In every run in which any senders interleave: an attempt is accepted if and only if its number exceeds the number
    * stored for its sender and the numbers of all earlier attempts of that sender, accepted or not.
    */
  lemma AcceptedExactly(last: map<u16, nat>, run: seq<Attempt>, i: nat)
    requires i < |run|
    ensures AcceptedAt(last, run, i) <==> Highest(last, run[..i], run[i].sender, run[i].number)
  {
    hide Highest, StoredAfter;
    StoredIsHighest(last, run[..i], run[i].sender, run[i].number);
  }

  ghost predicate StrictlyAbove(floor: Option<nat>, ns: seq<nat>) {
    && (forall i :: 0 <= i < |ns| && floor.Some? ==> floor.value < ns[i])
    && (forall i, j :: 0 <= i < j < |ns| ==> ns[i] < ns[j])
  }

  ghost function LastOf(last: map<u16, nat>, sender: u16): (r: Option<nat>) {
    if sender in last then Some(last[sender]) else None
  }

  /** Per sender, accepted numbers strictly increase, starting above the stored one. */
  lemma {:induction false} SendersNeverRepeat(last: map<u16, nat>, run: seq<Attempt>, sender: u16)
    ensures StrictlyAbove(LastOf(last, sender), AcceptedOf(last, run, sender))
    decreases |run|
  {
    if run != [] {
      var next := Validate(last, run[0].sender, run[0].number).0;
      SendersNeverRepeat(next, run[1..], sender);
    }
  }

  ghost function Only(run: seq<Attempt>, sender: u16): (r: seq<Attempt>)
    decreases |run|
  {
    if run == [] then [] else (if run[0].sender == sender then [run[0]] else []) + Only(run[1..], sender)
  }

  /** Senders do not interfere: removing all others from a run leaves one sender's outcome unchanged. */
  lemma {:induction false} SendersAreIndependent(
    last: map<u16, nat>, other: map<u16, nat>, run: seq<Attempt>, sender: u16)
    requires LastOf(last, sender) == LastOf(other, sender)
    ensures AcceptedOf(last, run, sender) == AcceptedOf(other, Only(run, sender), sender)
    decreases |run|
  {
    if run != [] {
      var next := Validate(last, run[0].sender, run[0].number).0;
      if run[0].sender == sender {
        var only := Only(run, sender);
        assert only[0] == run[0] && only[1..] == Only(run[1..], sender);
        SendersAreIndependent(next, Validate(other, sender, run[0].number).0, run[1..], sender);
      } else {
        assert Only(run, sender) == Only(run[1..], sender);
        SendersAreIndependent(next, other, run[1..], sender);
      }
    }
  }

  /** The key ring object. */
  class KeyRing {
    var groupKeys: map<u16, Octets>
    var sequenceNumbers: map<u16, nat>

    constructor ()
      ensures groupKeys == map[] && sequenceNumbers == map[]
    {
      groupKeys, sequenceNumbers := map[], map[];
    }

    method AddGroupKey(address: u16, key: Octets)
      modifies this
      ensures groupKeys == old(groupKeys)[address := key] && sequenceNumbers == old(sequenceNumbers)
    {
      groupKeys := groupKeys[address := key];
    }

    method ValidateSequence(address: u16, number: nat) returns (accepted: bool)
      modifies this
      ensures (sequenceNumbers, accepted) == Validate(old(sequenceNumbers), address, number)
      ensures groupKeys == old(groupKeys)
    {
      if address in sequenceNumbers && number <= sequenceNumbers[address] {
        return false;
      }
      sequenceNumbers := sequenceNumbers[address := number];
      return true;
    }
  }

  method EncryptGroupPayload(
    s: Suite, keyring: KeyRing, destination: u16, payload: Octets, sequenceNumber: nat)
    returns (r: Result<Octets, GroupError>)
    ensures r == Encrypted(s, keyring.groupKeys, destination, payload, sequenceNumber)
  {
    if destination !in keyring.groupKeys {
      return Err(NoKey);
    }
    var key := keyring.groupKeys[destination];
    var seqBytes := ToBe(sequenceNumber, 6);
    var block0 := BuildBlock0(seqBytes, |payload|);
    var counter0 := BuildCounter0(seqBytes);
    var mac := CalculateMacCbc(s, key, seqBytes, payload, block0);
    if mac.Err? {
      return Err(Crypto(mac.error));
    }
    var sealed := RunCtr(s, key, counter0, mac.value, payload);
    var result := seqBytes;
    result := result + sealed.value.0;
    result := result + sealed.value.1[..4];
    return Ok(result);
  }

  /** Fill a zeroed block field by field. */
  method BuildBlock0(seqBytes: Octets, payloadLength: nat) returns (r: Octets)
    requires |seqBytes| == 6
    ensures r == Block0(seqBytes, payloadLength)
  {
    var block := new byte[16](_ => 0);
    block[0] := 0x49;
    forall i | 0 <= i < 6 {
      block[1 + i] := seqBytes[i];
    }
    block[14] := U16Bytes(payloadLength)[0];
    block[15] := U16Bytes(payloadLength)[1];
    r := block[..];
  }

  method BuildCounter0(seqBytes: Octets) returns (r: Octets)
    requires |seqBytes| == 6
    ensures r == Counter0(seqBytes)
  {
    var counter := new byte[16](_ => 0);
    counter[0] := 0x01;
    forall i | 0 <= i < 6 {
      counter[1 + i] := seqBytes[i];
    }
    r := counter[..];
  }

  method DecryptGroupPayload(s: Suite, keyring: KeyRing, destination: u16, secured: Octets)
    returns (r: Result<Octets, GroupError>)
    ensures r == Decrypted(s, keyring.groupKeys, destination, secured)
  {
    if |secured| < 10 {
      return Err(TooShort);
    }
    if destination !in keyring.groupKeys {
      return Err(NoKey);
    }
    var key := keyring.groupKeys[destination];
    var seqBytes := secured[..6];
    var counter0 := BuildCounter0(seqBytes);
    var padded := secured[|secured| - 4..] + Zeros(12);
    var unmasked := RunCtr(s, key, counter0, padded, secured[6..|secured| - 4]);
    if unmasked.Err? {
      return Err(Crypto(unmasked.error));
    }
    var plain := unmasked.value.0;
    var block0 := BuildBlock0(seqBytes, |plain|);
    var expected := CalculateMacCbc(s, key, seqBytes, plain, block0);
    if expected.value[..4] != unmasked.value.1[..4] {
      return Err(MacFailed);
    }
    return Ok(plain);
  }
}
