/**
  Stored WebAuthn credentials: the signature counter (sections 6.1.1 and 7.2 of Web Authentication
  Level 2) and the layout of authenticator data with attested credential data (sections 6.1 and 6.5.1).
 */
module WebAuthn {
  import opened Decimal
  import opened Base64Url

  type Counter = n: int | 0 <= n < 0x1_0000_0000

  datatype Flags = Flags(userPresent: bool, userVerified: bool, backupEligible: bool, backupState: bool)

  datatype Authenticator = Authenticator(signCount: Counter, cloneWarning: bool)

  /** The counter part of an authentication: a counter that did not grow raises the warning instead. */
  function AfterAuthentication(a: Authenticator, counter: Counter): Authenticator {
    if counter <= a.signCount && (counter != 0 || a.signCount != 0) then a.(cloneWarning := true)
    else a.(signCount := counter)
  }

  class StoredCredential {
    var signCount: Counter
    var cloneWarning: bool
    var flags: Flags

    constructor (counter: Counter, flags: Flags)
      ensures signCount == counter && !cloneWarning && this.flags == flags
    {
      signCount := counter;
      cloneWarning := false;
      this.flags := flags;
    }

    method UpdateAfterAuthentication(counter: Counter, userVerified: bool, backupEligible: bool, backupState: bool)
      modifies this
      ensures Authenticator(signCount, cloneWarning) ==
              AfterAuthentication(old(Authenticator(signCount, cloneWarning)), counter)
      ensures flags == Flags(true, userVerified, backupEligible, backupState)
    {
      if counter <= signCount && (counter != 0 || signCount != 0) {
        cloneWarning := true;
      } else {
        signCount := counter;
      }
      flags := Flags(true, userVerified, backupEligible, backupState);
    }
  }

  function Run(a: Authenticator, counters: seq<Counter>): Authenticator {
    if counters == [] then a
    else AfterAuthentication(Run(a, counters[..|counters| - 1]), counters[|counters| - 1])
  }

  function Max(initial: Counter, counters: seq<Counter>): Counter {
    if counters == [] then initial
    else
      var before, last := Max(initial, counters[..|counters| - 1]), counters[|counters| - 1];
      if last > before then last else before
  }

  /** The `i`-th counter is not above everything before it, and not everything so far is zero. */
  predicate Regresses(initial: Counter, counters: seq<Counter>, i: nat)
    requires i < |counters|
  {
    counters[i] <= Max(initial, counters[..i]) && !(counters[i] == 0 && Max(initial, counters[..i]) == 0)
  }

  /** The stored counter is the largest ever seen, and the warning is set exactly if some counter regressed. */
  lemma {:induction false} CounterRun(a: Authenticator, counters: seq<Counter>)
    ensures Run(a, counters).signCount == Max(a.signCount, counters)
    ensures Run(a, counters).cloneWarning <==>
            a.cloneWarning || exists i :: 0 <= i < |counters| && Regresses(a.signCount, counters, i)
  {
    if counters != [] {
      var last := |counters| - 1;
      var init := counters[..last];
      CounterRun(a, init);
      assert forall i :: 0 <= i < last ==> init[..i] == counters[..i] && init[i] == counters[i];
      if i :| 0 <= i < last && Regresses(a.signCount, init, i) {
        assert Regresses(a.signCount, counters, i);
      }
      if i :| 0 <= i < |counters| && Regresses(a.signCount, counters, i) {
        assert i < last ==> Regresses(a.signCount, init, i);
      }
      if counters[last] <= Run(a, init).signCount && !(counters[last] == 0 && Run(a, init).signCount == 0) {
        assert Regresses(a.signCount, counters, last);
      }
    }
  }

  // ----- Authenticator data

  const HEADER_LEN := 37
  const AAGUID_LEN := 16
  const ID_LEN_LEN := 2
  const FLAGS_AT := 32

  /** Bit 6 of the flags byte: attested credential data included. */
  predicate HasAttestedData(flags: Byte) {
    flags / 0x40 % 2 == 1
  }

  datatype Error = AttestedDataRequired | InvalidAuthenticatorData | UndecodableKey

  datatype Result = Ok(aaguid: seq<Byte>, credentialId: seq<Byte>, publicKey: seq<Byte>) | Err(error: Error)

  /** `itemLength` is the CBOR decoder: the length of the first item, unless the bytes do not start with one. */
  ghost predicate IsDecoder(itemLength: seq<Byte> -> Option<nat>) {
    forall b :: itemLength(b).Some? ==> itemLength(b).value <= |b|
  }

  function AttestedCredentialParts(data: seq<Byte>, itemLength: seq<Byte> -> Option<nat>): Result
    requires IsDecoder(itemLength)
  {
    if !(FLAGS_AT < |data| && HasAttestedData(data[FLAGS_AT])) then Err(AttestedDataRequired)
    else
      var aaguidEnd := HEADER_LEN + AAGUID_LEN;
      var idLenEnd := aaguidEnd + ID_LEN_LEN;
      if |data| < idLenEnd then Err(InvalidAuthenticatorData)
      else
        var idLen: nat := data[aaguidEnd] as int * 256 + data[aaguidEnd + 1] as int;
        var keyStart := idLenEnd + idLen;
        if |data| <= keyStart then Err(InvalidAuthenticatorData)
        else
          match itemLength(data[keyStart..])
          case None => Err(UndecodableKey)
          case Some(length) =>
            Ok(data[HEADER_LEN..aaguidEnd], data[idLenEnd..keyStart], data[keyStart..keyStart + length])
  }

  /** The byte has the bit of weight 64 set, whatever its other bits are. */
  ghost predicate HasBitSix(flags: Byte) {
    64 <= flags % 128
  }

  lemma AttestedIsBitSix(flags: Byte)
    ensures HasAttestedData(flags) <==> HasBitSix(flags)
  {
  }

  /** The parts in the order of the standard; `rest` may hold extensions. */
  ghost predicate IsLayout(data: seq<Byte>, header: seq<Byte>, aaguid: seq<Byte>, id: seq<Byte>, key: seq<Byte>,
                           rest: seq<Byte>, itemLength: seq<Byte> -> Option<nat>)
  {
    && |header| == 37 && HasBitSix(header[32]) && |aaguid| == 16 && |id| < 65536
    && key + rest != [] && itemLength(key + rest) == Some(|key|)
    && data == header + aaguid + [|id| / 256, |id| % 256] + id + key + rest
  }

  lemma LayoutIsParsed(data: seq<Byte>, header: seq<Byte>, aaguid: seq<Byte>, id: seq<Byte>, key: seq<Byte>,
                       rest: seq<Byte>, itemLength: seq<Byte> -> Option<nat>)
    requires IsDecoder(itemLength) && IsLayout(data, header, aaguid, id, key, rest, itemLength)
    ensures AttestedCredentialParts(data, itemLength) == Ok(aaguid, id, key)
  {
    assert data[32] == header[32];
    AttestedIsBitSix(data[32]);
    assert data[53] == |id| / 256 && data[54] == |id| % 256;
    var keyStart := 55 + |id|;
    assert data[37..53] == aaguid && data[55..keyStart] == id;
    assert data[keyStart..] == key + rest;
    assert data[keyStart..keyStart + |key|] == key;
  }

  lemma ParsedIsLayout(data: seq<Byte>, aaguid: seq<Byte>, id: seq<Byte>, key: seq<Byte>,
                       itemLength: seq<Byte> -> Option<nat>)
    returns (header: seq<Byte>, rest: seq<Byte>)
    requires IsDecoder(itemLength) && AttestedCredentialParts(data, itemLength) == Ok(aaguid, id, key)
    ensures IsLayout(data, header, aaguid, id, key, rest, itemLength)
  {
    var keyStart := 55 + |id|;
    header, rest := data[..37], data[keyStart + |key|..];
    AttestedIsBitSix(data[32]);
    assert |id| == data[53] as int * 256 + data[54] as int;
    assert [|id| / 256, |id| % 256] == data[53..55];
    assert key + rest == data[keyStart..];
    assert data == header + aaguid + data[53..55] + id + key + rest;
  }

  /** The parser returns three parts exactly for data that is laid out with these parts in their places. */
  lemma ParsesExactlyLayouts(data: seq<Byte>, aaguid: seq<Byte>, id: seq<Byte>, key: seq<Byte>,
                             itemLength: seq<Byte> -> Option<nat>)
    requires IsDecoder(itemLength)
    ensures AttestedCredentialParts(data, itemLength) == Ok(aaguid, id, key) <==>
            exists header, rest :: IsLayout(data, header, aaguid, id, key, rest, itemLength)
  {
    if AttestedCredentialParts(data, itemLength) == Ok(aaguid, id, key) {
      var header, rest := ParsedIsLayout(data, aaguid, id, key, itemLength);
      assert IsLayout(data, header, aaguid, id, key, rest, itemLength);
    }
    if header, rest :| IsLayout(data, header, aaguid, id, key, rest, itemLength) {
      LayoutIsParsed(data, header, aaguid, id, key, rest, itemLength);
    }
  }

  /** Where the public key starts: behind the header, the AAGUID, the length of the id and the id. */
  ghost function KeyStart(data: seq<Byte>): nat
    requires |data| >= 55
  {
    55 + 256 * data[53] as int + data[54] as int
  }

  /** Which data is refused, and why. */
  lemma RefusalsAreExact(data: seq<Byte>, itemLength: seq<Byte> -> Option<nat>)
    requires IsDecoder(itemLength)
    ensures AttestedCredentialParts(data, itemLength) == Err(AttestedDataRequired) <==>
            !(|data| > 32 && HasBitSix(data[32]))
    ensures AttestedCredentialParts(data, itemLength) == Err(InvalidAuthenticatorData) <==>
            |data| > 32 && HasBitSix(data[32]) && (|data| < 55 || |data| <= KeyStart(data))
    ensures AttestedCredentialParts(data, itemLength) == Err(UndecodableKey) <==>
            |data| > 32 && HasBitSix(data[32]) && |data| >= 55 && |data| > KeyStart(data) &&
            itemLength(data[KeyStart(data)..]) == None
  {
    if |data| > 32 {
      AttestedIsBitSix(data[32]);
    }
  }
}
