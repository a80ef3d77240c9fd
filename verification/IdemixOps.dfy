/** The loops and buffers of idemix/credential.go, signature.go and util.go, proved to compute the
    functions of the scheme. */
module IdemixOps {
  import opened Basics
  import opened ModArith
  import opened Idemix
  import opened IdemixScheme

  /** hiddenIndices. */
  method HiddenIndices(disclosure: Bytes) returns (indices: seq<nat>)
    ensures indices == Hidden(disclosure)
  {
    indices := [];
    for index := 0 to |disclosure|
      invariant indices == Hidden(disclosure[..index])
    {
      assert disclosure[..index + 1][..index] == disclosure[..index];
      if disclosure[index] == 0 {
        indices := indices + [index];
      }
    }
    assert disclosure[..|disclosure|] == disclosure;
  }

  // ----- the buffer that is hashed -----

  /** appendBytes and its variants: writes at the index and returns the index after it. */
  method AppendBytes(data: array<byte>, index: nat, bytes: Bytes) returns (next: nat)
    requires index + |bytes| <= data.Length
    modifies data
    ensures next == index + |bytes|
    ensures data[..next] == old(data[..index]) + bytes
    ensures forall i :: next <= i < data.Length ==> data[i] == old(data[i])
  {
    for i := 0 to |bytes|
      invariant forall j :: 0 <= j < index ==> data[j] == old(data[j])
      invariant forall j :: 0 <= j < i ==> data[index + j] == bytes[j]
      invariant forall j :: index + |bytes| <= j < data.Length ==> data[j] == old(data[j])
    {
      data[index + i] := bytes[i];
    }
    next := index + |bytes|;
  }

  /** The buffer is filled piece by piece, hashed, and its front used again for the second hash. */
  method ComputeChallenge(c: Curve, t1: int, t2: int, t3: int, aPrime: int, aBar: int, bPrime: int, nym: int,
                          keyHash: Bytes, disclosure: Bytes, msg: Bytes, nonce: int) returns (proofC: nat)
    requires ValidCurve(c) && |keyHash| == FIELD_BYTES
    ensures proofC == Challenge(c, Transcript(c, t1, t2, t3, aPrime, aBar, bPrime, nym, keyHash, disclosure, msg), nonce)
  {
    hide Prime;
    PrimePositive(c.q);
    var size := |SIGN_LABEL| + 7 * G1_BYTES + FIELD_BYTES + |disclosure| + |msg|;
    var proofData := new byte[size](_ => 0);
    var index := AppendBytes(proofData, 0, SIGN_LABEL);
    assert proofData[..index] == SIGN_LABEL;
    index := AppendBytes(proofData, index, c.g1Bytes(t1));
    index := AppendBytes(proofData, index, c.g1Bytes(t2));
    index := AppendBytes(proofData, index, c.g1Bytes(t3));
    index := AppendBytes(proofData, index, c.g1Bytes(aPrime));
    index := AppendBytes(proofData, index, c.g1Bytes(aBar));
    index := AppendBytes(proofData, index, c.g1Bytes(bPrime));
    index := AppendBytes(proofData, index, c.g1Bytes(nym));
    index := AppendBytes(proofData, index, keyHash);
    index := AppendBytes(proofData, index, disclosure);
    index := AppendBytes(proofData, index, msg);
    assert proofData[..index] == proofData[..];
    var first := c.hash(proofData[..]) % c.q;
    index := AppendBytes(proofData, 0, c.bigBytes(first));
    assert proofData[..index] == c.bigBytes(first);
    index := AppendBytes(proofData, index, c.bigBytes(nonce));
    proofC := c.hash(proofData[..2 * FIELD_BYTES]) % c.q;
  }

  // ----- credentials -----

  method IssueCredential(c: Curve, key: IssuerKey, m: CredRequest, attrs: seq<int>, e: int, s: int) returns (r: Result<Credential>)
    requires c.q > 0 && |key.ipk.hAttrs| == |key.ipk.attributeNames|
    ensures r == NewCredential(c, key, m, attrs, e, s)
  {
    hide CheckRequest, Dot;
    if !CheckRequest(c, m, key.ipk) || |attrs| != |key.ipk.attributeNames| {
      return Err;
    }
    var q := c.q;
    var b := c.g1;
    b := Add(q, b, m.nym);
    b := Add(q, b, Mul(q, key.ipk.hRand, s));
    AddMods(c.g1 + m.nym, key.ipk.hRand * s, q);
    ghost var start := b;
    b := AddProducts(q, b, key.ipk.hAttrs[..|attrs|], attrs);
    AddMods(c.g1 + m.nym + key.ipk.hRand * s, Dot(key.ipk.hAttrs[..|attrs|], attrs), q);
    var exp := Modadd(key.isk, e, q);
    exp := Inverse(exp, q);
    var a := Mul(q, b, exp);
    return Ok(Credential(a, b, e, s, attrs));
  }

  method CheckCredential(c: Curve, cred: Credential, sk: int, ipk: IssuerPublicKey) returns (ok: bool)
    requires c.q > 0 && |cred.attrs| <= |ipk.hAttrs|
    ensures ok == CredentialVer(c, cred, sk, ipk)
  {
    hide Dot;
    var q := c.q;
    var bPrime := c.g1;
    bPrime := Add(q, bPrime, Mul2(q, ipk.hSk, sk, ipk.hRand, cred.s));
    AddMods(c.g1, ipk.hSk * sk + ipk.hRand * cred.s, q);
    bPrime := AddProducts(q, bPrime, ipk.hAttrs[..|cred.attrs|], cred.attrs);
    AddMods(c.g1 + (ipk.hSk * sk + ipk.hRand * cred.s), Dot(ipk.hAttrs[..|cred.attrs|], cred.attrs), q);
    if cred.b != bPrime {
      return false;
    }
    var a := Mul(q, c.g2, cred.e);
    a := Add(q, a, ipk.w);
    return Mul(q, a, cred.a) == Mul(q, c.g2, cred.b);
  }

  // ----- signatures -----

  method Sign(c: Curve, cred: Credential, sk: int, nym: int, rNym: int, ipk: IssuerPublicKey,
              disclosure: Bytes, msg: Bytes, rhIndex: int, revocationAlg: int, rnd: Randomness) returns (r: Outcome<Signature>)
    requires ValidCurve(c) && |ipk.hAttrs| >= |ipk.attributeNames| && |ipk.hash| == FIELD_BYTES
    requires |rnd.rAttrs| == |Hidden(disclosure)|
    ensures c.q > 0
    ensures r == NewSignature(c, cred, sk, nym, rNym, ipk, disclosure, msg, rhIndex, revocationAlg, rnd)
  {
    hide Prime, Dot, Inverse, Modadd, Modsub, Transcript, Challenge, Hidden, Gather;
    PrimePositive(c.q);
    if BadInput(disclosure, ipk, rhIndex) || revocationAlg != ALG_NO_REVOCATION {
      return Failure;
    }
    var q := c.q;
    var hidden := HiddenIndices(disclosure);
    var r3 := Inverse(rnd.r1, q);
    var aPrime := Mul(q, cred.a, rnd.r1);
    var aBar := Mul(q, cred.b, rnd.r1);
    aBar := Sub(q, aBar, Mul(q, aPrime, cred.e));
    var bPrime := Mul(q, cred.b, rnd.r1);
    bPrime := Sub(q, bPrime, Mul(q, ipk.hRand, rnd.r2));
    var sPrime := Modsub(cred.s, (rnd.r2 * r3) % q, q);
    if rhIndex >= |cred.attrs| || SearchInts(hidden, rhIndex) == |hidden| {
      return Panic;
    }
    var t1 := Mul2(q, aPrime, rnd.re, ipk.hRand, rnd.rR2);
    var t2 := SumT2(q, ipk, bPrime, rnd.rSPrime, rnd.rR3, rnd.rSk, Gather(ipk.hAttrs, hidden), rnd.rAttrs);
    var t3 := Mul2(q, ipk.hSk, rnd.rSk, ipk.hRand, rnd.rRNym);
    var proofC := ComputeChallenge(c, t1, t2, t3, aPrime, aBar, bPrime, nym, ipk.hash, disclosure, msg, rnd.nonce);
    if !InCredential(cred, rhIndex, hidden) {
      return Panic;
    }
    var proofSAttrs := Respond(q, rnd.rAttrs, proofC, cred.attrs, hidden);
    return Success(Signature(aPrime, aBar, bPrime, proofC,
                             Modadd(rnd.rSk, (proofC * sk) % q, q),
                             Modsub(rnd.re, (proofC * cred.e) % q, q),
                             Modadd(rnd.rR2, (proofC * rnd.r2) % q, q),
                             Modsub(rnd.rR3, (proofC * r3) % q, q),
                             Modadd(rnd.rSPrime, (proofC * sPrime) % q, q),
                             proofSAttrs, rnd.nonce, nym,
                             Modadd(rnd.rRNym, (proofC * rNym) % q, q)));
  }

  /** t2 accumulated point by point. */
  method SumT2(q: int, ipk: IssuerPublicKey, bPrime: int, x: int, y: int, z: int, hs: seq<int>, xs: seq<int>) returns (t2: int)
    requires q > 0 && |hs| == |xs|
    ensures t2 == (ipk.hRand * x + (bPrime * y + ipk.hSk * z) + Dot(hs, xs)) % q
  {
    hide Dot;
    t2 := Mul(q, ipk.hRand, x);
    t2 := Add(q, t2, Mul2(q, bPrime, y, ipk.hSk, z));
    t2 := AddProducts(q, t2, hs, xs);
    ThreeMods(ipk.hRand * x, bPrime * y + ipk.hSk * z, Dot(hs, xs), q);
  }

  lemma ThreeMods(a: int, b: int, d: int, q: int)
    requires q > 0
    ensures ((a % q + b % q) % q + d) % q == (a + b + d) % q
  {
    AddMods(a, b, q);
    AddMods(a + b, d, q);
  }

  /** The responses for the hidden attributes, in the order of the hidden indices. */
  method Respond(q: int, rAttrs: seq<int>, proofC: int, attrs: seq<int>, hidden: seq<nat>) returns (ss: seq<int>)
    requires q > 0 && |rAttrs| == |hidden| && forall i :: 0 <= i < |hidden| ==> hidden[i] < |attrs|
    ensures ss == Responses(q, rAttrs, proofC, Gather(attrs, hidden))
  {
    ss := [];
    for i := 0 to |hidden|
      invariant |ss| == i
      invariant forall j :: 0 <= j < i ==> ss[j] == Modadd(rAttrs[j], (proofC * attrs[hidden[j]]) % q, q)
    {
      ss := ss + [Modadd(rAttrs[i], (proofC * attrs[hidden[i]]) % q, q)];
    }
  }

  /** g1 and the disclosed attributes' points. */
  method SumDisclosed(c: Curve, disclosure: Bytes, hs: seq<int>, values: seq<int>) returns (temp: int)
    requires c.q > 0 && |hs| >= |disclosure| && Enough(disclosure, |values|)
    ensures Cong(temp, c.g1 + DisclosedSum(disclosure, hs, values), c.q)
  {
    temp := c.g1;
    for index := 0 to |disclosure|
      invariant Cong(temp, c.g1 + DisclosedSum(disclosure[..index], hs, values), c.q)
    {
      ghost var sum := c.g1 + DisclosedSum(disclosure[..index], hs, values);
      assert disclosure[..index + 1][..index] == disclosure[..index];
      if disclosure[index] != 0 {
        ghost var term := hs[index] * values[index];
        CongMod(term, c.q);
        CongAdd(temp, sum, term % c.q, term, c.q);
        CongMod(temp + term % c.q, c.q);
        temp := Add(c.q, temp, Mul(c.q, hs[index], values[index]));
      }
    }
    assert disclosure[..|disclosure|] == disclosure;
  }

  method Verify(c: Curve, sig: Signature, disclosure: Bytes, ipk: IssuerPublicKey, msg: Bytes,
                values: seq<int>, rhIndex: int, revocationAlg: int) returns (r: Outcome<()>)
    requires ValidCurve(c) && |ipk.hAttrs| >= |ipk.attributeNames| && |ipk.hash| == FIELD_BYTES
    ensures c.q > 0
    ensures r == SignatureVer(c, sig, disclosure, ipk, msg, values, rhIndex, revocationAlg)
  {
    hide Prime, Dot, DisclosedSum, Transcript, Challenge, Hidden, Gather, Cong;
    PrimePositive(c.q);
    if BadInput(disclosure, ipk, rhIndex) || (revocationAlg != ALG_NO_REVOCATION && disclosure[rhIndex] == 1) {
      return Failure;
    }
    var q := c.q;
    var hidden := HiddenIndices(disclosure);
    if |sig.proofSAttrs| != |hidden| || sig.aPrime % q == 0 || !PairingOk(c, sig, ipk) {
      return Failure;
    }
    var t1 := Mul2(q, sig.aPrime, sig.proofSE, ipk.hRand, sig.proofSR2);
    var temp := Sub(q, sig.aBar, sig.bPrime);
    t1 := Sub(q, t1, Mul(q, temp, sig.proofC));
    var t2 := SumT2(q, ipk, sig.bPrime, sig.proofSSPrime, sig.proofSR3, sig.proofSSk, Gather(ipk.hAttrs, hidden), sig.proofSAttrs);
    if !Enough(disclosure, |values|) {
      return Panic;
    }
    temp := SumDisclosed(c, disclosure, ipk.hAttrs, values);
    AddClear(q, ipk.hRand * sig.proofSSPrime + (sig.bPrime * sig.proofSR3 + ipk.hSk * sig.proofSSk)
                + Dot(Gather(ipk.hAttrs, hidden), sig.proofSAttrs),
             temp, c.g1 + DisclosedSum(disclosure, ipk.hAttrs, values), sig.proofC);
    t2 := Add(q, t2, Mul(q, temp, sig.proofC));
    var t3 := Mul2(q, ipk.hSk, sig.proofSSk, ipk.hRand, sig.proofSRNym);
    t3 := Sub(q, t3, Mul(q, sig.nym, sig.proofC));
    if revocationAlg != ALG_NO_REVOCATION {
      return Failure;
    }
    if SearchInts(hidden, rhIndex) == |hidden| {
      return Panic;
    }
    var proofC := ComputeChallenge(c, t1, t2, t3, sig.aPrime, sig.aBar, sig.bPrime, sig.nym, ipk.hash, disclosure, msg, sig.nonce);
    return if sig.proofC != proofC then Failure else Success(());
  }

  lemma AddClear(q: int, x: int, temp: int, clear: int, k: int)
    requires q > 0 && Cong(temp, clear, q)
    ensures (x % q + (temp * k) % q) % q == (x + clear * k) % q
  {
    AddMods(x, temp * k, q);
    CongMul(temp, clear, k, k, q);
    CongAdd(x, x, temp * k, clear * k, q);
  }
}
