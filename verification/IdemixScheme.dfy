/** Issuing and verifying credentials, signing with them and verifying the signatures, as functions
    of the drawn random numbers; and the proof that what is honestly made verifies. */
module IdemixScheme {
  import opened Basics
  import opened ModArith
  import opened Idemix

  // ----- credential requests -----

  function RequestChallenge(c: Curve, t: int, hSk: int, nym: int, issuerNonce: Bytes, keyHash: Bytes): nat
    requires c.q > 0
  {
    c.hash(CRED_REQUEST_LABEL + c.g1Bytes(t) + c.g1Bytes(hSk) + c.g1Bytes(nym) + issuerNonce + keyHash) % c.q
  }

  function NewCredRequest(c: Curve, sk: int, issuerNonce: Bytes, ipk: IssuerPublicKey, rSk: int): CredRequest
    requires c.q > 0
  {
    var nym := Mul(c.q, ipk.hSk, sk);
    var t := Mul(c.q, ipk.hSk, rSk);
    var proofC := RequestChallenge(c, t, ipk.hSk, nym, issuerNonce, ipk.hash);
    CredRequest(nym, issuerNonce, proofC, Modadd((proofC * sk) % c.q, rSk, c.q))
  }

  predicate CheckRequest(c: Curve, m: CredRequest, ipk: IssuerPublicKey)
    requires c.q > 0
  {
    var t := Sub(c.q, Mul(c.q, ipk.hSk, m.proofS), Mul(c.q, m.nym, m.proofC));
    m.proofC == RequestChallenge(c, t, ipk.hSk, m.nym, m.issuerNonce, ipk.hash)
  }

  // ----- credentials -----

  /** g1 + nym + HRand * s + the sum of HAttrs[i] * attrs[i]. */
  function BValue(c: Curve, ipk: IssuerPublicKey, nym: int, s: int, attrs: seq<int>): int
    requires c.q > 0 && |attrs| <= |ipk.hAttrs|
  {
    (c.g1 + nym + ipk.hRand * s + Dot(ipk.hAttrs[..|attrs|], attrs)) % c.q
  }

  /** NewCredential with the drawn numbers e and s. */
  function NewCredential(c: Curve, key: IssuerKey, m: CredRequest, attrs: seq<int>, e: int, s: int): Result<Credential>
    requires c.q > 0 && |key.ipk.hAttrs| == |key.ipk.attributeNames|
  {
    if !CheckRequest(c, m, key.ipk) || |attrs| != |key.ipk.attributeNames| then Err
    else
      var b := BValue(c, key.ipk, m.nym, s, attrs);
      var exp := Inverse(Modadd(key.isk, e, c.q), c.q);
      Ok(Credential(Mul(c.q, b, exp), b, e, s, attrs))
  }

  /** Credential.Ver returns no error. */
  predicate CredentialVer(c: Curve, cred: Credential, sk: int, ipk: IssuerPublicKey)
    requires c.q > 0 && |cred.attrs| <= |ipk.hAttrs|
  {
    var bPrime := (c.g1 + (ipk.hSk * sk + ipk.hRand * cred.s) + Dot(ipk.hAttrs[..|cred.attrs|], cred.attrs)) % c.q;
    var a := Add(c.q, Mul(c.q, c.g2, cred.e), ipk.w);
    && cred.b == bPrime
    && Mul(c.q, a, cred.a) == Mul(c.q, c.g2, cred.b)
  }

  /** MakeNym with the drawn number r. */
  function MakeNym(c: Curve, sk: int, ipk: IssuerPublicKey, r: int): int
    requires c.q > 0
  {
    Mul2(c.q, ipk.hSk, sk, ipk.hRand, r)
  }

  // ----- signatures -----

  /** What is hashed first when signing. */
  function Transcript(c: Curve, t1: int, t2: int, t3: int, aPrime: int, aBar: int, bPrime: int, nym: int,
                      keyHash: Bytes, disclosure: Bytes, msg: Bytes): Bytes
  {
    SIGN_LABEL + c.g1Bytes(t1) + c.g1Bytes(t2) + c.g1Bytes(t3) + c.g1Bytes(aPrime) + c.g1Bytes(aBar)
    + c.g1Bytes(bPrime) + c.g1Bytes(nym) + keyHash + disclosure + msg
  }

  /** The transcript's hash is hashed again together with the nonce. */
  function Challenge(c: Curve, transcript: Bytes, nonce: int): nat
    requires c.q > 0
  {
    c.hash(c.bigBytes(c.hash(transcript) % c.q) + c.bigBytes(nonce)) % c.q
  }

  /** sort.SearchInts: the first position whose index is not smaller. */
  function SearchInts(indices: seq<nat>, x: nat): (i: nat)
    ensures i <= |indices|
    ensures i < |indices| ==> indices[i] >= x
    ensures forall j :: 0 <= j < i ==> indices[j] < x
  {
    if indices == [] || indices[0] >= x then 0
    else
      var i := SearchInts(indices[1..], x);
      assert forall j :: 1 <= j < i + 1 ==> indices[j] == indices[1..][j - 1];
      i + 1
  }

  predicate BadInput(disclosure: Bytes, ipk: IssuerPublicKey, rhIndex: int)
  {
    rhIndex < 0 || rhIndex >= |ipk.attributeNames| || |disclosure| != |ipk.attributeNames|
  }

  /** Some attribute from the revocation handle on is hidden, not necessarily the handle. */
  predicate HidesFrom(disclosure: Bytes, rhIndex: nat)
  {
    exists i :: rhIndex <= i < |disclosure| && disclosure[i] == 0
  }

  /** The credential has the revocation handle and every hidden attribute. */
  predicate InCredential(cred: Credential, rhIndex: int, hidden: seq<nat>)
  {
    rhIndex < |cred.attrs| && forall i :: 0 <= i < |hidden| ==> hidden[i] < |cred.attrs|
  }

  /** The signer's commitment for the hidden attributes. */
  function T2Committed(c: Curve, ipk: IssuerPublicKey, bPrime: int, disclosure: Bytes, rnd: Randomness): int
    requires c.q > 0 && |ipk.hAttrs| >= |disclosure| && |rnd.rAttrs| == |Hidden(disclosure)|
  {
    (ipk.hRand * rnd.rSPrime + (bPrime * rnd.rR3 + ipk.hSk * rnd.rSk)
     + Dot(Gather(ipk.hAttrs, Hidden(disclosure)), rnd.rAttrs)) % c.q
  }

  function NewSignature(c: Curve, cred: Credential, sk: int, nym: int, rNym: int, ipk: IssuerPublicKey,
                        disclosure: Bytes, msg: Bytes, rhIndex: int, revocationAlg: int, rnd: Randomness): Outcome<Signature>
    requires c.q > 0 && |ipk.hAttrs| >= |ipk.attributeNames|
    requires |rnd.rAttrs| == |Hidden(disclosure)|
  {
    // the only revocation algorithm there is a prover for
    if BadInput(disclosure, ipk, rhIndex) || revocationAlg != ALG_NO_REVOCATION then Failure
    else
      var hidden := Hidden(disclosure);
      if SearchInts(hidden, rhIndex) == |hidden| || !InCredential(cred, rhIndex, hidden) then Panic
      else
        var q := c.q;
        var r3 := Inverse(rnd.r1, q);
        var aPrime := Mul(q, cred.a, rnd.r1);
        var aBar := Sub(q, Mul(q, cred.b, rnd.r1), Mul(q, aPrime, cred.e));
        var bPrime := Sub(q, Mul(q, cred.b, rnd.r1), Mul(q, ipk.hRand, rnd.r2));
        var sPrime := Modsub(cred.s, (rnd.r2 * r3) % q, q);
        var t1 := Mul2(q, aPrime, rnd.re, ipk.hRand, rnd.rR2);
        var t2 := T2Committed(c, ipk, bPrime, disclosure, rnd);
        var t3 := Mul2(q, ipk.hSk, rnd.rSk, ipk.hRand, rnd.rRNym);
        var proofC := Challenge(c, Transcript(c, t1, t2, t3, aPrime, aBar, bPrime, nym, ipk.hash, disclosure, msg), rnd.nonce);
        Success(Signature(aPrime, aBar, bPrime, proofC,
                          Modadd(rnd.rSk, (proofC * sk) % q, q),
                          Modsub(rnd.re, (proofC * cred.e) % q, q),
                          Modadd(rnd.rR2, (proofC * rnd.r2) % q, q),
                          Modsub(rnd.rR3, (proofC * r3) % q, q),
                          Modadd(rnd.rSPrime, (proofC * sPrime) % q, q),
                          Responses(q, rnd.rAttrs, proofC, Gather(cred.attrs, hidden)),
                          rnd.nonce, nym,
                          Modadd(rnd.rRNym, (proofC * rNym) % q, q)))
  }

  function Responses(q: int, rs: seq<int>, proofC: int, xs: seq<int>): (ss: seq<int>)
    requires q > 0 && |rs| == |xs|
    ensures |ss| == |rs|
  {
    seq(|rs|, i requires 0 <= i < |rs| => Modadd(rs[i], (proofC * xs[i]) % q, q))
  }

  /** Signature.Ver: Success stands for no error. */
  function SignatureVer(c: Curve, sig: Signature, disclosure: Bytes, ipk: IssuerPublicKey, msg: Bytes,
                        attributeValues: seq<int>, rhIndex: int, revocationAlg: int): Outcome<()>
    requires c.q > 0 && |ipk.hAttrs| >= |ipk.attributeNames|
  {
    if BadInput(disclosure, ipk, rhIndex) || (revocationAlg != ALG_NO_REVOCATION && disclosure[rhIndex] == 1) then Failure
    else
      var hidden := Hidden(disclosure);
      if |sig.proofSAttrs| != |hidden| || sig.aPrime % c.q == 0 || !PairingOk(c, sig, ipk) then Failure
      else if !Enough(disclosure, |attributeValues|) then Panic
      else if revocationAlg != ALG_NO_REVOCATION then Failure
      else if SearchInts(hidden, rhIndex) == |hidden| then Panic
      else
        var t1 := VerT1(c, sig, ipk);
        var t2 := VerT2(c, sig, disclosure, ipk, attributeValues);
        var t3 := VerT3(c, sig, ipk);
        var transcript := Transcript(c, t1, t2, t3, sig.aPrime, sig.aBar, sig.bPrime, sig.nym, ipk.hash, disclosure, msg);
        if sig.proofC == Challenge(c, transcript, sig.nonce) then Success(()) else Failure
  }

  predicate PairingOk(c: Curve, sig: Signature, ipk: IssuerPublicKey)
    requires c.q > 0
  {
    Sub(c.q, Mul(c.q, ipk.w, sig.aPrime), Mul(c.q, c.g2, sig.aBar)) == 0
  }

  function VerT1(c: Curve, sig: Signature, ipk: IssuerPublicKey): int
    requires c.q > 0
  {
    Sub(c.q, Mul2(c.q, sig.aPrime, sig.proofSE, ipk.hRand, sig.proofSR2), Mul(c.q, Sub(c.q, sig.aBar, sig.bPrime), sig.proofC))
  }

  function VerT2(c: Curve, sig: Signature, disclosure: Bytes, ipk: IssuerPublicKey, attributeValues: seq<int>): int
    requires c.q > 0 && |ipk.hAttrs| >= |disclosure| && Enough(disclosure, |attributeValues|)
    requires |sig.proofSAttrs| == |Hidden(disclosure)|
  {
    (ipk.hRand * sig.proofSSPrime + (sig.bPrime * sig.proofSR3 + ipk.hSk * sig.proofSSk)
     + Dot(Gather(ipk.hAttrs, Hidden(disclosure)), sig.proofSAttrs)
     + (c.g1 + DisclosedSum(disclosure, ipk.hAttrs, attributeValues)) * sig.proofC) % c.q
  }

  function VerT3(c: Curve, sig: Signature, ipk: IssuerPublicKey): int
    requires c.q > 0
  {
    Sub(c.q, Mul2(c.q, ipk.hSk, sig.proofSSk, ipk.hRand, sig.proofSRNym), Mul(c.q, sig.nym, sig.proofC))
  }

  // ----- completeness -----

  lemma CongTrans(a: int, b: int, d: int, q: int)
    requires q > 0 && Cong(a, b, q) && Cong(b, d, q)
    ensures Cong(a, d, q)
  {
  }

  /** A response r + k * x reduced along the way. */
  lemma ResponseCong(r: int, k: int, x: int, q: int)
    requires q > 0
    ensures Cong(Modadd(r, (k * x) % q, q), r + k * x, q)
    ensures Cong(Modsub(r, (k * x) % q, q), r - k * x, q)
  {
    CongMod(k * x, q);
    CongAdd(r, r, (k * x) % q, k * x, q);
    ModsubIsDifference(r, (k * x) % q, q);
    CongMod(r + (k * x) % q, q);
    CongMod(r - (k * x) % q, q);
  }

  lemma SubCong(p: int, p': int, r: int, r': int, q: int)
    requires q > 0 && Cong(p, p', q) && Cong(r, r', q)
    ensures Cong(Sub(q, p, r), p' - r', q)
  {
    CongAdd(p, p', r, r', q);
    CongMod(p - r, q);
  }

  /** Schnorr's equation with one base: h * (r + k * x) - (h * x) * k is h * r. */
  lemma OneBase(q: int, h: int, r: int, k: int, x: int, s: int, y: int)
    requires q > 0 && Cong(s, r + k * x, q) && Cong(y, h * x, q)
    ensures Cong(h * s - y * k, h * r, q)
  {
    CongMul(h, h, s, r + k * x, q);
    CongMul(y, h * x, k, k, q);
    CongAdd(h * s, h * (r + k * x), y * k, (h * x) * k, q);
    assert h * (r + k * x) - (h * x) * k == h * r by {
      assert h * (r + k * x) == h * r + h * (k * x);
      assert h * (k * x) == (h * x) * k;
    }
  }

  /** An honest request passes the issuer's check. */
  lemma RequestComplete(c: Curve, sk: int, issuerNonce: Bytes, ipk: IssuerPublicKey, rSk: int)
    requires c.q > 0
    ensures CheckRequest(c, NewCredRequest(c, sk, issuerNonce, ipk, rSk), ipk)
  {
    var q := c.q;
    var m := NewCredRequest(c, sk, issuerNonce, ipk, rSk);
    ResponseCong(rSk, m.proofC, sk, q);
    assert m.proofS == Modadd(rSk, (m.proofC * sk) % q, q);
    CongMod(ipk.hSk * sk, q);
    OneBase(q, ipk.hSk, rSk, m.proofC, sk, m.proofS, m.nym);
    CongMod(ipk.hSk * m.proofS, q);
    CongMod(m.nym * m.proofC, q);
    SubCong(Mul(q, ipk.hSk, m.proofS), ipk.hSk * m.proofS, Mul(q, m.nym, m.proofC), m.nym * m.proofC, q);
    var t := Sub(q, Mul(q, ipk.hSk, m.proofS), Mul(q, m.nym, m.proofC));
    assert t == Mul(q, ipk.hSk, rSk) by {
      DivUnique(t, q, 0, t);
    }
  }

  /** The credential's A is B over isk + e. */
  lemma CredentialPower(c: Curve, key: IssuerKey, m: CredRequest, attrs: seq<int>, e: int, s: int)
    requires Prime(c.q) && |key.ipk.hAttrs| == |key.ipk.attributeNames|
    requires NewCredential(c, key, m, attrs, e, s).Ok?
    requires (key.isk + e) % c.q != 0
    ensures var cred := NewCredential(c, key, m, attrs, e, s).value;
            && cred.b == BValue(c, key.ipk, m.nym, s, attrs) && cred.e == e && cred.s == s && cred.attrs == attrs
            && Cong(cred.a * (key.isk + e), cred.b, c.q)
            && (cred.b % c.q != 0 ==> cred.a % c.q != 0)
  {
    hide Prime, Dot, CheckRequest, Inverse, Cong, BValue;
    PrimePositive(c.q);
    PowerOfInverse(c.q, key.isk + e, BValue(c, key.ipk, m.nym, s, attrs));
  }

  /** Dividing by x and multiplying by it again. */
  lemma PowerOfInverse(q: int, x: int, b: int)
    requires Prime(q) && x % q != 0
    ensures var a := Mul(q, b, Inverse(x % q, q));
            Cong(a * x, b, q) && (b % q != 0 ==> a % q != 0)
  {
    hide Prime, Inverse, Cong;
    PrimePositive(q);
    var y := Inverse(x % q, q);
    var a := Mul(q, b, y);
    CongMod(x, q);
    DivUnique(x % q, q, 0, x % q);
    InverseExists(x % q, q);
    CongMod(b * y, q);
    CongMul(a, b * y, x, x % q, q);
    CongScale(b, (x % q) * y, 1, q);
    Swap(b, y, x % q);
    CongThrough(a * x, b * y * (x % q), b * 1, q);
    if b % q != 0 {
      UnitFactor(x % q, y, q);
      NoZeroDivisors(b, y, q);
      DivUnique(a, q, 0, a);
    }
  }

  lemma Swap(b: int, y: int, s: int)
    ensures b * y * s == b * (s * y) && b * 1 == b
  {
  }

  lemma CongThrough(a: int, b: int, c: int, q: int)
    requires q > 0 && Cong(a, b, q) && Cong(b, c, q)
    ensures Cong(a, c, q)
  {
  }

  lemma UnitFactor(x: int, y: int, q: int)
    requires Prime(q) && Cong(x * y, 1, q)
    ensures y % q != 0
  {
    DivUnique(1, q, 0, 1);
    if y % q == 0 {
      DivUnique(0, q, 0, 0);
      CongMul(x, x, y, 0, q);
    }
  }

  /** An honestly issued credential passes the user's check. */
  lemma CredentialComplete(c: Curve, key: IssuerKey, sk: int, issuerNonce: Bytes, rSk: int, attrs: seq<int>, e: int, s: int)
    requires Prime(c.q) && ValidKey(c, key) && |attrs| == |key.ipk.attributeNames|
    requires (key.isk + e) % c.q != 0
    ensures var m := NewCredRequest(c, sk, issuerNonce, key.ipk, rSk);
            var cred := NewCredential(c, key, m, attrs, e, s);
            cred.Ok? && CredentialVer(c, cred.value, sk, key.ipk)
  {
    var q, ipk := c.q, key.ipk;
    var m := NewCredRequest(c, sk, issuerNonce, ipk, rSk);
    RequestComplete(c, sk, issuerNonce, ipk, rSk);
    var cred := NewCredential(c, key, m, attrs, e, s).value;
    CredentialPower(c, key, m, attrs, e, s);
    BOpens(c, ipk, sk, s, attrs);
    PairingBalance(q, c.g2, key.isk, e, cred.a, cred.b, ipk.w);
  }

  /** B with Nym = HSk * sk is the sum over all bases. */
  lemma BOpens(c: Curve, ipk: IssuerPublicKey, sk: int, s: int, attrs: seq<int>)
    requires c.q > 0 && |attrs| <= |ipk.hAttrs|
    ensures BValue(c, ipk, Mul(c.q, ipk.hSk, sk), s, attrs) ==
            (c.g1 + (ipk.hSk * sk + ipk.hRand * s) + Dot(ipk.hAttrs[..|attrs|], attrs)) % c.q
  {
    hide Dot;
    var rest := c.g1 + ipk.hRand * s + Dot(ipk.hAttrs[..|attrs|], attrs);
    CongMod(ipk.hSk * sk, c.q);
    CongAdd(rest, rest, Mul(c.q, ipk.hSk, sk), ipk.hSk * sk, c.q);
  }

  /** e(w + g2 * e, A) is e(g2, B) when w is g2 * isk and A * (isk + e) is B. */
  lemma PairingBalance(q: int, g2: int, isk: int, e: int, a: int, b: int, w: int)
    requires q > 0 && w == (g2 * isk) % q && Cong(a * (isk + e), b, q)
    ensures Mul(q, Add(q, Mul(q, g2, e), w), a) == Mul(q, g2, b)
  {
    var left := Add(q, Mul(q, g2, e), w);
    AddMods(g2 * e, g2 * isk, q);
    CongMod(g2 * e + g2 * isk, q);
    assert Cong(left, g2 * e + g2 * isk, q);
    hide Cong, Add;
    CongMul(left, g2 * e + g2 * isk, a, a, q);
    CongMul(g2, g2, a * (isk + e), b, q);
    PairingIdentity(g2, isk, e, a);
    CongTrans(left * a, g2 * (a * (isk + e)), g2 * b, q);
    CongMeans(left * a, g2 * b, q);
  }

  lemma PairingIdentity(g2: int, isk: int, e: int, a: int)
    ensures (g2 * e + g2 * isk) * a == g2 * (a * (isk + e))
  {
    assert g2 * e + g2 * isk == g2 * (isk + e);
    assert (g2 * (isk + e)) * a == g2 * ((isk + e) * a);
  }

  lemma CongMeans(a: int, b: int, q: int)
    requires q > 0 && Cong(a, b, q)
    ensures a % q == b % q
  {
  }

  /** t1 is recomputed from the responses. */
  lemma T1Matches(q: int, aPrime: int, hRand: int, br1: int, e: int, r2: int, re: int, rR2: int, k: int,
                  aBar: int, bPrime: int, sE: int, sR2: int)
    requires q > 0
    requires Cong(aBar, br1 - aPrime * e, q) && Cong(bPrime, br1 - hRand * r2, q)
    requires Cong(sE, re - k * e, q) && Cong(sR2, rR2 + k * r2, q)
    ensures Cong(aPrime * sE + hRand * sR2 - (aBar - bPrime) * k, aPrime * re + hRand * rR2, q)
  {
    hide Cong;
    CongScale(aPrime, sE, re - k * e, q);
    CongScale(hRand, sR2, rR2 + k * r2, q);
    var left := aPrime * (re - k * e) + hRand * (rR2 + k * r2);
    CongAdd(aPrime * sE, aPrime * (re - k * e), hRand * sR2, hRand * (rR2 + k * r2), q);
    CongAdd(aBar, br1 - aPrime * e, bPrime, br1 - hRand * r2, q);
    var d := hRand * r2 - aPrime * e;
    assert (br1 - aPrime * e) - (br1 - hRand * r2) == d;
    CongScale(k, aBar - bPrime, d, q);
    CongAdd(aPrime * sE + hRand * sR2, left, (aBar - bPrime) * k, d * k, q);
    T1Identity(aPrime, hRand, e, r2, re, rR2, k);
  }

  lemma T1Identity(aPrime: int, hRand: int, e: int, r2: int, re: int, rR2: int, k: int)
    ensures aPrime * (re - k * e) + hRand * (rR2 + k * r2) - (hRand * r2 - aPrime * e) * k == aPrime * re + hRand * rR2
  {
    var (x, y) := (aPrime * e, hRand * r2);
    assert aPrime * (re - k * e) == aPrime * re - x * k;
    assert hRand * (rR2 + k * r2) == hRand * rR2 + y * k;
    assert (y - x) * k == y * k - x * k;
  }

  /** The bracket that multiplies the challenge in t2 vanishes: B' * r3 is B less HRand * r2 * r3. */
  lemma BracketVanishes(q: int, g1: int, hRand: int, hSk: int, sk: int, sum: int, s: int, sPrime: int,
                        b: int, bPrime: int, r1: int, r2: int, r3: int)
    requires q > 0 && Cong(r1 * r3, 1, q)
    requires Cong(b, g1 + (hSk * sk + hRand * s) + sum, q)
    requires Cong(bPrime, b * r1 - hRand * r2, q) && Cong(sPrime, s - r2 * r3, q)
    ensures Cong(hRand * sPrime - bPrime * r3 + hSk * sk + sum + g1, 0, q)
  {
    // hRand * sPrime
    CongMul(hRand, hRand, sPrime, s - r2 * r3, q);
    assert hRand * (s - r2 * r3) == hRand * s - hRand * (r2 * r3);
    // bPrime * r3
    CongMul(bPrime, b * r1 - hRand * r2, r3, r3, q);
    assert (b * r1 - hRand * r2) * r3 == b * (r1 * r3) - hRand * (r2 * r3) by {
      assert (b * r1 - hRand * r2) * r3 == (b * r1) * r3 - (hRand * r2) * r3;
      assert (b * r1) * r3 == b * (r1 * r3);
      assert (hRand * r2) * r3 == hRand * (r2 * r3);
    }
    CongMul(b, b, r1 * r3, 1, q);
    assert b * 1 == b;
    var full := g1 + (hSk * sk + hRand * s) + sum;
    CongTrans(b * (r1 * r3), b, full, q);
    CongAdd(b * (r1 * r3), full, hRand * (r2 * r3), hRand * (r2 * r3), q);
    CongTrans(bPrime * r3, b * (r1 * r3) - hRand * (r2 * r3), full - hRand * (r2 * r3), q);
    CongAdd(hRand * sPrime, hRand * s - hRand * (r2 * r3), bPrime * r3, full - hRand * (r2 * r3), q);
    var tail := hSk * sk + sum + g1;
    CongAdd(hRand * sPrime - bPrime * r3, (hRand * s - hRand * (r2 * r3)) - (full - hRand * (r2 * r3)), tail, tail, q);
    assert (hRand * s - hRand * (r2 * r3)) - (full - hRand * (r2 * r3)) + tail == 0;
    assert hRand * sPrime - bPrime * r3 + tail == hRand * sPrime - bPrime * r3 + hSk * sk + sum + g1;
  }

  /** t2 is recomputed from the responses: hidden attributes by responses, disclosed ones in the clear. */
  lemma T2Matches(q: int, g1: int, hRand: int, hSk: int, sk: int, k: int, bPrime: int, r3: int, sPrime: int,
                  rSPrime: int, rR3: int, rSk: int, sSPrime: int, sR3: int, sSk: int,
                  dotS: int, dotR: int, dotX: int, disclosed: int)
    requires q > 0
    requires Cong(sSPrime, rSPrime + k * sPrime, q) && Cong(sR3, rR3 - k * r3, q) && Cong(sSk, rSk + k * sk, q)
    requires Cong(dotS, dotR + k * dotX, q)
    requires Cong(hRand * sPrime - bPrime * r3 + hSk * sk + (dotX + disclosed) + g1, 0, q)
    ensures Cong(hRand * sSPrime + (bPrime * sR3 + hSk * sSk) + dotS + (g1 + disclosed) * k,
                 hRand * rSPrime + (bPrime * rR3 + hSk * rSk) + dotR, q)
  {
    var (p1, p2, p3) := (rSPrime + k * sPrime, rR3 - k * r3, rSk + k * sk);
    CongMul(hRand, hRand, sSPrime, p1, q);
    CongMul(bPrime, bPrime, sR3, p2, q);
    CongMul(hSk, hSk, sSk, p3, q);
    CongAdd(bPrime * sR3, bPrime * p2, hSk * sSk, hSk * p3, q);
    CongAdd(hRand * sSPrime, hRand * p1, bPrime * sR3 + hSk * sSk, bPrime * p2 + hSk * p3, q);
    CongAdd(hRand * sSPrime + (bPrime * sR3 + hSk * sSk), hRand * p1 + (bPrime * p2 + hSk * p3), dotS, dotR + k * dotX, q);
    var clear := (g1 + disclosed) * k;
    var left := hRand * p1 + (bPrime * p2 + hSk * p3) + (dotR + k * dotX);
    CongAdd(hRand * sSPrime + (bPrime * sR3 + hSk * sSk) + dotS, left, clear, clear, q);
    var bracket := hRand * sPrime - bPrime * r3 + hSk * sk + (dotX + disclosed) + g1;
    var goal := hRand * rSPrime + (bPrime * rR3 + hSk * rSk) + dotR;
    assert left + clear == goal + bracket * k by {
      T2Identity(g1, hRand, hSk, sk, k, bPrime, r3, sPrime, rSPrime, rR3, rSk, dotR, dotX, disclosed);
    }
    CongMul(bracket, 0, k, k, q);
    CongAdd(goal, goal, bracket * k, 0, q);
  }

  lemma T2Equal(q: int, g1: int, hRand: int, hSk: int, sk: int, k: int, bPrime: int, r3: int, sPrime: int,
              rSPrime: int, rR3: int, rSk: int, sSPrime: int, sR3: int, sSk: int,
              dotS: int, dotR: int, dotX: int, disclosed: int)
    requires q > 0
    requires Cong(sSPrime, rSPrime + k * sPrime, q) && Cong(sR3, rR3 - k * r3, q) && Cong(sSk, rSk + k * sk, q)
    requires Cong(dotS, dotR + k * dotX, q)
    requires Cong(hRand * sPrime - bPrime * r3 + hSk * sk + (dotX + disclosed) + g1, 0, q)
    ensures (hRand * sSPrime + (bPrime * sR3 + hSk * sSk) + dotS + (g1 + disclosed) * k) % q
         == (hRand * rSPrime + (bPrime * rR3 + hSk * rSk) + dotR) % q
  {
    hide Cong;
    T2Matches(q, g1, hRand, hSk, sk, k, bPrime, r3, sPrime, rSPrime, rR3, rSk, sSPrime, sR3, sSk,
              dotS, dotR, dotX, disclosed);
    CongMeans(hRand * sSPrime + (bPrime * sR3 + hSk * sSk) + dotS + (g1 + disclosed) * k,
              hRand * rSPrime + (bPrime * rR3 + hSk * rSk) + dotR, q);
  }

  lemma T2Identity(g1: int, hRand: int, hSk: int, sk: int, k: int, bPrime: int, r3: int, sPrime: int,
                   rSPrime: int, rR3: int, rSk: int, dotR: int, dotX: int, disclosed: int)
    ensures hRand * (rSPrime + k * sPrime) + (bPrime * (rR3 - k * r3) + hSk * (rSk + k * sk)) + (dotR + k * dotX)
            + (g1 + disclosed) * k ==
            hRand * rSPrime + (bPrime * rR3 + hSk * rSk) + dotR
            + (hRand * sPrime - bPrime * r3 + hSk * sk + (dotX + disclosed) + g1) * k
  {
    var (a, b, d) := (hRand * sPrime, bPrime * r3, hSk * sk);
    assert hRand * (rSPrime + k * sPrime) == hRand * rSPrime + a * k;
    assert bPrime * (rR3 - k * r3) == bPrime * rR3 - b * k;
    assert hSk * (rSk + k * sk) == hSk * rSk + d * k;
    assert (a - b + d + (dotX + disclosed) + g1) * k == a * k - b * k + d * k + dotX * k + (g1 + disclosed) * k;
  }

  /** t3 is recomputed from the responses. */
  lemma T3Matches(q: int, hSk: int, hRand: int, sk: int, rNym: int, k: int, rSk: int, rRNym: int, sSk: int, sRNym: int, nym: int)
    requires q > 0 && Cong(sSk, rSk + k * sk, q) && Cong(sRNym, rRNym + k * rNym, q)
    requires Cong(nym, hSk * sk + hRand * rNym, q)
    ensures Cong(hSk * sSk + hRand * sRNym - nym * k, hSk * rSk + hRand * rRNym, q)
  {
    CongMul(hSk, hSk, sSk, rSk + k * sk, q);
    CongMul(hRand, hRand, sRNym, rRNym + k * rNym, q);
    CongAdd(hSk * sSk, hSk * (rSk + k * sk), hRand * sRNym, hRand * (rRNym + k * rNym), q);
    CongMul(nym, hSk * sk + hRand * rNym, k, k, q);
    CongAdd(hSk * sSk + hRand * sRNym, hSk * (rSk + k * sk) + hRand * (rRNym + k * rNym),
            nym * k, (hSk * sk + hRand * rNym) * k, q);
    assert hSk * (rSk + k * sk) == hSk * rSk + (hSk * sk) * k;
    assert hRand * (rRNym + k * rNym) == hRand * rRNym + (hRand * rNym) * k;
    assert (hSk * sk + hRand * rNym) * k == (hSk * sk) * k + (hRand * rNym) * k;
  }

  /** The search for the handle among the hidden positions ends inside exactly when something from
      the handle on is hidden. */
  lemma HiddenFound(disclosure: Bytes, rhIndex: nat)
    ensures SearchInts(Hidden(disclosure), rhIndex) < |Hidden(disclosure)| <==> HidesFrom(disclosure, rhIndex)
  {
    hide Hidden, SearchInts;
    var hidden := Hidden(disclosure);
    var at := SearchInts(hidden, rhIndex);
    if at < |hidden| {
      HiddenIsZero(disclosure, hidden[at]);
    } else if HidesFrom(disclosure, rhIndex) {
      var i :| rhIndex <= i < |disclosure| && disclosure[i] == 0;
      HiddenHas(disclosure, i);
    }
  }

  lemma {:induction false} HiddenIsZero(disclosure: Bytes, i: nat)
    requires i in Hidden(disclosure)
    ensures i < |disclosure| && disclosure[i] == 0
  {
    var n := |disclosure| - 1;
    if i in Hidden(disclosure[..n]) {
      HiddenIsZero(disclosure[..n], i);
    }
  }

  /** Signing fails exactly on bad input or an unknown revocation algorithm, and otherwise panics
      exactly when nothing from the handle on is hidden, or the credential lacks the handle or a
      hidden attribute. A disclosed handle alone is no obstacle. */
  lemma SignOutcome(c: Curve, cred: Credential, sk: int, nym: int, rNym: int, ipk: IssuerPublicKey, disclosure: Bytes,
                    msg: Bytes, rhIndex: int, revocationAlg: int, rnd: Randomness)
    requires c.q > 0 && |ipk.hAttrs| >= |ipk.attributeNames| && |rnd.rAttrs| == |Hidden(disclosure)|
    ensures var r := NewSignature(c, cred, sk, nym, rNym, ipk, disclosure, msg, rhIndex, revocationAlg, rnd);
            var good := 0 <= rhIndex < |disclosure| == |ipk.attributeNames| && revocationAlg == ALG_NO_REVOCATION;
            && (r.Failure? <==> !good)
            && (r.Panic? <==>
                  good && (!HidesFrom(disclosure, rhIndex) || rhIndex >= |cred.attrs|
                           || exists i :: |cred.attrs| <= i < |disclosure| && disclosure[i] == 0))
  {
    hide Hidden, SearchInts, Dot, Gather, Inverse, Modadd, Modsub, Mul, Mul2, Sub, Challenge, Transcript, Responses, T2Committed;
    if 0 <= rhIndex < |disclosure| == |ipk.attributeNames| && revocationAlg == ALG_NO_REVOCATION {
      HiddenFound(disclosure, rhIndex);
      CredentialCovers(cred, disclosure, rhIndex);
    }
  }

  lemma CredentialCovers(cred: Credential, disclosure: Bytes, rhIndex: nat)
    ensures InCredential(cred, rhIndex, Hidden(disclosure)) <==>
            rhIndex < |cred.attrs| && !(exists i :: |cred.attrs| <= i < |disclosure| && disclosure[i] == 0)
  {
    hide Hidden;
    var hidden := Hidden(disclosure);
    forall k | 0 <= k < |hidden| ensures disclosure[hidden[k]] == 0 {
      HiddenIsZero(disclosure, hidden[k]);
    }
    forall i | 0 <= i < |disclosure| && disclosure[i] == 0 ensures i in hidden {
      HiddenHas(disclosure, i);
    }
  }

  /** Ver panics exactly when it comes to read a disclosed value that is missing, or, with the known
      revocation algorithm, when nothing from the handle on is hidden. */
  lemma VerPanics(c: Curve, sig: Signature, disclosure: Bytes, ipk: IssuerPublicKey, msg: Bytes, values: seq<int>,
                  rhIndex: int, revocationAlg: int)
    requires c.q > 0 && |ipk.hAttrs| >= |ipk.attributeNames|
    ensures SignatureVer(c, sig, disclosure, ipk, msg, values, rhIndex, revocationAlg).Panic? <==>
            && 0 <= rhIndex < |disclosure| == |ipk.attributeNames|
            && (revocationAlg == ALG_NO_REVOCATION || disclosure[rhIndex] != 1)
            && |sig.proofSAttrs| == |Hidden(disclosure)| && sig.aPrime % c.q != 0 && PairingOk(c, sig, ipk)
            && (!Enough(disclosure, |values|) || (revocationAlg == ALG_NO_REVOCATION && !HidesFrom(disclosure, rhIndex)))
  {
    hide Hidden, SearchInts, Dot, Gather, Mul, Mul2, Sub, Challenge, Transcript, VerT1, VerT2, VerT3, PairingOk, Enough;
    if rhIndex >= 0 {
      HiddenFound(disclosure, rhIndex);
    }
  }

  lemma {:induction false} HiddenHas(disclosure: Bytes, i: nat)
    requires i < |disclosure| && disclosure[i] == 0
    ensures i in Hidden(disclosure)
  {
    var n := |disclosure| - 1;
    if i < n {
      HiddenHas(disclosure[..n], i);
    }
  }

  lemma {:induction false} DisclosedAgree(disclosure: Bytes, hs: seq<int>, xs: seq<int>, ys: seq<int>)
    requires |hs| >= |disclosure| && |xs| >= |disclosure| && |ys| >= |disclosure|
    requires forall i :: 0 <= i < |disclosure| && disclosure[i] != 0 ==> xs[i] == ys[i]
    ensures DisclosedSum(disclosure, hs, xs) == DisclosedSum(disclosure, hs, ys)
  {
    if disclosure != [] {
      DisclosedAgree(disclosure[..|disclosure| - 1], hs, xs, ys);
    }
  }

  lemma ResponsesCong(q: int, rs: seq<int>, k: int, xs: seq<int>)
    requires q > 0 && |rs| == |xs|
    ensures forall i :: 0 <= i < |rs| ==> Cong(Responses(q, rs, k, xs)[i], rs[i] + k * xs[i], q)
  {
    hide Cong, Modadd, Modsub;
    forall i | 0 <= i < |rs|
      ensures Cong(Responses(q, rs, k, xs)[i], rs[i] + k * xs[i], q)
    {
      ResponseCong(rs[i], k, xs[i], q);
    }
  }

  /** A credential as issued to the holder of sk. */
  ghost predicate Issued(c: Curve, key: IssuerKey, cred: Credential, sk: int)
    requires c.q > 0
  {
    && |cred.attrs| == |key.ipk.attributeNames| == |key.ipk.hAttrs|
    && Cong(cred.b, c.g1 + (key.ipk.hSk * sk + key.ipk.hRand * cred.s) + Dot(key.ipk.hAttrs[..|cred.attrs|], cred.attrs), c.q)
    && Cong(cred.a * (key.isk + cred.e), cred.b, c.q)
  }

  /** The signature's points, as NewSignature computes them. */
  ghost predicate Randomized(c: Curve, ipk: IssuerPublicKey, cred: Credential, rnd: Randomness, sig: Signature)
    requires c.q > 0
  {
    && Cong(sig.aPrime, cred.a * rnd.r1, c.q)
    && Cong(sig.aBar, cred.b * rnd.r1 - sig.aPrime * cred.e, c.q)
    && Cong(sig.bPrime, cred.b * rnd.r1 - ipk.hRand * rnd.r2, c.q)
  }

  lemma PointsRandomized(c: Curve, ipk: IssuerPublicKey, cred: Credential, rnd: Randomness, sig: Signature)
    requires c.q > 0
    requires sig.aPrime == Mul(c.q, cred.a, rnd.r1)
    requires sig.aBar == Sub(c.q, Mul(c.q, cred.b, rnd.r1), Mul(c.q, sig.aPrime, cred.e))
    requires sig.bPrime == Sub(c.q, Mul(c.q, cred.b, rnd.r1), Mul(c.q, ipk.hRand, rnd.r2))
    ensures Randomized(c, ipk, cred, rnd, sig)
  {
    var q := c.q;
    CongMod(cred.a * rnd.r1, q);
    CongMod(cred.b * rnd.r1, q);
    CongMod(sig.aPrime * cred.e, q);
    CongMod(ipk.hRand * rnd.r2, q);
    SubCong(Mul(q, cred.b, rnd.r1), cred.b * rnd.r1, Mul(q, sig.aPrime, cred.e), sig.aPrime * cred.e, q);
    SubCong(Mul(q, cred.b, rnd.r1), cred.b * rnd.r1, Mul(q, ipk.hRand, rnd.r2), ipk.hRand * rnd.r2, q);
  }

  /** e(W, A') is e(g2, ABar). */
  lemma PairingHolds(c: Curve, key: IssuerKey, cred: Credential, sk: int, rnd: Randomness, sig: Signature)
    requires c.q > 0 && ValidKey(c, key) && Issued(c, key, cred, sk) && Randomized(c, key.ipk, cred, rnd, sig)
    ensures PairingOk(c, sig, key.ipk)
  {
    var q, w, a, isk, e := c.q, key.ipk.w, sig.aPrime, key.isk, cred.e;
    var br1 := cred.b * rnd.r1;
    CongMod(c.g2 * isk, q);
    CongMod(w * a, q);
    CongMod(c.g2 * sig.aBar, q);
    SubCong(Mul(q, w, a), w * a, Mul(q, c.g2, sig.aBar), c.g2 * sig.aBar, q);
    assert Cong(w, c.g2 * isk, q);
    hide Cong;
    // a * isk is br1 - a * e
    CongMul(a, cred.a * rnd.r1, isk + e, isk + e, q);
    CongMul(cred.a * (isk + e), cred.b, rnd.r1, rnd.r1, q);
    assert (cred.a * rnd.r1) * (isk + e) == (cred.a * (isk + e)) * rnd.r1 by {
      ThreeFactors(cred.a, rnd.r1, isk + e);
    }
    CongTrans(a * (isk + e), (cred.a * (isk + e)) * rnd.r1, br1, q);
    CongAdd(a * (isk + e), br1, a * e, a * e, q);
    Distributed(a, isk, e);
    // both sides are g2 times that
    CongMul(w, c.g2 * isk, a, a, q);
    CongMul(c.g2, c.g2, a * isk, br1 - a * e, q);
    CongMul(c.g2, c.g2, sig.aBar, br1 - a * e, q);
    Reordered(c.g2, isk, a);
    CongTrans(w * a, c.g2 * (a * isk), c.g2 * (br1 - a * e), q);
    CongAdd(w * a, c.g2 * (br1 - a * e), c.g2 * sig.aBar, c.g2 * (br1 - a * e), q);
    var difference := Sub(q, Mul(q, w, a), Mul(q, c.g2, sig.aBar));
    CongTrans(difference, w * a - c.g2 * sig.aBar, 0, q);
    CongMeans(difference, 0, q);
    DivUnique(difference, q, 0, difference);
    DivUnique(0, q, 0, 0);
  }

  lemma Distributed(a: int, x: int, y: int)
    ensures a * (x + y) - a * y == a * x
  {
  }

  lemma Reordered(x: int, y: int, z: int)
    ensures (x * y) * z == x * (z * y)
  {
  }

  lemma ThreeFactors(x: int, y: int, z: int)
    ensures (x * y) * z == (x * z) * y
  {
  }

  /** The recomputed t-values are the committed ones. */
  lemma TValuesMatch(c: Curve, key: IssuerKey, cred: Credential, sk: int, rNym: int, disclosure: Bytes,
                     values: seq<int>, rnd: Randomness, r3: int, sPrime: int, sig: Signature)
    requires c.q > 0 && ValidKey(c, key) && Issued(c, key, cred, sk) && Randomized(c, key.ipk, cred, rnd, sig)
    requires |disclosure| == |values| == |cred.attrs| && |rnd.rAttrs| == |Hidden(disclosure)|
    requires forall i :: 0 <= i < |disclosure| && disclosure[i] != 0 ==> values[i] == cred.attrs[i]
    requires Cong(rnd.r1 * r3, 1, c.q) && Cong(sPrime, cred.s - rnd.r2 * r3, c.q)
    requires sig.nym == MakeNym(c, sk, key.ipk, rNym)
    requires sig.proofSSk == Modadd(rnd.rSk, (sig.proofC * sk) % c.q, c.q)
    requires sig.proofSE == Modsub(rnd.re, (sig.proofC * cred.e) % c.q, c.q)
    requires sig.proofSR2 == Modadd(rnd.rR2, (sig.proofC * rnd.r2) % c.q, c.q)
    requires sig.proofSR3 == Modsub(rnd.rR3, (sig.proofC * r3) % c.q, c.q)
    requires sig.proofSSPrime == Modadd(rnd.rSPrime, (sig.proofC * sPrime) % c.q, c.q)
    requires sig.proofSRNym == Modadd(rnd.rRNym, (sig.proofC * rNym) % c.q, c.q)
    requires sig.proofSAttrs == Responses(c.q, rnd.rAttrs, sig.proofC, Gather(cred.attrs, Hidden(disclosure)))
    ensures VerT1(c, sig, key.ipk) == Mul2(c.q, sig.aPrime, rnd.re, key.ipk.hRand, rnd.rR2)
    ensures VerT2(c, sig, disclosure, key.ipk, values) ==
            T2Committed(c, key.ipk, sig.bPrime, disclosure, rnd)
    ensures VerT3(c, sig, key.ipk) == Mul2(c.q, key.ipk.hSk, rnd.rSk, key.ipk.hRand, rnd.rRNym)
  {
    hide Cong, Modadd, Modsub, Dot, Gather, Hidden, DisclosedSum, Responses, Sub, Mul, Mul2;
    var q, ipk, k := c.q, key.ipk, sig.proofC;
    ResponseCong(rnd.rSk, k, sk, q);
    ResponseCong(rnd.re, k, cred.e, q);
    ResponseCong(rnd.rR2, k, rnd.r2, q);
    ResponseCong(rnd.rR3, k, r3, q);
    ResponseCong(rnd.rSPrime, k, sPrime, q);
    ResponseCong(rnd.rRNym, k, rNym, q);
    T1Matches(q, sig.aPrime, ipk.hRand, cred.b * rnd.r1, cred.e, rnd.r2, rnd.re, rnd.rR2, k,
              sig.aBar, sig.bPrime, sig.proofSE, sig.proofSR2);
    VerT1Is(c, sig, ipk, rnd.re, rnd.rR2);
    T2Holds(c, ipk, cred, sk, disclosure, values, rnd, r3, sPrime, sig);
    NymOpens(c, sk, ipk, rNym);
    T3Matches(q, ipk.hSk, ipk.hRand, sk, rNym, k, rnd.rSk, rnd.rRNym, sig.proofSSk, sig.proofSRNym, sig.nym);
    VerT3Is(c, sig, ipk, rnd.rSk, rnd.rRNym);
  }

  lemma NymOpens(c: Curve, sk: int, ipk: IssuerPublicKey, rNym: int)
    requires c.q > 0
    ensures Cong(MakeNym(c, sk, ipk, rNym), ipk.hSk * sk + ipk.hRand * rNym, c.q)
  {
    CongMod(ipk.hSk * sk + ipk.hRand * rNym, c.q);
  }

  lemma VerT1Is(c: Curve, sig: Signature, ipk: IssuerPublicKey, re: int, rR2: int)
    requires c.q > 0
    requires Cong(sig.aPrime * sig.proofSE + ipk.hRand * sig.proofSR2 - (sig.aBar - sig.bPrime) * sig.proofC,
                  sig.aPrime * re + ipk.hRand * rR2, c.q)
    ensures VerT1(c, sig, ipk) == Mul2(c.q, sig.aPrime, re, ipk.hRand, rR2)
  {
    var q := c.q;
    var x := sig.aPrime * sig.proofSE + ipk.hRand * sig.proofSR2;
    var d := sig.aBar - sig.bPrime;
    CongMod(x, q);
    CongMod(d, q);
    CongMod((d % q) * sig.proofC, q);
    CongMul(d % q, d, sig.proofC, sig.proofC, q);
    SubCong(x % q, x, ((d % q) * sig.proofC) % q, d * sig.proofC, q);
    var t := VerT1(c, sig, ipk);
    DivUnique(t, q, 0, t);
  }

  lemma VerT3Is(c: Curve, sig: Signature, ipk: IssuerPublicKey, rSk: int, rRNym: int)
    requires c.q > 0
    requires Cong(ipk.hSk * sig.proofSSk + ipk.hRand * sig.proofSRNym - sig.nym * sig.proofC,
                  ipk.hSk * rSk + ipk.hRand * rRNym, c.q)
    ensures VerT3(c, sig, ipk) == Mul2(c.q, ipk.hSk, rSk, ipk.hRand, rRNym)
  {
    var q := c.q;
    var x := ipk.hSk * sig.proofSSk + ipk.hRand * sig.proofSRNym;
    CongMod(x, q);
    CongMod(sig.nym * sig.proofC, q);
    SubCong(x % q, x, (sig.nym * sig.proofC) % q, sig.nym * sig.proofC, q);
    var t := VerT3(c, sig, ipk);
    DivUnique(t, q, 0, t);
  }

  lemma T2Holds(c: Curve, ipk: IssuerPublicKey, cred: Credential, sk: int, disclosure: Bytes,
                values: seq<int>, rnd: Randomness, r3: int, sPrime: int, sig: Signature)
    requires c.q > 0 && |ipk.hAttrs| == |cred.attrs| == |disclosure| == |values| && |rnd.rAttrs| == |Hidden(disclosure)|
    requires Cong(cred.b, c.g1 + (ipk.hSk * sk + ipk.hRand * cred.s) + Dot(ipk.hAttrs[..|cred.attrs|], cred.attrs), c.q)
    requires Cong(sig.bPrime, cred.b * rnd.r1 - ipk.hRand * rnd.r2, c.q)
    requires forall i :: 0 <= i < |disclosure| && disclosure[i] != 0 ==> values[i] == cred.attrs[i]
    requires Cong(rnd.r1 * r3, 1, c.q) && Cong(sPrime, cred.s - rnd.r2 * r3, c.q)
    requires Cong(sig.proofSSPrime, rnd.rSPrime + sig.proofC * sPrime, c.q)
    requires Cong(sig.proofSR3, rnd.rR3 - sig.proofC * r3, c.q)
    requires Cong(sig.proofSSk, rnd.rSk + sig.proofC * sk, c.q)
    requires sig.proofSAttrs == Responses(c.q, rnd.rAttrs, sig.proofC, Gather(cred.attrs, Hidden(disclosure)))
    ensures VerT2(c, sig, disclosure, ipk, values) ==
            T2Committed(c, ipk, sig.bPrime, disclosure, rnd)
  {
    hide Cong, Dot, Hidden, DisclosedSum, Responses;
    var q, k := c.q, sig.proofC;
    var hs := Gather(ipk.hAttrs, Hidden(disclosure));
    var xs := Gather(cred.attrs, Hidden(disclosure));
    ResponsesCong(q, rnd.rAttrs, k, xs);
    DotLinear(hs, rnd.rAttrs, xs, sig.proofSAttrs, k, q);
    HiddenPlusDisclosed(disclosure, ipk.hAttrs, cred.attrs);
    assert cred.attrs[..|disclosure|] == cred.attrs;
    DisclosedAgree(disclosure, ipk.hAttrs, values, cred.attrs);
    var disclosed := DisclosedSum(disclosure, ipk.hAttrs, values);
    BracketVanishes(q, c.g1, ipk.hRand, ipk.hSk, sk, Dot(hs, xs) + disclosed, cred.s, sPrime,
                    cred.b, sig.bPrime, rnd.r1, rnd.r2, r3);
    T2Equal(q, c.g1, ipk.hRand, ipk.hSk, sk, k, sig.bPrime, r3, sPrime, rnd.rSPrime, rnd.rR3, rnd.rSk,
            sig.proofSSPrime, sig.proofSR3, sig.proofSSk, Dot(hs, sig.proofSAttrs), Dot(hs, rnd.rAttrs), Dot(hs, xs), disclosed);
  }

  /** What Ver recomputes from a signature are the values the signer committed to, and its points
      satisfy the pairing equation. */
  lemma CommitmentsKept(c: Curve, key: IssuerKey, cred: Credential, sk: int, rNym: int, disclosure: Bytes, msg: Bytes,
                        rhIndex: nat, values: seq<int>, rnd: Randomness)
    requires Prime(c.q) && ValidKey(c, key) && Issued(c, key, cred, sk) && cred.a % c.q != 0
    requires |disclosure| == |values| == |cred.attrs| && |rnd.rAttrs| == |Hidden(disclosure)|
    requires HidesFrom(disclosure, rhIndex)
    requires forall i :: 0 <= i < |disclosure| && disclosure[i] != 0 ==> values[i] == cred.attrs[i]
    requires rnd.r1 % c.q != 0
    ensures var nym := MakeNym(c, sk, key.ipk, rNym);
            var sig := NewSignature(c, cred, sk, nym, rNym, key.ipk, disclosure, msg, rhIndex, ALG_NO_REVOCATION, rnd);
            && sig.Success?
            && sig.value.aPrime % c.q != 0 && PairingOk(c, sig.value, key.ipk)
            && |sig.value.proofSAttrs| == |Hidden(disclosure)|
            && VerT1(c, sig.value, key.ipk) == Mul2(c.q, sig.value.aPrime, rnd.re, key.ipk.hRand, rnd.rR2)
            && VerT2(c, sig.value, disclosure, key.ipk, values) ==
               T2Committed(c, key.ipk, sig.value.bPrime, disclosure, rnd)
            && VerT3(c, sig.value, key.ipk) == Mul2(c.q, key.ipk.hSk, rnd.rSk, key.ipk.hRand, rnd.rRNym)
  {
    hide Cong, Modadd, Modsub, Dot, Gather, Hidden, DisclosedSum, Responses, Sub, Mul2, Challenge, Transcript,
         VerT1, VerT2, VerT3, T2Committed, PairingOk, Inverse, Prime, ValidKey, MakeNym;
    var q, ipk := c.q, key.ipk;
    PrimePositive(q);
    ValidKeyAttrs(c, key);
    HiddenFound(disclosure, rhIndex);
    var nym := MakeNym(c, sk, ipk, rNym);
    var sig := NewSignature(c, cred, sk, nym, rNym, ipk, disclosure, msg, rhIndex, ALG_NO_REVOCATION, rnd).value;
    var r3 := Inverse(rnd.r1, q);
    var sPrime := Modsub(cred.s, (rnd.r2 * r3) % q, q);
    InverseExists(rnd.r1, q);
    ResponseCong(cred.s, rnd.r2, r3, q);
    PointsRandomized(c, ipk, cred, rnd, sig);
    PairingHolds(c, key, cred, sk, rnd, sig);
    NoZeroDivisors(cred.a, rnd.r1, q);
    DivUnique(sig.aPrime, q, 0, sig.aPrime);
    TValuesMatch(c, key, cred, sk, rNym, disclosure, values, rnd, r3, sPrime, sig);
  }

  /** A signature made with an issued credential and a pseudonym of the same secret verifies, for
      any number of attributes and any disclosure that hides something from the revocation handle on. */
  lemma IssuedSignatureVerifies(c: Curve, key: IssuerKey, cred: Credential, sk: int, rNym: int, disclosure: Bytes, msg: Bytes,
                                rhIndex: nat, values: seq<int>, rnd: Randomness)
    requires Prime(c.q) && ValidKey(c, key) && Issued(c, key, cred, sk) && cred.a % c.q != 0
    requires |disclosure| == |values| == |cred.attrs| && |rnd.rAttrs| == |Hidden(disclosure)|
    requires HidesFrom(disclosure, rhIndex)
    requires forall i :: 0 <= i < |disclosure| && disclosure[i] != 0 ==> values[i] == cred.attrs[i]
    requires rnd.r1 % c.q != 0
    ensures var nym := MakeNym(c, sk, key.ipk, rNym);
            var sig := NewSignature(c, cred, sk, nym, rNym, key.ipk, disclosure, msg, rhIndex, ALG_NO_REVOCATION, rnd);
            && sig.Success?
            && SignatureVer(c, sig.value, disclosure, key.ipk, msg, values, rhIndex, ALG_NO_REVOCATION) == Success(())
  {
    hide Cong, Modadd, Modsub, Dot, Gather, Hidden, DisclosedSum, Responses, Sub, Mul2, Challenge, Transcript,
         VerT1, VerT2, VerT3, T2Committed, PairingOk, Inverse, Prime, ValidKey, MakeNym, Mul;
    PrimePositive(c.q);
    ValidKeyAttrs(c, key);
    HiddenFound(disclosure, rhIndex);
    CommitmentsKept(c, key, cred, sk, rNym, disclosure, msg, rhIndex, values, rnd);
  }

  lemma PrimePositive(q: int)
    requires Prime(q)
    ensures q > 0
  {
  }

  lemma ValidKeyAttrs(c: Curve, key: IssuerKey)
    requires c.q > 0 && ValidKey(c, key)
    ensures |key.ipk.hAttrs| == |key.ipk.attributeNames|
  {
  }

  /** The whole protocol: request, credential, pseudonym, signature. Everything honestly made
      verifies, unless a drawn number is one of the excluded ones. */
  lemma SignatureComplete(c: Curve, key: IssuerKey, sk: int, issuerNonce: Bytes, rSk: int, attrs: seq<int>, e: int, s: int,
                          rNym: int, disclosure: Bytes, msg: Bytes, rhIndex: nat, values: seq<int>, rnd: Randomness)
    requires Prime(c.q) && ValidKey(c, key) && |attrs| == |key.ipk.attributeNames|
    requires |disclosure| == |values| == |attrs| && |rnd.rAttrs| == |Hidden(disclosure)|
    requires HidesFrom(disclosure, rhIndex)
    requires forall i :: 0 <= i < |disclosure| && disclosure[i] != 0 ==> values[i] == attrs[i]
    requires rnd.r1 % c.q != 0 && (key.isk + e) % c.q != 0
    requires BValue(c, key.ipk, Mul(c.q, key.ipk.hSk, sk), s, attrs) != 0
    ensures var m := NewCredRequest(c, sk, issuerNonce, key.ipk, rSk);
            var cred := NewCredential(c, key, m, attrs, e, s);
            && cred.Ok? && CredentialVer(c, cred.value, sk, key.ipk)
            && var nym := MakeNym(c, sk, key.ipk, rNym);
            var sig := NewSignature(c, cred.value, sk, nym, rNym, key.ipk, disclosure, msg, rhIndex, ALG_NO_REVOCATION, rnd);
            && sig.Success?
            && SignatureVer(c, sig.value, disclosure, key.ipk, msg, values, rhIndex, ALG_NO_REVOCATION) == Success(())
  {
    var q, ipk := c.q, key.ipk;
    var m := NewCredRequest(c, sk, issuerNonce, ipk, rSk);
    assert m.nym == Mul(q, ipk.hSk, sk);
    CredentialComplete(c, key, sk, issuerNonce, rSk, attrs, e, s);
    hide NewCredRequest, CredentialVer, CheckRequest, NewSignature, SignatureVer, Dot, Hidden, Prime, ValidKey, MakeNym, Mul;
    var cred := NewCredential(c, key, m, attrs, e, s).value;
    CredentialPower(c, key, m, attrs, e, s);
    BOpens(c, ipk, sk, s, attrs);
    BReduced(c, ipk, m.nym, s, attrs);
    IssuedHolds(c, key, cred, sk, m.nym, s, attrs);
    IssuedSignatureVerifies(c, key, cred, sk, rNym, disclosure, msg, rhIndex, values, rnd);
  }

  lemma BReduced(c: Curve, ipk: IssuerPublicKey, nym: int, s: int, attrs: seq<int>)
    requires c.q > 0 && |attrs| <= |ipk.hAttrs|
    ensures var b := BValue(c, ipk, nym, s, attrs); b % c.q == b
  {
    var b := BValue(c, ipk, nym, s, attrs);
    DivUnique(b, c.q, 0, b);
  }

  lemma IssuedHolds(c: Curve, key: IssuerKey, cred: Credential, sk: int, nym: int, s: int, attrs: seq<int>)
    requires c.q > 0 && |attrs| == |key.ipk.attributeNames| == |key.ipk.hAttrs| && cred.attrs == attrs && cred.s == s
    requires nym == Mul(c.q, key.ipk.hSk, sk) && cred.b == BValue(c, key.ipk, nym, s, attrs)
    requires Cong(cred.a * (key.isk + cred.e), cred.b, c.q)
    ensures Issued(c, key, cred, sk)
  {
    BOpens(c, key.ipk, sk, s, attrs);
    CongMod(c.g1 + (key.ipk.hSk * sk + key.ipk.hRand * s) + Dot(key.ipk.hAttrs[..|attrs|], attrs), c.q);
  }
}
