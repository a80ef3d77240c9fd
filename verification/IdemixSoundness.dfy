/** What verification is worth: two accepted signatures that start from the same commitments and
    answer different challenges give away a credential that passes Credential.Ver, the secret it was
    issued for and the opening of the pseudonym. */
module IdemixSoundness {
  import opened Basics
  import opened ModArith
  import opened Idemix
  import opened IdemixScheme

  /** Two answers to different challenges determine what was committed to. */
  lemma Answers(x: int, x': int, y: int, k: int, k': int, d: int, q: int)
    requires q > 0 && Cong(x - y * k, x' - y * k', q) && Cong((k - k') * d, 1, q)
    ensures Cong(y, (x - x') * d, q)
  {
    CongAdd(x - y * k, x' - y * k', y * k - x', y * k - x', q);
    AnswersIdentity(x, x', y, k, k', d);
    CongMul(x - x', y * (k - k'), d, d, q);
    CongMul(y, y, (k - k') * d, 1, q);
  }

  lemma AnswersIdentity(x: int, x': int, y: int, k: int, k': int, d: int)
    ensures (x - y * k) + (y * k - x') == x - x'
    ensures (x' - y * k') + (y * k - x') == y * (k - k')
    ensures (y * (k - k')) * d == y * ((k - k') * d) && y * 1 == y
  {
  }

  /** The number that undoes the difference of two challenges. */
  function Undo(k: int, k': int, q: int): int
    requires q > 0
  {
    Inverse(k - k', q)
  }

  function Extracted(s: int, s': int, d: int): int
  {
    (s - s') * d
  }

  // ---- credential requests

  lemma RequestT(c: Curve, m: CredRequest, ipk: IssuerPublicKey)
    requires c.q > 0
    ensures Cong(Sub(c.q, Mul(c.q, ipk.hSk, m.proofS), Mul(c.q, m.nym, m.proofC)), ipk.hSk * m.proofS - m.nym * m.proofC, c.q)
  {
    CongMod(ipk.hSk * m.proofS, c.q);
    CongMod(m.nym * m.proofC, c.q);
    SubCong(Mul(c.q, ipk.hSk, m.proofS), ipk.hSk * m.proofS, Mul(c.q, m.nym, m.proofC), m.nym * m.proofC, c.q);
  }

  function RequestCommitment(c: Curve, m: CredRequest, ipk: IssuerPublicKey): int
    requires c.q > 0
  {
    Sub(c.q, Mul(c.q, ipk.hSk, m.proofS), Mul(c.q, m.nym, m.proofC))
  }

  /** Two requests for the same pseudonym and commitment with different challenges give away its secret. */
  lemma RequestExtracts(c: Curve, m: CredRequest, m': CredRequest, ipk: IssuerPublicKey)
    requires Prime(c.q) && m.nym == m'.nym && RequestCommitment(c, m, ipk) == RequestCommitment(c, m', ipk)
    requires (m.proofC - m'.proofC) % c.q != 0
    ensures Cong(m.nym, ipk.hSk * Extracted(m.proofS, m'.proofS, Undo(m.proofC, m'.proofC, c.q)), c.q)
  {
    var q, d := c.q, Undo(m.proofC, m'.proofC, c.q);
    assert q >= 2;
    InverseExists(m.proofC - m'.proofC, q);
    RequestT(c, m, ipk);
    RequestT(c, m', ipk);
    hide Prime, Inverse, Sub, Mul;
    Answers(ipk.hSk * m.proofS, ipk.hSk * m'.proofS, m.nym, m.proofC, m'.proofC, d, q);
    OneFactorOut(ipk.hSk, m.proofS, m'.proofS, d);
  }

  lemma OneFactorOut(h: int, s: int, s': int, d: int)
    ensures (h * s - h * s') * d == h * ((s - s') * d)
  {
    assert h * s - h * s' == h * (s - s');
  }

  lemma TwoFactorsOut(h: int, s: int, s': int, g: int, t: int, t': int, d: int)
    ensures ((h * s + g * t) - (h * s' + g * t')) * d == h * ((s - s') * d) + g * ((t - t') * d)
  {
    assert (h * s + g * t) - (h * s' + g * t') == h * (s - s') + g * (t - t');
    assert (h * (s - s') + g * (t - t')) * d == (h * (s - s')) * d + (g * (t - t')) * d;
  }

  // ---- signatures

  /** The three values recomputed by Ver, without the reductions in between. */
  lemma T1Is(c: Curve, sig: Signature, ipk: IssuerPublicKey)
    requires c.q > 0
    ensures Cong(VerT1(c, sig, ipk),
                 (sig.aPrime * sig.proofSE + ipk.hRand * sig.proofSR2) - (sig.aBar - sig.bPrime) * sig.proofC, c.q)
  {
    var q := c.q;
    var x := sig.aPrime * sig.proofSE + ipk.hRand * sig.proofSR2;
    var y := sig.aBar - sig.bPrime;
    CongMod(x, q);
    CongMod(y, q);
    CongMod((y % q) * sig.proofC, q);
    CongMul(y % q, y, sig.proofC, sig.proofC, q);
    SubCong(x % q, x, ((y % q) * sig.proofC) % q, y * sig.proofC, q);
  }

  lemma T3Is(c: Curve, sig: Signature, ipk: IssuerPublicKey)
    requires c.q > 0
    ensures Cong(VerT3(c, sig, ipk),
                 (ipk.hSk * sig.proofSSk + ipk.hRand * sig.proofSRNym) - sig.nym * sig.proofC, c.q)
  {
    var q := c.q;
    var x := ipk.hSk * sig.proofSSk + ipk.hRand * sig.proofSRNym;
    CongMod(x, q);
    CongMod(sig.nym * sig.proofC, q);
    SubCong(x % q, x, (sig.nym * sig.proofC) % q, sig.nym * sig.proofC, q);
  }

  function Differences(ss: seq<int>, ss': seq<int>, d: int): (r: seq<int>)
    requires |ss| == |ss'|
    ensures |r| == |ss|
  {
    seq(|ss|, i requires 0 <= i < |ss| => Extracted(ss[i], ss'[i], d))
  }

  lemma {:induction false} DotDifference(hs: seq<int>, ss: seq<int>, ss': seq<int>, d: int)
    requires |hs| == |ss| == |ss'|
    ensures (Dot(hs, ss) - Dot(hs, ss')) * d == Dot(hs, Differences(ss, ss', d))
  {
    if hs != [] {
      var n := |hs| - 1;
      DotDifference(hs[..n], ss[..n], ss'[..n], d);
      assert Differences(ss, ss', d)[..n] == Differences(ss[..n], ss'[..n], d);
      TwoFactorsOut(1, Dot(hs[..n], ss[..n]), Dot(hs[..n], ss'[..n]), hs[n], ss[n], ss'[n], d);
    }
  }

  /** The attributes shown, and at the hidden places the given ones. */
  function Fill(disclosure: Bytes, values: seq<int>, xs: seq<int>): (r: seq<int>)
    requires |values| == |disclosure| && |xs| == |Hidden(disclosure)|
    ensures |r| == |disclosure|
  {
    if disclosure == [] then []
    else
      var n := |disclosure| - 1;
      if disclosure[n] == 0 then Fill(disclosure[..n], values[..n], xs[..|xs| - 1]) + [xs[|xs| - 1]]
      else Fill(disclosure[..n], values[..n], xs) + [values[n]]
  }

  lemma {:induction false} FillParts(disclosure: Bytes, values: seq<int>, xs: seq<int>)
    requires |values| == |disclosure| && |xs| == |Hidden(disclosure)|
    ensures Gather(Fill(disclosure, values, xs), Hidden(disclosure)) == xs
    ensures forall i :: 0 <= i < |disclosure| && disclosure[i] != 0 ==> Fill(disclosure, values, xs)[i] == values[i]
  {
    if disclosure != [] {
      var n := |disclosure| - 1;
      var short, h := disclosure[..n], Hidden(disclosure[..n]);
      if disclosure[n] == 0 {
        FillParts(short, values[..n], xs[..|xs| - 1]);
        assert Gather(Fill(disclosure, values, xs), h) == Gather(Fill(short, values[..n], xs[..|xs| - 1]), h);
        GatherSnoc(Fill(disclosure, values, xs), h, n);
        assert xs == xs[..|xs| - 1] + [xs[|xs| - 1]];
      } else {
        FillParts(short, values[..n], xs);
        assert Gather(Fill(disclosure, values, xs), h) == Gather(Fill(short, values[..n], xs), h);
      }
    }
  }

  /** e(W, A') = e(g2, ABar) says that ABar is A' times the issuer's secret. */
  lemma PairingGives(q: int, g2: int, isk: int, w: int, aPrime: int, aBar: int)
    requires Prime(q) && g2 % q != 0 && w == (g2 * isk) % q
    requires Sub(q, Mul(q, w, aPrime), Mul(q, g2, aBar)) == 0
    ensures Cong(isk * aPrime, aBar, q)
  {
    assert q >= 2;
    CongMod(g2 * isk, q);
    CongMod(w * aPrime, q);
    CongMod(g2 * aBar, q);
    CongMul(w, g2 * isk, aPrime, aPrime, q);
    SubCong(Mul(q, w, aPrime), (g2 * isk) * aPrime, Mul(q, g2, aBar), g2 * aBar, q);
    PairingFactor(g2, isk, aPrime, aBar);
    if (isk * aPrime - aBar) % q != 0 {
      NoZeroDivisors(g2, isk * aPrime - aBar, q);
    }
    DivUnique(0, q, 0, 0);
    CongAdd(isk * aPrime - aBar, 0, aBar, aBar, q);
  }

  lemma PairingFactor(g2: int, isk: int, aPrime: int, aBar: int)
    ensures (g2 * isk) * aPrime - g2 * aBar == g2 * (isk * aPrime - aBar)
  {
    assert (g2 * isk) * aPrime == g2 * (isk * aPrime);
  }

  /** The sizes Ver checks or relies on. */
  ghost predicate Sized(c: Curve, sig: Signature, sig': Signature, disclosure: Bytes, ipk: IssuerPublicKey, values: seq<int>)
  {
    && c.q > 0 && |ipk.hAttrs| == |values| == |disclosure|
    && |sig.proofSAttrs| == |sig'.proofSAttrs| == |Hidden(disclosure)|
  }

  /** Two signatures from the same commitments. */
  ghost predicate SameStart(c: Curve, sig: Signature, sig': Signature, disclosure: Bytes, ipk: IssuerPublicKey, values: seq<int>)
    requires Sized(c, sig, sig', disclosure, ipk, values)
  {
    && sig.aPrime == sig'.aPrime && sig.aBar == sig'.aBar && sig.bPrime == sig'.bPrime && sig.nym == sig'.nym
    && VerT1(c, sig, ipk) == VerT1(c, sig', ipk)
    && VerT2(c, sig, disclosure, ipk, values) == VerT2(c, sig', disclosure, ipk, values)
    && VerT3(c, sig, ipk) == VerT3(c, sig', ipk)
  }

  lemma FirstAnswer(c: Curve, sig: Signature, sig': Signature, ipk: IssuerPublicKey, d: int)
    requires c.q > 0 && sig.aPrime == sig'.aPrime && sig.aBar == sig'.aBar && sig.bPrime == sig'.bPrime
    requires VerT1(c, sig, ipk) == VerT1(c, sig', ipk) && Cong((sig.proofC - sig'.proofC) * d, 1, c.q)
    ensures Cong(sig.aBar - sig.bPrime,
                 sig.aPrime * Extracted(sig.proofSE, sig'.proofSE, d) + ipk.hRand * Extracted(sig.proofSR2, sig'.proofSR2, d), c.q)
  {
    T1Is(c, sig, ipk);
    T1Is(c, sig', ipk);
    hide VerT1;
    Answers(sig.aPrime * sig.proofSE + ipk.hRand * sig.proofSR2, sig.aPrime * sig'.proofSE + ipk.hRand * sig'.proofSR2,
            sig.aBar - sig.bPrime, sig.proofC, sig'.proofC, d, c.q);
    TwoFactorsOut(sig.aPrime, sig.proofSE, sig'.proofSE, ipk.hRand, sig.proofSR2, sig'.proofSR2, d);
  }

  lemma ThirdAnswer(c: Curve, sig: Signature, sig': Signature, ipk: IssuerPublicKey, d: int)
    requires c.q > 0 && sig.nym == sig'.nym
    requires VerT3(c, sig, ipk) == VerT3(c, sig', ipk) && Cong((sig.proofC - sig'.proofC) * d, 1, c.q)
    ensures Cong(sig.nym,
                 ipk.hSk * Extracted(sig.proofSSk, sig'.proofSSk, d) + ipk.hRand * Extracted(sig.proofSRNym, sig'.proofSRNym, d), c.q)
  {
    T3Is(c, sig, ipk);
    T3Is(c, sig', ipk);
    hide VerT3;
    Answers(ipk.hSk * sig.proofSSk + ipk.hRand * sig.proofSRNym, ipk.hSk * sig'.proofSSk + ipk.hRand * sig'.proofSRNym,
            sig.nym, sig.proofC, sig'.proofC, d, c.q);
    TwoFactorsOut(ipk.hSk, sig.proofSSk, sig'.proofSSk, ipk.hRand, sig.proofSRNym, sig'.proofSRNym, d);
  }

  /** The second equation in plain numbers: m is g1 and the disclosed sum. */
  lemma SecondPlain(q: int, hRand: int, b: int, h: int, a: int, a': int, r: int, r': int, k: int, k': int,
                    dot: int, dot': int, m: int, ch: int, ch': int, d: int)
    requires q > 0 && Cong((ch - ch') * d, 1, q)
    requires Cong(hRand * a + (b * r + h * k) + dot + m * ch, hRand * a' + (b * r' + h * k') + dot' + m * ch', q)
    ensures Cong(b * -((r - r') * d), m + hRand * ((a - a') * d) + h * ((k - k') * d) + (dot - dot') * d, q)
  {
    var x, x' := hRand * a + (b * r + h * k) + dot, hRand * a' + (b * r' + h * k') + dot';
    assert x - (-m) * ch == x + m * ch && x' - (-m) * ch' == x' + m * ch' by { Negated(m, ch); Negated(m, ch'); }
    Answers(x, x', -m, ch, ch', d, q);
    SecondFactors(hRand, b, h, a, a', r, r', k, k', dot, dot', d);
    var z := b * -((r - r') * d);
    CongAdd(-m, (x - x') * d, m + z, m + z, q);
  }

  lemma Negated(m: int, k: int)
    ensures (-m) * k == -(m * k)
  {
  }

  lemma SecondFactors(hRand: int, b: int, h: int, a: int, a': int, r: int, r': int, k: int, k': int,
                      dot: int, dot': int, d: int)
    ensures ((hRand * a + (b * r + h * k) + dot) - (hRand * a' + (b * r' + h * k') + dot')) * d
         == hRand * ((a - a') * d) - b * -((r - r') * d) + h * ((k - k') * d) + (dot - dot') * d
  {
    TwoFactorsOut(hRand, a, a', b, r, r', d);
    TwoFactorsOut(h, k, k', 1, dot, dot', d);
    Negated((r - r') * d, b);
    var x, y := (hRand * a + b * r) - (hRand * a' + b * r'), (h * k + dot) - (h * k' + dot');
    assert (x + y) * d == x * d + y * d;
  }

  lemma SecondAnswer(c: Curve, sig: Signature, sig': Signature, disclosure: Bytes, ipk: IssuerPublicKey, values: seq<int>, d: int)
    requires Sized(c, sig, sig', disclosure, ipk, values) && sig.bPrime == sig'.bPrime
    requires VerT2(c, sig, disclosure, ipk, values) == VerT2(c, sig', disclosure, ipk, values)
    requires Cong((sig.proofC - sig'.proofC) * d, 1, c.q)
    ensures Cong(sig.bPrime * -Extracted(sig.proofSR3, sig'.proofSR3, d),
                 (c.g1 + DisclosedSum(disclosure, ipk.hAttrs, values))
                 + ipk.hRand * Extracted(sig.proofSSPrime, sig'.proofSSPrime, d)
                 + ipk.hSk * Extracted(sig.proofSSk, sig'.proofSSk, d)
                 + Dot(Gather(ipk.hAttrs, Hidden(disclosure)), Differences(sig.proofSAttrs, sig'.proofSAttrs, d)), c.q)
  {
    hide Dot, Hidden, DisclosedSum, Gather, Differences;
    var hs := Gather(ipk.hAttrs, Hidden(disclosure));
    SecondPlain(c.q, ipk.hRand, sig.bPrime, ipk.hSk, sig.proofSSPrime, sig'.proofSSPrime, sig.proofSR3, sig'.proofSR3,
                sig.proofSSk, sig'.proofSSk, Dot(hs, sig.proofSAttrs), Dot(hs, sig'.proofSAttrs),
                c.g1 + DisclosedSum(disclosure, ipk.hAttrs, values), sig.proofC, sig'.proofC, d);
    DotDifference(hs, sig.proofSAttrs, sig'.proofSAttrs, d);
  }

  /** Everything Credential.Ver looks at, out of the two signatures. */
  function ExtractedCredential(c: Curve, sig: Signature, sig': Signature, disclosure: Bytes, ipk: IssuerPublicKey,
                               values: seq<int>): (cred: Credential)
    requires c.q > 0 && |ipk.hAttrs| == |values| == |disclosure|
    requires |sig.proofSAttrs| == |sig'.proofSAttrs| == |Hidden(disclosure)|
    ensures |cred.attrs| == |values|
  {
    var d := Undo(sig.proofC, sig'.proofC, c.q);
    var r3 := -Extracted(sig.proofSR3, sig'.proofSR3, d);
    var attrs := Fill(disclosure, values, Differences(sig.proofSAttrs, sig'.proofSAttrs, d));
    var s := Extracted(sig.proofSSPrime, sig'.proofSSPrime, d) + Extracted(sig.proofSR2, sig'.proofSR2, d) * r3;
    var sk := Extracted(sig.proofSSk, sig'.proofSSk, d);
    var b := (c.g1 + (ipk.hSk * sk + ipk.hRand * s) + Dot(ipk.hAttrs[..|attrs|], attrs)) % c.q;
    Credential((sig.aPrime * r3) % c.q, b, -Extracted(sig.proofSE, sig'.proofSE, d), s, attrs)
  }

  /** A' times r3, raised by isk + e, is B. */
  lemma Balance(q: int, isk: int, aPrime: int, aBar: int, bPrime: int, hRand: int, u: int, r2: int, r3: int, rest: int, sPrime: int)
    requires q > 0 && Cong(isk * aPrime, aBar, q) && Cong(aBar - bPrime, aPrime * u + hRand * r2, q)
    requires Cong(bPrime * r3, rest + hRand * sPrime, q)
    ensures Cong((aPrime * r3) * (isk + -u), rest + hRand * (sPrime + r2 * r3), q)
  {
    // isk * A' - A' * u is B' + HRand * r2
    CongAdd(isk * aPrime, aBar, aPrime * u, aPrime * u, q);
    CongAdd(aBar - bPrime, aPrime * u + hRand * r2, bPrime - aPrime * u, bPrime - aPrime * u, q);
    CongTrans(isk * aPrime - aPrime * u, aBar - aPrime * u, hRand * r2 + bPrime, q);
    CongMul(isk * aPrime - aPrime * u, hRand * r2 + bPrime, r3, r3, q);
    CongAdd(bPrime * r3, rest + hRand * sPrime, (hRand * r2) * r3, (hRand * r2) * r3, q);
    BalanceIdentity(isk, aPrime, bPrime, hRand, u, r2, r3, sPrime);
    CongTrans((isk * aPrime - aPrime * u) * r3, bPrime * r3 + (hRand * r2) * r3, rest + hRand * (sPrime + r2 * r3), q);
  }

  lemma BalanceIdentity(isk: int, aPrime: int, bPrime: int, hRand: int, u: int, r2: int, r3: int, sPrime: int)
    ensures (aPrime * r3) * (isk + -u) == (isk * aPrime - aPrime * u) * r3
    ensures (hRand * r2 + bPrime) * r3 == bPrime * r3 + (hRand * r2) * r3
    ensures hRand * sPrime + (hRand * r2) * r3 == hRand * (sPrime + r2 * r3)
  {
    assert isk * aPrime - aPrime * u == aPrime * (isk + -u);
    assert (aPrime * (isk + -u)) * r3 == (aPrime * r3) * (isk + -u);
    assert (hRand * r2) * r3 == hRand * (r2 * r3);
  }

  /** Two accepted signatures, under whatever two hash functions, that start from the same
      commitments and answer different challenges: the extracted credential passes Credential.Ver
      for the extracted secret, shows the disclosed attributes, and the pseudonym opens to that
      secret. Its A is the identity exactly when the two signatures have the same answer for r3. */
  lemma SignatureExtracts(c: Curve, key: IssuerKey, sig: Signature, sig': Signature, disclosure: Bytes, msg: Bytes, msg': Bytes,
                          values: seq<int>, rhIndex: int, revocationAlg: int, hash': Bytes -> nat)
    requires Prime(c.q) && ValidKey(c, key) && c.g2 % c.q != 0 && |values| == |key.ipk.attributeNames|
    requires SignatureVer(c, sig, disclosure, key.ipk, msg, values, rhIndex, revocationAlg).Success?
    requires SignatureVer(c.(hash := hash'), sig', disclosure, key.ipk, msg', values, rhIndex, revocationAlg).Success?
    requires Sized(c, sig, sig', disclosure, key.ipk, values) && SameStart(c, sig, sig', disclosure, key.ipk, values)
    requires (sig.proofC - sig'.proofC) % c.q != 0
    ensures var cred := ExtractedCredential(c, sig, sig', disclosure, key.ipk, values);
            var d := Undo(sig.proofC, sig'.proofC, c.q);
            var sk := Extracted(sig.proofSSk, sig'.proofSSk, d);
            && CredentialVer(c, cred, sk, key.ipk)
            && (forall i :: 0 <= i < |disclosure| && disclosure[i] != 0 ==> cred.attrs[i] == values[i])
            && Cong(sig.nym, Opens(key.ipk, sk, Extracted(sig.proofSRNym, sig'.proofSRNym, d)), c.q)
            && (cred.a == 0 <==> Cong(sig.proofSR3, sig'.proofSR3, c.q))
  {
    hide Cong, VerT1, VerT2, VerT3, Dot, Hidden, DisclosedSum, Gather, Differences, Fill, Inverse, Prime, Transcript, Challenge;
    var q, ipk := c.q, key.ipk;
    var d := Undo(sig.proofC, sig'.proofC, q);
    PrimePositive(q);
    InverseExists(sig.proofC - sig'.proofC, q);
    FirstAnswer(c, sig, sig', ipk, d);
    SecondAnswer(c, sig, sig', disclosure, ipk, values, d);
    ThirdAnswer(c, sig, sig', ipk, d);
    PairingGives(q, c.g2, key.isk, ipk.w, sig.aPrime, sig.aBar);
    CredentialHolds(c, key, sig, sig', disclosure, values, d);
    FillParts(disclosure, values, Differences(sig.proofSAttrs, sig'.proofSAttrs, d));
    ZeroIff(q, sig.aPrime, sig.proofSR3, sig'.proofSR3, sig.proofC - sig'.proofC, d);
  }

  function Opens(ipk: IssuerPublicKey, sk: int, rNym: int): int
  {
    ipk.hSk * sk + ipk.hRand * rNym
  }

  lemma CredentialHolds(c: Curve, key: IssuerKey, sig: Signature, sig': Signature, disclosure: Bytes, values: seq<int>, d: int)
    requires Sized(c, sig, sig', disclosure, key.ipk, values) && d == Undo(sig.proofC, sig'.proofC, c.q)
    requires key.ipk.w == (c.g2 * key.isk) % c.q && Cong(key.isk * sig.aPrime, sig.aBar, c.q)
    requires Cong(sig.aBar - sig.bPrime,
                  sig.aPrime * Extracted(sig.proofSE, sig'.proofSE, d) + key.ipk.hRand * Extracted(sig.proofSR2, sig'.proofSR2, d), c.q)
    requires Cong(sig.bPrime * -Extracted(sig.proofSR3, sig'.proofSR3, d),
                  (c.g1 + DisclosedSum(disclosure, key.ipk.hAttrs, values))
                  + key.ipk.hRand * Extracted(sig.proofSSPrime, sig'.proofSSPrime, d)
                  + key.ipk.hSk * Extracted(sig.proofSSk, sig'.proofSSk, d)
                  + Dot(Gather(key.ipk.hAttrs, Hidden(disclosure)), Differences(sig.proofSAttrs, sig'.proofSAttrs, d)), c.q)
    ensures var cred := ExtractedCredential(c, sig, sig', disclosure, key.ipk, values);
            CredentialVer(c, cred, Extracted(sig.proofSSk, sig'.proofSSk, d), key.ipk)
  {
    hide Cong, Dot, Hidden, DisclosedSum, Gather, Differences, Fill, Undo, Extracted;
    var q, ipk := c.q, key.ipk;
    var cred := ExtractedCredential(c, sig, sig', disclosure, ipk, values);
    var xs := Differences(sig.proofSAttrs, sig'.proofSAttrs, d);
    var u, r2 := Extracted(sig.proofSE, sig'.proofSE, d), Extracted(sig.proofSR2, sig'.proofSR2, d);
    var r3, sPrime := -Extracted(sig.proofSR3, sig'.proofSR3, d), Extracted(sig.proofSSPrime, sig'.proofSSPrime, d);
    var sk := Extracted(sig.proofSSk, sig'.proofSSk, d);
    AttributeSum(disclosure, ipk.hAttrs, values, xs);
    var rest := c.g1 + ipk.hSk * sk + Dot(ipk.hAttrs, cred.attrs);
    assert ipk.hAttrs[..|cred.attrs|] == ipk.hAttrs;
    Balance(q, key.isk, sig.aPrime, sig.aBar, sig.bPrime, ipk.hRand, u, r2, r3, rest, sPrime);
    CongMod(sig.aPrime * r3, q);
    CongScale(key.isk + cred.e, cred.a, sig.aPrime * r3, q);
    CongMod(rest + ipk.hRand * cred.s, q);
    CongTrans(cred.a * (key.isk + cred.e), rest + ipk.hRand * cred.s, cred.b, q);
    PairingBalance(q, c.g2, key.isk, cred.e, cred.a, cred.b, ipk.w);
  }

  lemma AttributeSum(disclosure: Bytes, hs: seq<int>, values: seq<int>, xs: seq<int>)
    requires |hs| == |values| == |disclosure| && |xs| == |Hidden(disclosure)|
    ensures Dot(hs, Fill(disclosure, values, xs)) == DisclosedSum(disclosure, hs, values) + Dot(Gather(hs, Hidden(disclosure)), xs)
  {
    hide Dot, Hidden, DisclosedSum, Gather, Fill;
    var attrs := Fill(disclosure, values, xs);
    FillParts(disclosure, values, xs);
    HiddenPlusDisclosed(disclosure, hs, attrs);
    DisclosedAgree(disclosure, hs, attrs, values);
    assert hs[..|disclosure|] == hs && attrs[..|disclosure|] == attrs;
  }

  lemma ZeroIff(q: int, aPrime: int, s: int, s': int, k: int, d: int)
    requires Prime(q) && aPrime % q != 0 && Cong(k * d, 1, q)
    ensures q > 0 && ((aPrime * -Extracted(s, s', d)) % q == 0 <==> Cong(s, s', q))
  {
    assert q >= 2;
    UnitFactor(k, d, q);
    DivUnique(0, q, 0, 0);
    if Cong(s, s', q) {
      CongAdd(s, s', s', s', q);
      CongMul(s - s', 0, d, d, q);
      CongMul(aPrime, aPrime, -Extracted(s, s', d), 0, q) by { CongAdd(0, 0, (s - s') * d, 0, q); }
    } else {
      if (s - s') % q == 0 {
        CongAdd(s - s', 0, s', s', q);
      }
      NoZeroDivisors(s - s', d, q);
      if (-((s - s') * d)) % q == 0 {
        CongAdd(0, 0, -((s - s') * d), 0, q);
      }
      NoZeroDivisors(aPrime, -((s - s') * d), q);
    }
  }

  /** Credential.Ver accepts exactly the credentials whose B is the sum over the bases and whose A,
      raised by the issuer's secret plus e, is B. */
  lemma CredentialExact(c: Curve, key: IssuerKey, cred: Credential, sk: int)
    requires Prime(c.q) && ValidKey(c, key) && c.g2 % c.q != 0 && |cred.attrs| <= |key.ipk.hAttrs|
    ensures CredentialVer(c, cred, sk, key.ipk) <==>
            && cred.b == (c.g1 + (key.ipk.hSk * sk + key.ipk.hRand * cred.s) + Dot(key.ipk.hAttrs[..|cred.attrs|], cred.attrs)) % c.q
            && Cong(cred.a * (key.isk + cred.e), cred.b, c.q)
  {
    hide Dot, Cong;
    PrimePositive(c.q);
    var a := Add(c.q, Mul(c.q, c.g2, cred.e), key.ipk.w);
    if Cong(cred.a * (key.isk + cred.e), cred.b, c.q) {
      PairingBalance(c.q, c.g2, key.isk, cred.e, cred.a, cred.b, key.ipk.w);
    }
    if Mul(c.q, a, cred.a) == Mul(c.q, c.g2, cred.b) {
      PairingUnbalanced(c.q, c.g2, key.isk, cred.e, cred.a, cred.b, key.ipk.w);
    }
  }

  lemma PairingUnbalanced(q: int, g2: int, isk: int, e: int, a: int, b: int, w: int)
    requires Prime(q) && g2 % q != 0 && w == (g2 * isk) % q
    requires Mul(q, Add(q, Mul(q, g2, e), w), a) == Mul(q, g2, b)
    ensures Cong(a * (isk + e), b, q)
  {
    assert q >= 2;
    var left := Add(q, Mul(q, g2, e), w);
    AddMods(g2 * e, g2 * isk, q);
    CongMod(g2 * e + g2 * isk, q);
    CongMul(left, g2 * e + g2 * isk, a, a, q);
    PairingIdentity(g2, isk, e, a);
    var x := a * (isk + e);
    CongAdd(g2 * x, g2 * b, g2 * b, g2 * b, q);
    assert g2 * x - g2 * b == g2 * (x - b) && g2 * b - g2 * b == 0;
    if (x - b) % q != 0 {
      NoZeroDivisors(g2, x - b, q);
    }
    DivUnique(0, q, 0, 0);
    CongAdd(x - b, 0, b, b, q);
  }

  /** Honest signers rewound: with the same random numbers under two hash functions the two
      signatures are accepted and start from the same commitments, and if the challenges differ the
      secret extracted is the signer's. */
  lemma HonestFork(c: Curve, key: IssuerKey, cred: Credential, sk: int, rNym: int, disclosure: Bytes, msg: Bytes,
                   rhIndex: nat, values: seq<int>, rnd: Randomness, hash': Bytes -> nat)
    returns (sig: Signature, sig': Signature)
    requires Prime(c.q) && ValidKey(c, key) && Issued(c, key, cred, sk) && cred.a % c.q != 0
    requires |disclosure| == |values| == |cred.attrs| && |rnd.rAttrs| == |Hidden(disclosure)|
    requires HidesFrom(disclosure, rhIndex)
    requires forall i :: 0 <= i < |disclosure| && disclosure[i] != 0 ==> values[i] == cred.attrs[i]
    requires rnd.r1 % c.q != 0
    ensures var nym := MakeNym(c, sk, key.ipk, rNym);
            NewSignature(c, cred, sk, nym, rNym, key.ipk, disclosure, msg, rhIndex, ALG_NO_REVOCATION, rnd) == Success(sig)
    ensures var nym := MakeNym(c, sk, key.ipk, rNym);
            NewSignature(c.(hash := hash'), cred, sk, nym, rNym, key.ipk, disclosure, msg, rhIndex, ALG_NO_REVOCATION, rnd)
              == Success(sig')
    ensures SignatureVer(c, sig, disclosure, key.ipk, msg, values, rhIndex, ALG_NO_REVOCATION).Success?
    ensures SignatureVer(c.(hash := hash'), sig', disclosure, key.ipk, msg, values, rhIndex, ALG_NO_REVOCATION).Success?
    ensures Sized(c, sig, sig', disclosure, key.ipk, values) && SameStart(c, sig, sig', disclosure, key.ipk, values)
    ensures (sig.proofC - sig'.proofC) % c.q != 0 ==>
              Cong(Extracted(sig.proofSSk, sig'.proofSSk, Undo(sig.proofC, sig'.proofC, c.q)), sk, c.q)
  {
    PrimePositive(c.q);
    hide Cong, Modsub, Modadd, Hidden, Inverse, Prime, MakeNym, VerT1, VerT2, VerT3, SignatureVer, NewSignature,
         Issued, ValidKey, Started, HidesFrom, SameStart, Extracted, Undo;
    var c' := c.(hash := hash');
    SameNym(c, hash', sk, key.ipk, rNym);
    IssuedEither(c, key, cred, sk, hash');
    ValidEither(c, key, hash');
    sig := HonestSigns(c, key, cred, sk, rNym, disclosure, msg, rhIndex, values, rnd);
    sig' := HonestSigns(c', key, cred, sk, rNym, disclosure, msg, rhIndex, values, rnd);
    StartedAlike(c, hash', key.ipk, cred, MakeNym(c, sk, key.ipk, rNym), disclosure, values, rnd, sig, sig');
    RewoundSecret(c.q, rnd.rSk, sk, sig.proofC, sig'.proofC);
  }

  lemma RewoundSecret(q: int, r: int, sk: int, k: int, k': int)
    requires Prime(q)
    ensures q > 0 && ((k - k') % q != 0 ==>
              Cong(Extracted(Modadd(r, (k * sk) % q, q), Modadd(r, (k' * sk) % q, q), Undo(k, k', q)), sk, q))
  {
    hide Cong, Modadd, Inverse, Prime;
    PrimePositive(q);
    if (k - k') % q != 0 {
      InverseExists(k - k', q);
      ExtractsBack(q, r, k, k', sk, Undo(k, k', q));
    }
  }

  /** The points of a signature and what Ver recomputes from it, none of which depends on the hash. */
  ghost predicate Started(c: Curve, ipk: IssuerPublicKey, cred: Credential, nym: int, disclosure: Bytes, values: seq<int>,
                          rnd: Randomness, sig: Signature)
    requires c.q > 0 && |ipk.hAttrs| == |values| == |disclosure| && |rnd.rAttrs| == |Hidden(disclosure)|
  {
    && |sig.proofSAttrs| == |Hidden(disclosure)| && sig.nym == nym
    && sig.aPrime == Mul(c.q, cred.a, rnd.r1)
    && sig.aBar == Sub(c.q, Mul(c.q, cred.b, rnd.r1), Mul(c.q, sig.aPrime, cred.e))
    && sig.bPrime == Sub(c.q, Mul(c.q, cred.b, rnd.r1), Mul(c.q, ipk.hRand, rnd.r2))
    && VerT1(c, sig, ipk) == Mul2(c.q, sig.aPrime, rnd.re, ipk.hRand, rnd.rR2)
    && VerT2(c, sig, disclosure, ipk, values) ==
       T2Committed(c, ipk, sig.bPrime, disclosure, rnd)
    && VerT3(c, sig, ipk) == Mul2(c.q, ipk.hSk, rnd.rSk, ipk.hRand, rnd.rRNym)
  }

  lemma HonestSigns(c: Curve, key: IssuerKey, cred: Credential, sk: int, rNym: int, disclosure: Bytes, msg: Bytes,
                    rhIndex: nat, values: seq<int>, rnd: Randomness) returns (sig: Signature)
    requires Prime(c.q) && ValidKey(c, key) && Issued(c, key, cred, sk) && cred.a % c.q != 0
    requires |disclosure| == |values| == |cred.attrs| && |rnd.rAttrs| == |Hidden(disclosure)|
    requires HidesFrom(disclosure, rhIndex)
    requires forall i :: 0 <= i < |disclosure| && disclosure[i] != 0 ==> values[i] == cred.attrs[i]
    requires rnd.r1 % c.q != 0
    ensures |key.ipk.hAttrs| == |key.ipk.attributeNames| == |values|
    ensures NewSignature(c, cred, sk, MakeNym(c, sk, key.ipk, rNym), rNym, key.ipk, disclosure, msg, rhIndex,
                         ALG_NO_REVOCATION, rnd) == Success(sig)
    ensures SignatureVer(c, sig, disclosure, key.ipk, msg, values, rhIndex, ALG_NO_REVOCATION).Success?
    ensures Started(c, key.ipk, cred, MakeNym(c, sk, key.ipk, rNym), disclosure, values, rnd, sig)
    ensures sig.proofSSk == Modadd(rnd.rSk, (sig.proofC * sk) % c.q, c.q)
  {
    PrimePositive(c.q);
    hide Modadd, Hidden, Sub, Mul2, T2Committed, Prime, MakeNym, Mul, VerT1, VerT2, VerT3, PairingOk, SignatureVer,
         NewSignature, Issued, ValidKey, HidesFrom;
    SameSizes(c, key, cred, sk);
    var nym := MakeNym(c, sk, key.ipk, rNym);
    IssuedSignatureVerifies(c, key, cred, sk, rNym, disclosure, msg, rhIndex, values, rnd);
    CommitmentsKept(c, key, cred, sk, rNym, disclosure, msg, rhIndex, values, rnd);
    SignedParts(c, cred, sk, nym, rNym, key.ipk, disclosure, msg, rhIndex, rnd);
    sig := NewSignature(c, cred, sk, nym, rNym, key.ipk, disclosure, msg, rhIndex, ALG_NO_REVOCATION, rnd).value;
  }

  lemma StartedAlike(c: Curve, hash': Bytes -> nat, ipk: IssuerPublicKey, cred: Credential, nym: int, disclosure: Bytes,
                     values: seq<int>, rnd: Randomness, sig: Signature, sig': Signature)
    requires c.q > 0 && |ipk.hAttrs| == |values| == |disclosure| && |rnd.rAttrs| == |Hidden(disclosure)|
    requires Started(c, ipk, cred, nym, disclosure, values, rnd, sig)
    requires Started(c.(hash := hash'), ipk, cred, nym, disclosure, values, rnd, sig')
    ensures Sized(c, sig, sig', disclosure, ipk, values) && SameStart(c, sig, sig', disclosure, ipk, values)
  {
    hide Hidden, Sub, Mul2, Mul, VerT1, VerT2, VerT3;
    HashFree(c, hash', sig', disclosure, ipk, values);
  }

  lemma ValidEither(c: Curve, key: IssuerKey, hash': Bytes -> nat)
    requires c.q > 0 && ValidKey(c, key)
    ensures ValidKey(c.(hash := hash'), key)
  {
  }

  lemma SameSizes(c: Curve, key: IssuerKey, cred: Credential, sk: int)
    requires c.q > 0 && Issued(c, key, cred, sk)
    ensures |key.ipk.hAttrs| == |key.ipk.attributeNames| == |cred.attrs|
  {
  }

  lemma IssuedEither(c: Curve, key: IssuerKey, cred: Credential, sk: int, hash': Bytes -> nat)
    requires c.q > 0 && Issued(c, key, cred, sk)
    ensures Issued(c.(hash := hash'), key, cred, sk) && |key.ipk.hAttrs| == |key.ipk.attributeNames| == |cred.attrs|
  {
  }

  /** The parts of a signature that do not depend on the challenge, and one that does. */
  lemma SignedParts(c: Curve, cred: Credential, sk: int, nym: int, rNym: int, ipk: IssuerPublicKey, disclosure: Bytes,
                    msg: Bytes, rhIndex: int, rnd: Randomness)
    requires c.q > 0 && |ipk.hAttrs| == |ipk.attributeNames| == |cred.attrs| && |rnd.rAttrs| == |Hidden(disclosure)|
    ensures var sig := NewSignature(c, cred, sk, nym, rNym, ipk, disclosure, msg, rhIndex, ALG_NO_REVOCATION, rnd);
            sig.Success? ==>
              && sig.value.aPrime == Mul(c.q, cred.a, rnd.r1)
              && sig.value.aBar == Sub(c.q, Mul(c.q, cred.b, rnd.r1), Mul(c.q, sig.value.aPrime, cred.e))
              && sig.value.bPrime == Sub(c.q, Mul(c.q, cred.b, rnd.r1), Mul(c.q, ipk.hRand, rnd.r2))
              && sig.value.nym == nym
              && sig.value.proofSSk == Modadd(rnd.rSk, (sig.value.proofC * sk) % c.q, c.q)
  {
    hide Modsub, Modadd, Dot, Gather, Hidden, Responses, Sub, Mul2, Mul, Challenge, Transcript, Inverse;
  }

  lemma SameNym(c: Curve, hash': Bytes -> nat, sk: int, ipk: IssuerPublicKey, rNym: int)
    requires c.q > 0
    ensures MakeNym(c, sk, ipk, rNym) == MakeNym(c.(hash := hash'), sk, ipk, rNym)
  {
  }

  lemma HashFree(c: Curve, hash': Bytes -> nat, sig: Signature, disclosure: Bytes, ipk: IssuerPublicKey, values: seq<int>)
    requires c.q > 0 && |ipk.hAttrs| == |values| == |disclosure| && |sig.proofSAttrs| == |Hidden(disclosure)|
    ensures VerT1(c, sig, ipk) == VerT1(c.(hash := hash'), sig, ipk)
    ensures VerT2(c, sig, disclosure, ipk, values) == VerT2(c.(hash := hash'), sig, disclosure, ipk, values)
    ensures VerT3(c, sig, ipk) == VerT3(c.(hash := hash'), sig, ipk)
  {
  }

  lemma ExtractsBack(q: int, r: int, k: int, k': int, x: int, d: int)
    requires q > 0 && Cong((k - k') * d, 1, q)
    ensures Cong(Extracted(Modadd(r, (k * x) % q, q), Modadd(r, (k' * x) % q, q), d), x, q)
  {
    ResponseCong(r, k, x, q);
    ResponseCong(r, k', x, q);
    var s, s' := Modadd(r, (k * x) % q, q), Modadd(r, (k' * x) % q, q);
    CongAdd(s, r + k * x, s', r + k' * x, q);
    CongMul(s - s', (r + k * x) - (r + k' * x), d, d, q);
    BackIdentity(r, k, k', x, d);
    CongMul(x, x, (k - k') * d, 1, q);
    CongTrans((s - s') * d, x * ((k - k') * d), x * 1, q);
  }

  lemma BackIdentity(r: int, k: int, k': int, x: int, d: int)
    ensures ((r + k * x) - (r + k' * x)) * d == x * ((k - k') * d) && x * 1 == x
  {
    assert (r + k * x) - (r + k' * x) == x * (k - k');
  }
}
