/** Identity Mixer credentials and signatures (idemix/credential.go, credrequest.go, signature.go,
    util.go). The groups G1, G2 and GT of prime order q are Z_q written additively: a point times a
    scalar is a product, the pairing of a and b is a * b. */
module Idemix {
  import opened Basics
  import opened ModArith

  const FIELD_BYTES := 32
  const G1_BYTES := 2 * FIELD_BYTES + 1
  const SIGN_LABEL: Bytes := [115, 105, 103, 110]
  const CRED_REQUEST_LABEL: Bytes := [99, 114, 101, 100, 82, 101, 113, 117, 101, 115, 116]

  /** The group order, the generators, the encodings of points and numbers, and the hash. */
  datatype Curve = Curve(q: int, g1: int, g2: int, g1Bytes: int -> Bytes, bigBytes: int -> Bytes, hash: Bytes -> nat)

  ghost predicate ValidCurve(c: Curve)
  {
    Prime(c.q) && forall x :: |c.g1Bytes(x)| == G1_BYTES && |c.bigBytes(x)| == FIELD_BYTES
  }

  datatype IssuerPublicKey = IssuerPublicKey(attributeNames: seq<string>, hSk: int, hRand: int, hAttrs: seq<int>,
                                             w: int, hash: Bytes)

  datatype IssuerKey = IssuerKey(isk: int, ipk: IssuerPublicKey)

  /** What NewIssuerKey makes. */
  ghost predicate ValidKey(c: Curve, key: IssuerKey)
    requires c.q > 0
  {
    && key.ipk.w == (c.g2 * key.isk) % c.q
    && |key.ipk.hAttrs| == |key.ipk.attributeNames|
    && |key.ipk.hash| == FIELD_BYTES
  }

  datatype CredRequest = CredRequest(nym: int, issuerNonce: Bytes, proofC: int, proofS: int)

  datatype Credential = Credential(a: int, b: int, e: int, s: int, attrs: seq<int>)

  datatype Signature = Signature(aPrime: int, aBar: int, bPrime: int, proofC: int, proofSSk: int, proofSE: int,
                                 proofSR2: int, proofSR3: int, proofSSPrime: int, proofSAttrs: seq<int>,
                                 nonce: int, nym: int, proofSRNym: int)

  /** The numbers NewSignature draws. */
  datatype Randomness = Randomness(r1: int, r2: int, nonce: int, rSk: int, re: int, rR2: int, rR3: int,
                                   rSPrime: int, rRNym: int, rAttrs: seq<int>)

  datatype Outcome<+T> = Success(value: T) | Failure | Panic

  const ALG_NO_REVOCATION := 0

  // ----- sums of products -----

  function Dot(hs: seq<int>, xs: seq<int>): int
    requires |hs| == |xs|
  {
    if hs == [] then 0
    else Dot(hs[..|hs| - 1], xs[..|xs| - 1]) + hs[|hs| - 1] * xs[|xs| - 1]
  }

  function Hidden(disclosure: Bytes): (r: seq<nat>)
    ensures forall i :: 0 <= i < |r| ==> r[i] < |disclosure|
  {
    if disclosure == [] then []
    else
      var n := |disclosure| - 1;
      Hidden(disclosure[..n]) + if disclosure[n] == 0 then [n] else []
  }

  function Gather(s: seq<int>, indices: seq<nat>): (r: seq<int>)
    requires forall i :: 0 <= i < |indices| ==> indices[i] < |s|
    ensures |r| == |indices|
  {
    seq(|indices|, i requires 0 <= i < |indices| => s[indices[i]])
  }

  /** Every disclosed position is below n. */
  predicate Enough(disclosure: Bytes, n: nat)
  {
    forall i :: 0 <= i < |disclosure| && disclosure[i] != 0 ==> i < n
  }

  function DisclosedSum(disclosure: Bytes, hs: seq<int>, xs: seq<int>): int
    requires |hs| >= |disclosure| && Enough(disclosure, |xs|)
  {
    if disclosure == [] then 0
    else
      var n := |disclosure| - 1;
      DisclosedSum(disclosure[..n], hs, xs) + if disclosure[n] != 0 then hs[n] * xs[n] else 0
  }

  /** Hidden and disclosed terms make the full sum. */
  lemma {:induction false} HiddenPlusDisclosed(disclosure: Bytes, hs: seq<int>, xs: seq<int>)
    requires |hs| >= |disclosure| && |xs| >= |disclosure|
    ensures Dot(hs[..|disclosure|], xs[..|disclosure|]) ==
            Dot(Gather(hs, Hidden(disclosure)), Gather(xs, Hidden(disclosure))) + DisclosedSum(disclosure, hs, xs)
  {
    if disclosure == [] {
      assert Hidden(disclosure) == [];
    } else {
      hide Dot, Gather, DisclosedSum;
      var n := |disclosure| - 1;
      var short := disclosure[..n];
      HiddenPlusDisclosed(short, hs, xs);
      DisclosedStep(disclosure, hs, xs);
      DotSnoc(hs[..n], hs[n], xs[..n], xs[n]);
      assert hs[..n] + [hs[n]] == hs[..n + 1] && xs[..n] + [xs[n]] == xs[..n + 1];
      if disclosure[n] == 0 {
        var h := Hidden(short);
        assert Hidden(disclosure) == h + [n];
        GatherSnoc(hs, h, n);
        GatherSnoc(xs, h, n);
        DotSnoc(Gather(hs, h), hs[n], Gather(xs, h), xs[n]);
      } else {
        assert Hidden(disclosure) == Hidden(short);
      }
    }
  }

  lemma DisclosedStep(disclosure: Bytes, hs: seq<int>, xs: seq<int>)
    requires |hs| >= |disclosure| && Enough(disclosure, |xs|) && disclosure != []
    ensures var n := |disclosure| - 1;
            DisclosedSum(disclosure, hs, xs) ==
            DisclosedSum(disclosure[..n], hs, xs) + if disclosure[n] != 0 then hs[n] * xs[n] else 0
  {
  }

  lemma GatherSnoc(s: seq<int>, indices: seq<nat>, n: nat)
    requires n < |s| && forall i :: 0 <= i < |indices| ==> indices[i] < |s|
    ensures Gather(s, indices + [n]) == Gather(s, indices) + [s[n]]
  {
  }

  lemma DotSnoc(hs: seq<int>, h: int, xs: seq<int>, x: int)
    requires |hs| == |xs|
    ensures Dot(hs + [h], xs + [x]) == Dot(hs, xs) + h * x
  {
    assert (hs + [h])[..|hs|] == hs && (xs + [x])[..|xs|] == xs;
  }

  /** Sums of products respect congruence of the scalars. */
  lemma {:induction false} DotLinear(hs: seq<int>, rs: seq<int>, xs: seq<int>, ss: seq<int>, k: int, q: int)
    requires q > 0 && |hs| == |rs| == |xs| == |ss|
    requires forall i :: 0 <= i < |hs| ==> Cong(ss[i], rs[i] + k * xs[i], q)
    ensures Cong(Dot(hs, ss), Dot(hs, rs) + k * Dot(hs, xs), q)
  {
    if hs != [] {
      var n := |hs| - 1;
      DotLinear(hs[..n], rs[..n], xs[..n], ss[..n], k, q);
      LinearStep(Dot(hs[..n], ss[..n]), Dot(hs[..n], rs[..n]), Dot(hs[..n], xs[..n]), hs[n], ss[n], rs[n], xs[n], k, q);
    }
  }

  lemma LinearStep(c: int, a: int, b: int, h: int, s: int, r: int, x: int, k: int, q: int)
    requires q > 0 && Cong(c, a + k * b, q) && Cong(s, r + k * x, q)
    ensures Cong(c + h * s, (a + h * r) + k * (b + h * x), q)
  {
    hide Cong;
    CongScale(h, s, r + k * x, q);
    CongAdd(c, a + k * b, h * s, h * (r + k * x), q);
    Regrouped(a, b, h, r, x, k);
  }

  lemma Regrouped(a: int, b: int, h: int, r: int, x: int, k: int)
    ensures a + k * b + h * (r + k * x) == (a + h * r) + k * (b + h * x)
  {
    assert h * (r + k * x) == h * r + h * (k * x);
    assert h * (k * x) == k * (h * x);
    assert k * (b + h * x) == k * b + k * (h * x);
  }

  // ----- points -----

  function Mul(q: int, p: int, x: int): int
    requires q > 0
  {
    (p * x) % q
  }

  function Mul2(q: int, p: int, x: int, r: int, y: int): int
    requires q > 0
  {
    (p * x + r * y) % q
  }

  function Add(q: int, p: int, r: int): int
    requires q > 0
  {
    (p + r) % q
  }

  function Sub(q: int, p: int, r: int): int
    requires q > 0
  {
    (p - r) % q
  }

  function Modadd(a: int, b: int, m: int): int
    requires m > 0
  {
    (a + b) % m
  }

  /** Modsub adds the negated second operand. */
  function Modsub(a: int, b: int, m: int): int
    requires m > 0
  {
    Modadd(a, (-b) % m, m)
  }

  lemma AddMods(a: int, b: int, q: int)
    requires q > 0
    ensures (a % q + b % q) % q == (a + b) % q && (a % q + b) % q == (a + b) % q && (a + b % q) % q == (a + b) % q
    ensures (a % q - b % q) % q == (a - b) % q && (a % q - b) % q == (a - b) % q && (a - b % q) % q == (a - b) % q
  {
    CongMod(a, q);
    CongMod(b, q);
    CongAdd(a % q, a, b % q, b, q);
    CongAdd(a % q, a, b, b, q);
    CongAdd(a, a, b % q, b, q);
  }

  lemma ModsubIsDifference(a: int, b: int, m: int)
    requires m > 0
    ensures Modsub(a, b, m) == (a - b) % m
  {
    CongMod(-b, m);
    CongAdd(a, a, (-b) % m, -b, m);
  }

  /** The pairwise loop with its odd residue, as used for B, B' and t2, adds the plain sum. */
  method AddProducts(q: int, start: int, hs: seq<int>, xs: seq<int>) returns (acc: int)
    requires q > 0 && |hs| == |xs|
    ensures acc % q == (start + Dot(hs, xs)) % q
    ensures hs != [] || 0 <= start < q ==> acc == (start + Dot(hs, xs)) % q
  {
    acc := start;
    var i := 0;
    assert hs[..0] == [] && xs[..0] == [];
    while i < |hs| / 2
      invariant 0 <= i <= |hs| / 2
      invariant i == 0 ==> acc == start
      invariant i > 0 ==> 0 <= acc < q
      invariant Cong(acc, start + Dot(hs[..2 * i], xs[..2 * i]), q)
    {
      ghost var sum := Dot(hs[..2 * i], xs[..2 * i]);
      ghost var pair := hs[2 * i] * xs[2 * i] + hs[2 * i + 1] * xs[2 * i + 1];
      DotTwo(hs, xs, 2 * i);
      CongMod(pair, q);
      CongAdd(acc, start + sum, pair % q, pair, q);
      acc := Add(q, acc, Mul2(q, hs[2 * i], xs[2 * i], hs[2 * i + 1], xs[2 * i + 1]));
      CongMod(start + sum + pair, q);
      i := i + 1;
    }
    if |hs| % 2 != 0 {
      ghost var n := |hs| - 1;
      ghost var sum := Dot(hs[..n], xs[..n]);
      assert 2 * i == n;
      ghost var last := hs[n] * xs[n];
      CongMod(last, q);
      CongAdd(acc, start + sum, last % q, last, q);
      acc := Add(q, acc, Mul(q, hs[|hs| - 1], xs[|hs| - 1]));
      CongMod(start + sum + last, q);
    } else {
      assert hs[..2 * i] == hs && xs[..2 * i] == xs;
    }
    CongMod(start + Dot(hs, xs), q);
    if 0 <= acc < q {
      DivUnique(acc, q, 0, acc);
    }
  }

  lemma DotTwo(hs: seq<int>, xs: seq<int>, n: nat)
    requires |hs| == |xs| && n + 2 <= |hs|
    ensures Dot(hs[..n + 2], xs[..n + 2]) == Dot(hs[..n], xs[..n]) + (hs[n] * xs[n] + hs[n + 1] * xs[n + 1])
  {
    assert hs[..n + 2] == hs[..n] + [hs[n]] + [hs[n + 1]];
    assert xs[..n + 2] == xs[..n] + [xs[n]] + [xs[n + 1]];
    DotSnoc(hs[..n], hs[n], xs[..n], xs[n]);
    DotSnoc(hs[..n] + [hs[n]], hs[n + 1], xs[..n] + [xs[n]], xs[n + 1]);
  }
}
