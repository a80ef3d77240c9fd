/** The chameleon hash of block data and the collision made with its trapdoor
    (blockfile_mgr.go: chameleonHash, generateCollision; protoutil/blockutils.go: chameleonHash). */
module Chameleon {
  import opened Basics
  import opened ModArith

  // ----- number encodings -----

  function HexDigit(d: nat): byte
    requires d < 16
  {
    if d < 10 then (48 + d) as byte else (87 + d) as byte
  }

  predicate IsHexDigit(b: byte)
  {
    48 <= b <= 57 || 65 <= b <= 70 || 97 <= b <= 102
  }

  function HexValue(b: byte): nat
    requires IsHexDigit(b)
  {
    if b <= 57 then b as nat - 48 else if b <= 70 then b as nat - 55 else b as nat - 87
  }

  predicate IsHex(s: Bytes)
  {
    s != [] && forall i :: 0 <= i < |s| ==> IsHexDigit(s[i])
  }

  /** The value of an unsigned numeral in base 16. */
  function FromHex(s: Bytes): nat
    requires forall i :: 0 <= i < |s| ==> IsHexDigit(s[i])
  {
    if s == [] then 0 else FromHex(s[..|s| - 1]) * 16 + HexValue(s[|s| - 1])
  }

  /** The %x format of a non-negative big.Int. */
  function ToHex(n: nat): (s: Bytes)
    ensures IsHex(s)
  {
    if n < 16 then [HexDigit(n)] else ToHex(n / 16) + [HexDigit(n % 16)]
  }

  lemma {:induction false} HexRoundTrip(n: nat)
    ensures FromHex(ToHex(n)) == n
  {
    var s := ToHex(n);
    if n < 16 {
      assert s[..0] == [];
    } else {
      HexRoundTrip(n / 16);
      assert s[..|s| - 1] == ToHex(n / 16);
    }
  }

  /** The %x format of any big.Int. */
  function Format(n: int): Bytes
  {
    if n < 0 then [45] + ToHex(-n) else ToHex(n)
  }

  /** A way to read text as a number, SetString in base 16, that reads back what %x writes. What it
      makes of other text is left open. */
  ghost predicate ReadsHex(read: Bytes -> int)
  {
    forall n: nat :: read(ToHex(n)) == n
  }

  /** Unsigned numerals read by their value, other text in some way. */
  function HexReader(otherwise: Bytes -> int): Bytes -> int
  {
    s => if IsHex(s) then FromHex(s) else otherwise(s)
  }

  lemma HexIsRead(otherwise: Bytes -> int)
    ensures ReadsHex(HexReader(otherwise))
  {
    forall n: nat ensures FromHex(ToHex(n)) == n {
      HexRoundTrip(n);
    }
  }

  /** big.Int's Bytes: big endian, without leading zeros. */
  function ToBytes(n: nat): Bytes
  {
    if n == 0 then [] else ToBytes(n / 256) + [(n % 256) as byte]
  }

  function FromBytes(s: Bytes): nat
  {
    if s == [] then 0 else FromBytes(s[..|s| - 1]) * 256 + s[|s| - 1] as nat
  }

  lemma {:induction false} BytesRoundTrip(n: nat)
    ensures FromBytes(ToBytes(n)) == n
  {
    if n > 0 {
      BytesRoundTrip(n / 256);
      var s := ToBytes(n);
      assert s[..|s| - 1] == ToBytes(n / 256);
    }
  }

  // ----- powers -----

  function Pow(x: int, n: nat): int
  {
    if n == 0 then 1 else x * Pow(x, n - 1)
  }

  /** big.Int's Exp with a positive modulus. */
  function Exp(x: int, n: nat, m: int): nat
    requires m > 0
  {
    Pow(x, n) % m
  }

  lemma {:induction false} PowAdd(x: int, a: nat, b: nat)
    ensures Pow(x, a + b) == Pow(x, a) * Pow(x, b)
  {
    if a > 0 {
      PowAdd(x, a - 1, b);
      assert x * (Pow(x, a - 1) * Pow(x, b)) == x * Pow(x, a - 1) * Pow(x, b);
    }
  }

  lemma {:induction false} PowMul(x: int, a: nat, b: nat)
    ensures Pow(x, a * b) == Pow(Pow(x, a), b)
  {
    if b > 0 {
      PowMul(x, a, b - 1);
      assert a * b == a + a * (b - 1);
      PowAdd(x, a, a * (b - 1));
    } else {
      assert a * 0 == 0;
    }
  }

  lemma {:induction false} PowCong(x: int, y: int, n: nat, m: int)
    requires m > 0 && Cong(x, y, m)
    ensures Cong(Pow(x, n), Pow(y, n), m)
  {
    if n > 0 {
      PowCong(x, y, n - 1, m);
      CongMul(x, y, Pow(x, n - 1), Pow(y, n - 1), m);
    }
  }

  lemma {:induction false} PowOne(n: nat)
    ensures Pow(1, n) == 1
  {
    if n > 0 {
      PowOne(n - 1);
    }
  }

  /** Exponents count modulo the order of the base. */
  lemma ExponentsCong(g: int, a: nat, b: nat, q: int, p: int)
    requires p > 0 && q > 0 && Cong(Pow(g, q), 1, p) && Cong(a, b, q)
    ensures Cong(Pow(g, a), Pow(g, b), p)
  {
    if a < b {
      ExponentsCongUp(g, b, a, q, p);
    } else {
      ExponentsCongUp(g, a, b, q, p);
    }
  }

  lemma ExponentsCongUp(g: int, a: nat, b: nat, q: int, p: int)
    requires p > 0 && q > 0 && Cong(Pow(g, q), 1, p) && Cong(a, b, q) && a >= b
    ensures Cong(Pow(g, a), Pow(g, b), p)
  {
    var j := CongWitness(a, b, q);
    assert j >= 0 by {
      Multiple(q, j);
    }
    PowAdd(g, b, q * j);
    PowMul(g, q, j);
    PowCong(Pow(g, q), 1, j, p);
    PowOne(j);
    CongMul(Pow(g, b), Pow(g, b), Pow(g, q * j), 1, p);
    assert Pow(g, b) * 1 == Pow(g, b);
  }

  // ----- the hash -----

  /** The public parameters, the digest (SHA-256 read as a number), how text is read as a number, and
      what Exp makes of a negative exponent. */
  datatype Parameters = Parameters(p: int, q: int, g: int, hk: int, digest: Bytes -> nat, read: Bytes -> int,
                                   negative: (int, int, int) -> int)

  function Power(c: Parameters, x: int, n: int): int
    requires c.p > 0
  {
    if n < 0 then c.negative(x, n, c.p) else Exp(x, n, c.p)
  }

  /** chameleonHash on numbers. */
  function HashNumber(c: Parameters, message: Bytes, r: int, s: int): nat
    requires c.p > 0 && c.q > 0
  {
    var e := c.digest(message + Format(r));
    (r - (Exp(c.hk, e, c.p) * Power(c, c.g, s)) % c.p) % c.q
  }

  /** chameleonHash on the text that the source passes around, whatever it is. */
  function ChameleonHash(c: Parameters, message: Bytes, r: Bytes, s: Bytes): Bytes
    requires c.p > 0 && c.q > 0
  {
    ToBytes(HashNumber(c, message, c.read(r), c.read(s)))
  }

  /** generateCollision with the trapdoor tk and the drawn number k. */
  function GenerateCollision(c: Parameters, tk: int, msg1: Bytes, msg2: Bytes, r1: Bytes, s1: Bytes, k: nat): (Bytes, Bytes)
    requires c.p > 0 && c.q > 0
  {
    var h := FromBytes(ChameleonHash(c, msg1, r1, s1));
    var r2 := (h + Exp(c.g, k, c.p)) % c.q;
    var e := c.digest(msg2 + Format(r2));
    (Format(r2), Format(Answer(c.q, tk, e, k)))
  }

  /** The exponent s2 that the trapdoor answers a digest with. */
  function Answer(q: int, tk: int, e: nat, k: nat): nat
    requires q > 0
  {
    (k - (e * tk) % q) % q
  }

  /** hk to the e times g to the s2 is g to the k. */
  lemma TrapdoorExponent(c: Parameters, tk: nat, e: nat, k: nat, s2: nat)
    requires c.p > 0 && c.q > 0 && Cong(Pow(c.g, c.q), 1, c.p) && Cong(c.hk, Pow(c.g, tk), c.p)
    requires s2 == (k - (e * tk) % c.q) % c.q
    ensures (Exp(c.hk, e, c.p) * Exp(c.g, s2, c.p)) % c.p == Exp(c.g, k, c.p)
  {
    var p, q, g := c.p, c.q, c.g;
    CongMod(Pow(c.hk, e), p);
    CongMod(Pow(g, s2), p);
    CongMul(Exp(c.hk, e, p), Pow(c.hk, e), Exp(g, s2, p), Pow(g, s2), p);
    PowCong(c.hk, Pow(g, tk), e, p);
    PowMul(g, tk, e);
    CongMul(Pow(c.hk, e), Pow(g, tk * e), Pow(g, s2), Pow(g, s2), p);
    PowAdd(g, tk * e, s2);
    SumOfExponents(e * tk, k, s2, q);
    assert tk * e == e * tk;
    ExponentsCong(g, tk * e + s2, k, q, p);
  }

  lemma SumOfExponents(x: nat, k: nat, s2: nat, q: int)
    requires q > 0 && s2 == (k - x % q) % q
    ensures Cong(x + s2, k, q)
  {
    CongMod(x, q);
    CongMod(k - x % q, q);
    CongAdd(x, x % q, s2, k - x % q, q);
  }

  /** g has an order dividing q, and hk is g to the tk. */
  ghost predicate Sound(c: Parameters, tk: int)
    requires c.p > 0 && c.q > 0
  {
    tk >= 0 && Cong(Pow(c.g, c.q), 1, c.p) && Cong(c.hk, Pow(c.g, tk), c.p)
  }

  /** If g has an order dividing q and hk is g to the tk, the collision collides: for all messages,
      all texts r1 and s1 and every drawn k, the new message hashes to the old value. */
  lemma CollisionCollides(c: Parameters, tk: int, msg1: Bytes, msg2: Bytes, r1: Bytes, s1: Bytes, k: nat)
    requires c.p > 0 && c.q > 0 && ReadsHex(c.read) && Sound(c, tk)
    ensures var (r2, s2) := GenerateCollision(c, tk, msg1, msg2, r1, s1, k);
            ChameleonHash(c, msg2, r2, s2) == ChameleonHash(c, msg1, r1, s1)
  {
    hide Pow, Exp, Format, ToBytes, FromBytes, Cong, HashNumber, Sound, Answer, ReadsHex;
    var h := HashNumber(c, msg1, c.read(r1), c.read(s1));
    BytesRoundTrip(h);
    var r2 := (h + Exp(c.g, k, c.p)) % c.q;
    var s2 := Answer(c.q, tk, c.digest(msg2 + Format(r2)), k);
    ReadsBack(c.read, r2);
    ReadsBack(c.read, s2);
    HashBounded(c, msg1, c.read(r1), c.read(s1));
    SameNumber(c, tk, msg2, h, k, r2, s2);
  }

  /** With the reader of hexadecimal numerals nothing is left to ask of how text is read. */
  lemma HexCollides(c: Parameters, otherwise: Bytes -> int, tk: int, msg1: Bytes, msg2: Bytes, r1: Bytes, s1: Bytes, k: nat)
    requires c.p > 0 && c.q > 0 && Sound(c, tk) && c.read == HexReader(otherwise)
    ensures var (r2, s2) := GenerateCollision(c, tk, msg1, msg2, r1, s1, k);
            ChameleonHash(c, msg2, r2, s2) == ChameleonHash(c, msg1, r1, s1)
  {
    hide Sound, GenerateCollision, ChameleonHash, HexReader, ReadsHex;
    HexIsRead(otherwise);
    CollisionCollides(c, tk, msg1, msg2, r1, s1, k);
  }

  lemma ReadsBack(read: Bytes -> int, n: nat)
    requires ReadsHex(read)
    ensures read(Format(n)) == n
  {
  }

  lemma HashBounded(c: Parameters, message: Bytes, r: int, s: int)
    requires c.p > 0 && c.q > 0
    ensures HashNumber(c, message, r, s) < c.q
  {
  }

  lemma SameNumber(c: Parameters, tk: int, msg2: Bytes, h: nat, k: nat, r2: nat, s2: nat)
    requires c.p > 0 && c.q > 0 && h < c.q && Sound(c, tk)
    requires r2 == (h + Exp(c.g, k, c.p)) % c.q
    requires s2 == Answer(c.q, tk, c.digest(msg2 + Format(r2)), k)
    ensures HashNumber(c, msg2, r2, s2) == h
  {
    hide Pow, Exp, Format, Cong, HashNumber;
    var x := Exp(c.g, k, c.p);
    TrapdoorExponent(c, tk, c.digest(msg2 + Format(r2)), k, s2);
    HashIs(c, msg2, r2, s2, x);
    Uncover(h, x, c.q, r2);
  }

  lemma HashIs(c: Parameters, message: Bytes, r: nat, s: nat, x: int)
    requires c.p > 0 && c.q > 0
    requires (Exp(c.hk, c.digest(message + Format(r)), c.p) * Exp(c.g, s, c.p)) % c.p == x
    ensures HashNumber(c, message, r, s) == (r - x) % c.q
  {
    hide Exp, Format;
  }

  lemma Uncover(h: nat, x: int, q: int, r: int)
    requires q > 0 && h < q && r == (h + x) % q
    ensures (r - x) % q == h
  {
    CongMod(h + x, q);
    CongAdd(r, h + x, x, x, q);
    DivUnique(h, q, 0, h);
  }
}

/** The same two functions as they run: on temporaries that are overwritten step by step, with all
    parameters passed as text. */
module ChameleonSteps {
  import opened Basics
  import opened Chameleon

  /** The library: SHA-256, SetString in base 16, Exp with a negative exponent. */
  datatype Library = Library(digest: Bytes -> nat, read: Bytes -> int, negative: (int, int, int) -> int)

  function Read(lib: Library, hk: Bytes, p: Bytes, q: Bytes, g: Bytes): Parameters
  {
    Parameters(lib.read(p), lib.read(q), lib.read(g), lib.read(hk), lib.digest, lib.read, lib.negative)
  }

  /** The moduli are numbers above zero; the source passes constants. */
  predicate Readable(lib: Library, p: Bytes, q: Bytes)
  {
    lib.read(p) > 0 && lib.read(q) > 0
  }

  method Hash(lib: Library, hk: Bytes, p: Bytes, q: Bytes, g: Bytes, message: Bytes, r: Bytes, s: Bytes)
    returns (hashOut: Bytes)
    requires Readable(lib, p, q)
    ensures hashOut == ChameleonHash(Read(lib, hk, p, q, g), message, r, s)
  {
    hide Pow, ToHex, ToBytes, Exp, Format;
    var pBig, qBig, gBig, hkBig := lib.read(p), lib.read(q), lib.read(g), lib.read(hk);
    var rBig, sBig := lib.read(r), lib.read(s);
    var eBig := lib.digest(message + Format(rBig));
    var hkeBig := Exp(hkBig, eBig, pBig);
    var gsBig := if sBig < 0 then lib.negative(gBig, sBig, pBig) else Exp(gBig, sBig, pBig);
    var tmpBig := hkeBig * gsBig;
    tmpBig := tmpBig % pBig;
    var hBig := rBig - tmpBig;
    hBig := hBig % qBig;
    hashOut := ToBytes(hBig);
  }

  /** generateCollision, k being the number drawn: what it returns collides, if the parameters are
      what they should be. */
  method Collide(lib: Library, hk: Bytes, tk: Bytes, p: Bytes, q: Bytes, g: Bytes,
                 msg1: Bytes, msg2: Bytes, r1: Bytes, s1: Bytes, k: nat)
    returns (r2: Bytes, s2: Bytes)
    requires Readable(lib, p, q)
    ensures var c := Read(lib, hk, p, q, g);
            && (r2, s2) == GenerateCollision(c, lib.read(tk), msg1, msg2, r1, s1, k)
            && (ReadsHex(lib.read) && Sound(c, lib.read(tk)) ==>
                  ChameleonHash(c, msg2, r2, s2) == ChameleonHash(c, msg1, r1, s1))
  {
    hide Pow, ToHex, FromBytes, ChameleonHash, Exp, Sound, Format;
    var pBig, qBig, gBig, tkBig := lib.read(p), lib.read(q), lib.read(g), lib.read(tk);
    var hash := Hash(lib, hk, p, q, g, msg1, r1, s1);
    var hBig := FromBytes(hash);
    var tmpBig := Exp(gBig, k, pBig);
    var r2Big := hBig + tmpBig;
    r2Big := r2Big % qBig;
    var eBig := lib.digest(msg2 + Format(r2Big));
    tmpBig := eBig * tkBig;
    tmpBig := tmpBig % qBig;
    var s2Big := k - tmpBig;
    s2Big := s2Big % qBig;
    assert s2Big == Answer(qBig, tkBig, eBig, k);
    r2 := Format(r2Big);
    s2 := Format(s2Big);
    if ReadsHex(lib.read) && Sound(Read(lib, hk, p, q, g), tkBig) {
      CollisionCollides(Read(lib, hk, p, q, g), tkBig, msg1, msg2, r1, s1, k);
    }
  }
}
