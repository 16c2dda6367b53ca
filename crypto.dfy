/**
 * The cryptographic vocabulary of the mechanisms. The hash functions, HMAC,
 * PBKDF2, SASLprep and base64 decoding come from Ruby's digest, openssl and
 * idn libraries and stay abstract: they are inputs of the mechanisms, and
 * only the length of their output is fixed. Byte-wise XOR and base64
 * encoding (`Array#pack("m")` and `pack("m0")`) are written out.
 */
module Crypto {
  import opened Strings

  /** The hash functions a SCRAM mechanism can be parameterised by. */
  datatype HashAlg = SHA1 | SHA224 | SHA256 | SHA384 | SHA512

  /** `OpenSSL::Digest#digest_length`. */
  function DigestLength(h: HashAlg): nat {
    match h
    case SHA1 => 20
    case SHA224 => 28
    case SHA256 => 32
    case SHA384 => 48
    case SHA512 => 64
  }

  /** MD5 (`Digest::MD5.digest`): some function from bytes to 16 bytes. */
  type Md5 = f: Bytes -> Bytes | forall m :: |f(m)| == 16
    witness (m: Bytes) => Repeat('\0', 16)

  /** The library functions a SCRAM exchange calls. */
  datatype ScramPrimitives = ScramPrimitives(
    /** `OpenSSL::Digest#digest` */
    digest: (HashAlg, Bytes) -> Bytes,
    /** `OpenSSL::HMAC.digest(hash, key, data)` */
    hmac: (HashAlg, Bytes, Bytes) -> Bytes,
    /** `OpenSSL::KDF.pbkdf2_hmac(password, salt:, iterations:, length: digest_length, hash:)` */
    pbkdf2: (HashAlg, Bytes, Bytes, int) -> Bytes,
    /** `IDN::Stringprep.with_profile(s, "SASLprep")` */
    saslprep: Bytes -> Bytes,
    /** `String#unpack("m").first` */
    unpackBase64: Bytes -> Bytes)

  /** Every digest, HMAC and derived key is `digest_length` bytes long. */
  ghost predicate DigestLengths(p: ScramPrimitives) {
    && (forall h, m :: |p.digest(h, m)| == DigestLength(h))
    && (forall h, k, m :: |p.hmac(h, k, m)| == DigestLength(h))
    && (forall h, pw, salt, i :: |p.pbkdf2(h, pw, salt, i)| == DigestLength(h))
  }

  type ScramSuite = p: ScramPrimitives | DigestLengths(p)
    witness ScramPrimitives(
      (h, m) => Repeat('\0', DigestLength(h)),
      (h, k, m) => Repeat('\0', DigestLength(h)),
      (h, pw, salt, i) => Repeat('\0', DigestLength(h)),
      (s: Bytes) => s,
      (s: Bytes) => s)

  function Pow2(k: nat): (p: nat)
    ensures p >= 1
  {
    if k == 0 then 1 else 2 * Pow2(k - 1)
  }

  /** Bit-wise exclusive or of two natural numbers (Ruby's `Integer#^`). */
  function XorBits(a: nat, b: nat): nat
    decreases a + b
  {
    if a == 0 && b == 0 then 0 else (a % 2 + b % 2) % 2 + 2 * XorBits(a / 2, b / 2)
  }

  /** XOR of two k-bit numbers is a k-bit number. */
  lemma {:induction false} XorBitsBound(a: nat, b: nat, k: nat)
    requires a < Pow2(k) && b < Pow2(k)
    ensures XorBits(a, b) < Pow2(k)
    decreases k
  {
    if k > 0 && (a != 0 || b != 0) {
      XorBitsBound(a / 2, b / 2, k - 1);
    }
  }

  /** The lowest bit of `XorBits(a, b)` and the bits above it. */
  lemma XorBitsUnfold(a: nat, b: nat)
    ensures XorBits(a, b) % 2 == (a % 2 + b % 2) % 2
    ensures XorBits(a, b) / 2 == XorBits(a / 2, b / 2)
  {
    var low := (a % 2 + b % 2) % 2;
    if a == 0 && b == 0 {
      assert XorBits(a / 2, b / 2) == 0;
    } else {
      var high := XorBits(a / 2, b / 2);
      assert XorBits(a, b) == low + 2 * high;
      LowAndHigh(low, high);
    }
  }

  /** A bit and the number above it, put together and taken apart again. */
  lemma LowAndHigh(low: nat, high: nat)
    requires low < 2
    ensures (low + 2 * high) % 2 == low && (low + 2 * high) / 2 == high
  {
  }

  /** XOR with the same mask twice gives the number back. */
  lemma {:induction false} XorBitsInvolution(a: nat, b: nat)
    ensures XorBits(XorBits(a, b), b) == a
    decreases a + b
  {
    if a != 0 || b != 0 {
      var x := XorBits(a, b);
      XorBitsUnfold(a, b);
      XorBitsUnfold(x, b);
      XorBitsInvolution(a / 2, b / 2);
      var y := XorBits(x, b);
      assert y / 2 == a / 2;
      assert y % 2 == a % 2 by {
        ParityXorTwice(a % 2, b % 2);
      }
      assert y == 2 * (y / 2) + y % 2;
      assert a == 2 * (a / 2) + a % 2;
    }
  }

  lemma ParityXorTwice(p: nat, q: nat)
    requires p < 2 && q < 2
    ensures ((p + q) % 2 + q) % 2 == p
  {
  }

  function XorByte(a: Byte, b: Byte): (r: Byte) {
    XorBitsBound(a as int, b as int, 8);
    XorBits(a as int, b as int) as char
  }

  /** `a.bytes.zip(b.bytes).map { |x, y| (x ^ y).chr }.join` for strings of equal length. */
  function XorBytes(a: Bytes, b: Bytes): (r: Bytes)
    requires |a| == |b|
    ensures |r| == |a|
    ensures forall i :: 0 <= i < |a| ==> r[i] == XorByte(a[i], b[i])
  {
    if a == [] then [] else [XorByte(a[0], b[0])] + XorBytes(a[1..], b[1..])
  }

  /** XOR-ing with the same string twice gives the first string back. */
  lemma XorBytesInvolution(a: Bytes, b: Bytes)
    requires |a| == |b|
    ensures XorBytes(XorBytes(a, b), b) == a
  {
    forall i | 0 <= i < |a|
      ensures XorBytes(XorBytes(a, b), b)[i] == a[i]
    {
      XorBitsBound(a[i] as int, b[i] as int, 8);
      XorBitsInvolution(a[i] as int, b[i] as int);
    }
  }

  /** The characters base64 output is made of: the 64 digits of section 4 of RFC 4648 and the pad `=`. */
  predicate IsBase64Char(c: Byte) {
    ('A' <= c <= 'Z') || ('a' <= c <= 'z') || ('0' <= c <= '9') || c == '+' || c == '/' || c == '='
  }

  /** The base64 digit for a six-bit value. */
  function Sextet(v: nat): (c: Byte)
    requires v < 64
    ensures IsBase64Char(c) && c != '='
  {
    if v < 26 then ('A' as int + v) as char
    else if v < 52 then ('a' as int + v - 26) as char
    else if v < 62 then ('0' as int + v - 52) as char
    else if v == 62 then '+'
    else '/'
  }

  /** One to three bytes as four base64 characters, padded with `=`. */
  function Quantum(g: Bytes): (r: Bytes)
    requires 1 <= |g| <= 3
    ensures |r| == 4
    ensures forall i :: 0 <= i < 4 ==> IsBase64Char(r[i])
  {
    var b0 := g[0] as int;
    var b1 := if |g| > 1 then g[1] as int else 0;
    var b2 := if |g| > 2 then g[2] as int else 0;
    [Sextet(b0 / 4),
     Sextet((b0 % 4) * 16 + b1 / 16),
     if |g| > 1 then Sextet((b1 % 16) * 4 + b2 / 64) else '=',
     if |g| > 2 then Sextet(b2 % 64) else '=']
  }

  /** Base64 with padding and without line breaks: `Array#pack("m0")`, section 4 of RFC 4648. */
  function Base64(b: Bytes): (r: Bytes)
    ensures |r| == 4 * ((|b| + 2) / 3)
    ensures forall i :: 0 <= i < |r| ==> IsBase64Char(r[i])
  {
    if |b| == 0 then []
    else if |b| <= 3 then Quantum(b)
    else
      QuantaAfterFirst(|b|);
      Quantum(b[..3]) + Base64(b[3..])
  }

  /** Past three bytes, the rest needs one four-character group fewer. */
  lemma QuantaAfterFirst(n: nat)
    requires n > 3
    ensures 4 * ((n - 3 + 2) / 3) + 4 == 4 * ((n + 2) / 3)
  {
    assert (n - 3 + 2) / 3 == (n + 2) / 3 - 1;
  }

  /** The six-bit value of a base64 digit, the inverse of `Sextet`. */
  function SextetValue(c: Byte): (v: nat)
    ensures v < 64
  {
    if 'A' <= c <= 'Z' then c as int - 'A' as int
    else if 'a' <= c <= 'z' then c as int - 'a' as int + 26
    else if '0' <= c <= '9' then c as int - '0' as int + 52
    else if c == '+' then 62
    else 63
  }

  lemma SextetValueInverse(v: nat)
    requires v < 64
    ensures SextetValue(Sextet(v)) == v
  {
  }

  /** Four base64 characters back to the one to three bytes they encode; `=` ends the group. */
  function QuantumValue(q: Bytes): (g: Bytes)
    requires |q| == 4
    ensures 1 <= |g| <= 3
  {
    var s0, s1 := SextetValue(q[0]), SextetValue(q[1]);
    var b0 := (s0 * 4 + s1 / 16) as char;
    if q[2] == '=' then [b0]
    else
      var s2 := SextetValue(q[2]);
      var b1 := ((s1 % 16) * 16 + s2 / 4) as char;
      if q[3] == '=' then [b0, b1]
      else [b0, b1, ((s2 % 4) * 64 + SextetValue(q[3])) as char]
  }

  /** Decoding of padded base64 without line breaks, four characters at a time (section 4 of RFC 4648). */
  function Unbase64(s: Bytes): Bytes
    requires |s| % 4 == 0
  {
    if s == [] then [] else QuantumValue(s[..4]) + Unbase64(s[4..])
  }

  /** A high part and a low part below `d` are taken apart again by `/ d` and `% d`, for the bases base64 uses. */
  lemma TakeApart(hi: nat, lo: nat, d: nat)
    requires d == 4 || d == 16 || d == 64
    requires lo < d
    ensures (hi * d + lo) / d == hi && (hi * d + lo) % d == lo
  {
    if d == 4 {
      assert hi * d + lo == 4 * hi + lo;
    } else if d == 16 {
      assert hi * d + lo == 16 * hi + lo;
    } else {
      assert hi * d + lo == 64 * hi + lo;
    }
  }

  /** Four digits decode to the bytes their sextets spell, with `=` cutting the group short. */
  lemma QuantumDigitsValue(a: nat, b: nat, c: nat, d: nat, n: nat, x: Bytes)
    requires a < 64 && b < 64 && c < 64 && d < 64 && 1 <= n <= 3 && |x| == 3
    requires x[0] as int == a * 4 + b / 16 && x[1] as int == (b % 16) * 16 + c / 4 && x[2] as int == (c % 4) * 64 + d
    ensures QuantumValue([Sextet(a), Sextet(b), if n > 1 then Sextet(c) else '=', if n > 2 then Sextet(d) else '='])
         == x[..n]
  {
    SextetValueInverse(a);
    SextetValueInverse(b);
    SextetValueInverse(c);
    SextetValueInverse(d);
  }

  /** Three bytes cut into four sextets and put back together again. */
  lemma GroupBytesBack(g0: nat, g1: nat, g2: nat)
    requires g0 < 256 && g1 < 256 && g2 < 256
    ensures var a, b, c, d := g0 / 4, (g0 % 4) * 16 + g1 / 16, (g1 % 16) * 4 + g2 / 64, g2 % 64;
      a * 4 + b / 16 == g0 && (b % 16) * 16 + c / 4 == g1 && (c % 4) * 64 + d == g2
  {
    TakeApart(g0 % 4, g1 / 16, 16);
    TakeApart(g1 % 16, g2 / 64, 4);
  }

  /** The sextets of a group of one to three bytes, missing bytes read as zero. */
  function GroupSextets(g: Bytes): (s: seq<nat>)
    requires 1 <= |g| <= 3
    ensures |s| == 4 && s[0] < 64 && s[1] < 64 && s[2] < 64 && s[3] < 64
  {
    var g0 := g[0] as int;
    var g1 := if |g| > 1 then g[1] as int else 0;
    var g2 := if |g| > 2 then g[2] as int else 0;
    [g0 / 4, (g0 % 4) * 16 + g1 / 16, (g1 % 16) * 4 + g2 / 64, g2 % 64]
  }

  lemma QuantumIsDigits(g: Bytes)
    requires 1 <= |g| <= 3
    ensures var s := GroupSextets(g);
      Quantum(g) == [Sextet(s[0]), Sextet(s[1]), if |g| > 1 then Sextet(s[2]) else '=', if |g| > 2 then Sextet(s[3]) else '=']
  {
  }

  /** The group padded with zero bytes is what its sextets spell. */
  lemma SextetsSpell(g: Bytes)
    requires 1 <= |g| <= 3
    ensures var x := g + seq(3 - |g|, _ => '\0');
      var s := GroupSextets(g);
      |x| == 3 && x[..|g|] == g && x[0] as int == s[0] * 4 + s[1] / 16
      && x[1] as int == (s[1] % 16) * 16 + s[2] / 4 && x[2] as int == (s[2] % 4) * 64 + s[3]
  {
    var x := g + seq(3 - |g|, _ => '\0');
    assert x[..|g|] == g;
    GroupBytesBack(x[0] as int, x[1] as int, x[2] as int);
  }

  /** One group decodes to the bytes it was made from. */
  lemma QuantumRoundTrip(g: Bytes)
    requires 1 <= |g| <= 3
    ensures QuantumValue(Quantum(g)) == g
  {
    var s := GroupSextets(g);
    var x := g + seq(3 - |g|, _ => '\0');
    SextetsSpell(g);
    QuantumIsDigits(g);
    QuantumDigitsValue(s[0], s[1], s[2], s[3], |g|, x);
  }

  lemma MultipleOfFour(n: nat)
    ensures (4 * n) % 4 == 0
  {
  }

  /** Base64 loses nothing: decoding the text gives the bytes back. */
  lemma {:induction false} Base64RoundTrip(b: Bytes)
    ensures |Base64(b)| % 4 == 0 && Unbase64(Base64(b)) == b
    decreases |b|
  {
    var e := Base64(b);
    MultipleOfFour((|b| + 2) / 3);
    if 0 < |b| <= 3 {
      QuantumRoundTrip(b);
      assert e[..4] == e && e[4..] == [];
    } else if |b| > 3 {
      var q, rest := Quantum(b[..3]), Base64(b[3..]);
      assert e == q + rest;
      Base64RoundTrip(b[3..]);
      QuantumRoundTrip(b[..3]);
      assert e[..4] == q && e[4..] == rest;
      assert b == b[..3] + b[3..];
    }
  }

  /** `Array#pack("m")`: the input in lines of 45 bytes, each line base64-encoded and ended by "\n". */
  function PackM(b: Bytes): Bytes
    decreases |b|
  {
    if |b| == 0 then []
    else if |b| <= 45 then Base64(b) + "\n"
    else Base64(b[..45]) + "\n" + PackM(b[45..])
  }
}
