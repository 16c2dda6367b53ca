/**
 * The CRAM-MD5 mechanism (section 2 of RFC 2195; lib/net/sasl/cram_md5_authenticator.rb).
 * The response is the username, a space, and the hexadecimal HMAC-MD5 of
 * the challenge keyed with the password, computed by hand as in section 2
 * of RFC 2104. The authenticator has no state that `process` changes and it
 * never reports completion.
 */
module CramMD5 {
  import opened Strings
  import opened Errors
  import opened Crypto
  import Base

  /** `initialize(username, password, **_options)`: exactly two positional arguments, so no authzid. */
  predicate AcceptsPositional(n: nat) {
    n == 2
  }

  /** The MD5 block size in bytes. */
  const BlockSize: nat := 64

  const IPad: Byte := '\U{36}'
  const OPad: Byte := '\U{5C}'

  /** The key as HMAC uses it: hashed to 16 bytes when longer than a block, then zero-padded to a block. */
  function KeyBlock(md5: Md5, key: Bytes): (k: Bytes)
    ensures |k| == BlockSize
  {
    var short := if |key| > BlockSize then md5(key) else key;
    short + Repeat(NUL, BlockSize - |short|)
  }

  /** The key block with every byte XORed with `mask` (k_ipad for 0x36, k_opad for 0x5c). */
  function PaddedKey(md5: Md5, key: Bytes, mask: Byte): (p: Bytes)
    ensures |p| == BlockSize
  {
    XorBytes(KeyBlock(md5, key), Repeat(mask, BlockSize))
  }

  /** HMAC-MD5 (section 2 of RFC 2104): MD5(K XOR opad, MD5(K XOR ipad, text)). */
  function HmacMd5Spec(md5: Md5, key: Bytes, text: Bytes): (h: Bytes)
    ensures |h| == 16
  {
    md5(PaddedKey(md5, key, OPad) + md5(PaddedKey(md5, key, IPad) + text))
  }

  /** The inner pad can be stripped off again: XOR with 0x36 recovers the key block. */
  lemma PadsRecoverKeyBlock(md5: Md5, key: Bytes)
    ensures XorBytes(PaddedKey(md5, key, IPad), Repeat(IPad, BlockSize)) == KeyBlock(md5, key)
    ensures XorBytes(PaddedKey(md5, key, OPad), Repeat(OPad, BlockSize)) == KeyBlock(md5, key)
  {
    XorBytesInvolution(KeyBlock(md5, key), Repeat(IPad, BlockSize));
    XorBytesInvolution(KeyBlock(md5, key), Repeat(OPad, BlockSize));
  }

  /**
   * A fresh buffer initialised to `block`, then XORed with `mask` one byte at a
   * time, in place, as the `(0..63).each` loop does to `k_ipad` and `k_opad`.
   */
  method XorPad(block: Bytes, mask: Byte) returns (p: array<Byte>)
    ensures fresh(p) && p[..] == XorBytes(block, Repeat(mask, |block|))
  {
    p := new Byte[|block|](i requires 0 <= i < |block| => block[i]);
    for i := 0 to |block|
      invariant forall j :: 0 <= j < i ==> p[j] == XorByte(block[j], mask)
      invariant p[i..] == block[i..]
    {
      p[i] := XorByte(p[i], mask);
    }
  }

  /** `hmac_md5(text, key)`: pads the key into two 64-byte buffers, XORs them byte by byte, then hashes twice. */
  method HmacMd5(md5: Md5, text: Bytes, key: Bytes) returns (digest: Bytes)
    ensures digest == Hex(HmacMd5Spec(md5, key, text))
  {
    var k := key;
    if |k| > BlockSize {
      k := md5(k);
    }
    var block := k + Repeat(NUL, BlockSize - |k|);
    assert block == KeyBlock(md5, key);
    var kIpad := XorPad(block, IPad);
    var kOpad := XorPad(block, OPad);
    var inner := md5(kIpad[..] + text);
    digest := Hex(md5(kOpad[..] + inner));
  }

  /** The reply is the username, one space, then the digest; both can be cut back out of it. */
  function Response(user: Bytes, digest: Bytes): (s: Bytes)
    ensures |s| == |user| + 1 + |digest|
    ensures s[..|user|] == user && s[|user|] == ' ' && s[|user| + 1..] == digest
  {
    user + " " + digest
  }

  class CramMD5Authenticator {
    const username: Option<Bytes>
    const password: Option<Bytes>
    const md5: Md5
    /** `@done` is set to false by the constructor and never changed. */
    const done: bool := false

    constructor (username: Option<Bytes>, password: Option<Bytes>, md5: Md5)
      ensures this.username == username && this.password == password && this.md5 == md5
      ensures !done
    {
      this.username := username;
      this.password := password;
      this.md5 := md5;
    }

    /** Inherited: CRAM-MD5 waits for the server's challenge. */
    function SupportsInitialResponse(): (b: bool)
      ensures !b
    {
      false
    }

    function Done(): bool {
      done
    }

    /**
     * The response "username hexdigest". `password.length` raises `NoMethodError` when
     * there is no password, and appending a `nil` challenge to the pad raises `TypeError`.
     * Nothing is changed, so the same challenge always gets the same response.
     */
    method Process(challenge: Base.Challenge) returns (r: Base.Reply)
      ensures password.None? ==> r == Raise(NoMethodError)
      ensures password.Some? && challenge.None? ==> r == Raise(TypeError)
      ensures password.Some? && challenge.Some? ==>
        r == Ok(Some(Response(Base.Str(username), Hex(HmacMd5Spec(md5, password.value, challenge.value)))))
      ensures !Done()
    {
      if password.None? {
        return Raise(NoMethodError);
      }
      if challenge.None? {
        return Raise(TypeError);
      }
      var digest := HmacMd5(md5, challenge.value, password.value);
      r := Ok(Some(Response(Base.Str(username), digest)));
    }
  }
}
