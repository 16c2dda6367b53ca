/**
 * The SCRAM-SHA-* mechanisms (RFC 5802; lib/net/sasl/scram_authenticator.rb).
 * The client speaks first with the GS2 header and its nonce; the server's
 * first message gives the combined nonce, the salt and the iteration count,
 * and the client answers with its proof; the server's final message carries
 * its signature, which the client checks before it reports completion.
 * The hash, HMAC, PBKDF2, SASLprep and base64 decoding are the abstract
 * functions of a `ScramSuite`; the hash is a parameter of the mechanism.
 */
module Scram {
  import opened Strings
  import opened Errors
  import opened Crypto
  import Base
  import opened Readings

  /** `initialize(username, password, authzid = nil, hash:, **options)`: two or three positional arguments. */
  predicate AcceptsPositional(n: nat) {
    2 <= n <= 3
  }

  // Server messages.

  const Comma: Byte := ','
  const EqualsSign: Byte := '='

  /** The attributes of a server message, keyed by name; a piece without a name is filed under `nil`. */
  type Attrs = map<Option<Bytes>, Option<Bytes>>

  /** Multiple assignment `k, v = parts`: the `n`-th piece, `nil` past the end. */
  function Piece(parts: seq<Bytes>, n: nat): (x: Option<Bytes>)
    ensures x.Some? <==> n < |parts|
    ensures x.Some? ==> x.value == parts[n]
  {
    if n < |parts| then Some(parts[n]) else None
  }

  /** The name of one attribute: the text before the first `=`. */
  function PairKey(pair: Bytes): Option<Bytes> {
    Piece(Split(pair, EqualsSign), 0)
  }

  /** The value of one attribute: the text between the first and the second `=`. */
  function PairValue(pair: Bytes): Option<Bytes> {
    Piece(Split(pair, EqualsSign), 1)
  }

  /** `each_with_object({}) { h[k] = v }` over the pieces: later attributes overwrite earlier ones. */
  function Collect(pairs: seq<Bytes>): (h: Attrs)
    decreases |pairs|
  {
    if pairs == [] then map[]
    else Collect(pairs[..|pairs| - 1])[PairKey(pairs[|pairs| - 1]) := PairValue(pairs[|pairs| - 1])]
  }

  /** The attributes of a server message: `challenge.split(/,/)`, then `pair.split(/=/)` for each piece. */
  function ServerAttrs(challenge: Bytes): Attrs {
    Collect(Split(challenge, Comma))
  }

  /** `sparams[name]`: `nil` when the attribute is missing. */
  function Attr(h: Attrs, name: Bytes): Option<Bytes> {
    if Some(name) in h then h[Some(name)] else None
  }

  /** Exactly the names of the pieces are keys. */
  lemma {:induction false} CollectKeys(pairs: seq<Bytes>)
    ensures Collect(pairs).Keys == set p | p in pairs :: PairKey(p)
    decreases |pairs|
  {
    if pairs != [] {
      var init := pairs[..|pairs| - 1];
      var last := pairs[|pairs| - 1];
      CollectKeys(init);
      assert pairs == init + [last];
      assert Collect(pairs).Keys == Collect(init).Keys + {PairKey(last)};
    }
  }

  /** A name's value is the one of the last piece with that name. */
  lemma {:induction false} CollectLastWins(pairs: seq<Bytes>, i: nat)
    requires i < |pairs|
    requires forall j :: i < j < |pairs| ==> PairKey(pairs[j]) != PairKey(pairs[i])
    ensures PairKey(pairs[i]) in Collect(pairs)
    ensures Collect(pairs)[PairKey(pairs[i])] == PairValue(pairs[i])
    decreases |pairs|
  {
    if i < |pairs| - 1 {
      var init := pairs[..|pairs| - 1];
      assert init[i] == pairs[i];
      forall j | i < j < |init|
        ensures PairKey(init[j]) != PairKey(init[i])
      {
        assert init[j] == pairs[j];
      }
      CollectLastWins(init, i);
    }
  }

  /** `k=v` followed by nothing or by another `=`: the name is `k` and the value is `v`. */
  lemma PairFields(k: Bytes, v: Bytes, rest: Bytes)
    requires EqualsSign !in k && EqualsSign !in v && v != []
    requires rest == [] || rest[0] == EqualsSign
    ensures PairKey(k + [EqualsSign] + v + rest) == Some(k)
    ensures PairValue(k + [EqualsSign] + v + rest) == Some(v)
  {
    var pair := k + [EqualsSign] + v + rest;
    assert pair == k + [EqualsSign] + (v + rest);
    RawSplitCons(k, EqualsSign, v + rest);
    if rest == [] {
      assert v + rest == v;
      RawSplitNoSep(v, EqualsSign);
    } else {
      assert v + rest == v + [EqualsSign] + rest[1..];
      RawSplitCons(v, EqualsSign, rest[1..]);
    }
    var parts := RawSplit(pair, EqualsSign);
    assert parts[0] == k && parts[1] == v;
    var r := DropTrailingEmpty(parts);
    assert parts[1] != [];
    assert r[0] == parts[0] && r[1] == parts[1];
  }

  /** Collecting one more piece adds (or overwrites) its name with its value. */
  lemma CollectSnoc(pairs: seq<Bytes>, i: nat)
    requires i < |pairs|
    ensures Collect(pairs[..i + 1]) == Collect(pairs[..i])[PairKey(pairs[i]) := PairValue(pairs[i])]
  {
    assert pairs[..i + 1][..i] == pairs[..i];
  }

  /** The `each_with_object` loop that fills the attribute hash, one piece at a time. */
  method ParseServerMessage(challenge: Bytes) returns (h: Attrs)
    ensures h == ServerAttrs(challenge)
  {
    var pairs := Split(challenge, Comma);
    h := map[];
    var i := 0;
    while i < |pairs|
      invariant 0 <= i <= |pairs|
      invariant h == Collect(pairs[..i])
    {
      CollectSnoc(pairs, i);
      h := h[PairKey(pairs[i]) := PairValue(pairs[i])];
      i := i + 1;
    }
    assert pairs[..i] == pairs;
  }

  // The client's first message.

  /** The GS2 header of section 7 of RFC 5802: no channel binding, and the authzid when there is one. */
  function Gs2Header(authzid: Option<Bytes>): (r: Bytes)
    ensures StartsWith(r, "n,") && r[|r| - 1] == ','
    ensures authzid.None? ==> r == "n,,"
    ensures authzid.Some? ==> |r| == |authzid.value| + 5
  {
    "n," + (if authzid.Some? then "a=" + authzid.value else []) + ","
  }

  /** `initial_message`: `"n=#{@username},r=#{@cnonce}"`, with `nil` rendered as "". */
  function ClientFirstBare(username: Option<Bytes>, cnonce: Bytes): Bytes {
    "n=" + Base.Str(username) + ",r=" + cnonce
  }

  /** `process(nil)`: the GS2 header, then the bare client-first message. */
  function ClientFirst(authzid: Option<Bytes>, username: Option<Bytes>, cnonce: Bytes): (r: Bytes)
    ensures StartsWith(r, Gs2Header(authzid)) && EndsWith(r, ",r=" + cnonce)
  {
    var g := Gs2Header(authzid);
    var b := ClientFirstBare(username, cnonce);
    assert (g + b)[..|g|] == g;
    assert (g + b)[|g + b| - |",r=" + cnonce|..] == ",r=" + cnonce;
    g + b
  }

  /** A text that is neither empty nor holds `,` or `=`. */
  predicate Simple(s: Bytes) {
    s != [] && Comma !in s && EqualsSign !in s
  }

  /** The bare client-first message reads back, in the attribute syntax, as n = username and r = nonce. */
  lemma ClientFirstReadsBack(username: Bytes, cnonce: Bytes)
    requires Simple(username) && Simple(cnonce)
    ensures Attr(ServerAttrs(ClientFirstBare(Some(username), cnonce)), "n") == Some(username)
    ensures Attr(ServerAttrs(ClientFirstBare(Some(username), cnonce)), "r") == Some(cnonce)
  {
    var n: Bytes := "n";
    var r: Bytes := "r";
    var p0 := n + [EqualsSign] + username;
    var p1 := r + [EqualsSign] + cnonce;
    assert ClientFirstBare(Some(username), cnonce) == p0 + [Comma] + p1;
    RawSplitCons(p0, Comma, p1);
    RawSplitNoSep(p1, Comma);
    var pairs := [p0, p1];
    assert RawSplit(ClientFirstBare(Some(username), cnonce), Comma) == pairs;
    assert Split(ClientFirstBare(Some(username), cnonce), Comma) == pairs;
    PairFields(n, username, []);
    PairFields(r, cnonce, []);
    assert p0 + [] == p0 && p1 + [] == p1;
    assert pairs[..1] == [p0];
    var none: seq<Bytes> := [];
    assert [p0][..0] == none;
    var h1 := Collect([p0]);
    assert h1 == Collect(none)[Some(n) := Some(username)];
    assert Collect(pairs) == h1[Some(r) := Some(cnonce)];
    assert n[0] != r[0];
  }

  // The client's final message.

  /** `"c=biws,r=#{sparams['r']}"`: the channel binding is always base64 of "n,,". */
  function ClientFinalBare(nonce: Option<Bytes>): Bytes {
    "c=biws,r=" + Base.Str(nonce)
  }

  /** base64 of "n,,": the three bytes 0x6E 0x2C 0x2C are the sextets 27, 34, 48 and 44. */
  lemma BiwsDecodes()
    ensures Base64(Gs2Header(None)) == "biws"
  {
    var g := Gs2Header(None);
    assert Base64(g) == Quantum(g);
    assert g[0] as int == 110 && g[1] as int == 44 && g[2] as int == 44;
    assert Quantum(g) == [Sextet(27), Sextet(34), Sextet(48), Sextet(44)];
    BiwsSextets();
  }

  lemma BiwsSextets()
    ensures [Sextet(27), Sextet(34), Sextet(48), Sextet(44)] == "biws"
  {
  }

  /** "biws" is the GS2 header of a client without authzid; with an authzid the header is longer. */
  lemma BiwsIsHeaderWithoutAuthzid(authzid: Option<Bytes>)
    ensures authzid.None? ==> Base64(Gs2Header(authzid)) == "biws"
    ensures authzid.Some? ==> Base64(Gs2Header(authzid)) != "biws"
  {
    if authzid.None? {
      BiwsDecodes();
    } else {
      assert |Base64(Gs2Header(authzid))| >= 8;
    }
  }

  /** The AuthMessage of section 3 of RFC 5802: client-first-bare, server-first and client-final without proof. */
  function AuthMessage(username: Option<Bytes>, cnonce: Bytes, serverFirst: Bytes, finalBare: Bytes): Bytes {
    ClientFirstBare(username, cnonce) + "," + serverFirst + "," + finalBare
  }

  /** The keys and signatures of section 3 of RFC 5802. */
  datatype Keys = Keys(clientKey: Bytes, storedKey: Bytes, clientSignature: Bytes, serverSignature: Bytes)

  /**
   * SaltedPassword := Hi(Normalize(password), salt, i); ClientKey := HMAC(SaltedPassword, "Client Key");
   * StoredKey := H(ClientKey); ClientSignature := HMAC(StoredKey, AuthMessage);
   * ServerSignature := HMAC(HMAC(SaltedPassword, "Server Key"), AuthMessage).
   */
  function DeriveKeys(suite: ScramSuite, hash: HashAlg, password: Bytes, salt: Bytes, iterations: int,
                      authMessage: Bytes): (k: Keys)
    ensures |k.clientKey| == |k.storedKey| == |k.clientSignature| == |k.serverSignature| == DigestLength(hash)
  {
    var salted := suite.pbkdf2(hash, suite.saslprep(password), salt, iterations);
    var clientKey := suite.hmac(hash, salted, "Client Key");
    var storedKey := suite.digest(hash, clientKey);
    var serverKey := suite.hmac(hash, salted, "Server Key");
    Keys(clientKey, storedKey, suite.hmac(hash, storedKey, authMessage), suite.hmac(hash, serverKey, authMessage))
  }

  /** ClientProof := ClientKey XOR ClientSignature, byte by byte. */
  function ClientProof(k: Keys): (p: Bytes)
    requires |k.clientKey| == |k.clientSignature|
    ensures |p| == |k.clientKey|
  {
    XorBytes(k.clientKey, k.clientSignature)
  }

  /**
   * The server's check of section 3 of RFC 5802: XOR the proof with the client
   * signature it computes itself and hash the result; it must be StoredKey.
   */
  predicate ServerAccepts(suite: ScramSuite, hash: HashAlg, storedKey: Bytes, authMessage: Bytes, proof: Bytes) {
    |proof| == DigestLength(hash)
    && suite.digest(hash, XorBytes(proof, suite.hmac(hash, storedKey, authMessage))) == storedKey
  }

  /** The proof gives the server ClientKey back, so a server holding StoredKey accepts it. */
  lemma ServerAcceptsProof(suite: ScramSuite, hash: HashAlg, password: Bytes, salt: Bytes, iterations: int,
                           authMessage: Bytes)
    ensures var k := DeriveKeys(suite, hash, password, salt, iterations, authMessage);
            XorBytes(ClientProof(k), k.clientSignature) == k.clientKey
            && ServerAccepts(suite, hash, k.storedKey, authMessage, ClientProof(k))
  {
    var k := DeriveKeys(suite, hash, password, salt, iterations, authMessage);
    XorBytesInvolution(k.clientKey, k.clientSignature);
  }

  const NonceAttr: Bytes := "r"
  const SaltAttr: Bytes := "s"
  const IterationsAttr: Bytes := "i"
  const VerifierAttr: Bytes := "v"

  /** The client-final message of section 7 of RFC 5802: the bare part, then the proof as text. */
  function ClientFinal(nonce: Option<Bytes>, proofText: Bytes): (m: Bytes)
    ensures StartsWith(m, ClientFinalBare(nonce) + ",p=")
  {
    var m := ClientFinalBare(nonce) + ",p=" + proofText;
    assert m[..|ClientFinalBare(nonce) + ",p="|] == ClientFinalBare(nonce) + ",p=";
    m
  }

  /** What follows `,p=` in a final message is the proof text. */
  function ProofText(nonce: Option<Bytes>, m: Bytes): Bytes
    requires StartsWith(m, ClientFinalBare(nonce) + ",p=")
  {
    m[|ClientFinalBare(nonce) + ",p="|..]
  }

  lemma ProofTextBack(nonce: Option<Bytes>, x: Bytes)
    ensures ProofText(nonce, ClientFinal(nonce, x)) == x
  {
    assert ClientFinal(nonce, x)[|ClientFinalBare(nonce) + ",p="|..] == x;
  }

  /** Two final messages with the same nonce differ exactly where their proofs do. */
  lemma ClientFinalInjective(nonce: Option<Bytes>, x: Bytes, y: Bytes)
    ensures ClientFinal(nonce, x) == ClientFinal(nonce, y) ==> x == y
  {
    var n := |ClientFinalBare(nonce) + ",p="|;
    assert ClientFinal(nonce, x)[n..] == x;
    assert ClientFinal(nonce, y)[n..] == y;
  }

  /**
   * The keys round two derives, for a challenge whose attributes have a salt: the
   * salt is decoded from base64 and a missing iteration count reads as 0.
   */
  function RoundTwoKeys(suite: ScramSuite, hash: HashAlg, username: Option<Bytes>, password: Bytes,
                        cnonce: Bytes, challenge: Bytes, h: Attrs): (k: Keys)
    requires Attr(h, SaltAttr).Some?
    ensures |k.clientKey| == |k.clientSignature| == |k.serverSignature| == DigestLength(hash)
  {
    DeriveKeys(suite, hash, password, suite.unpackBase64(Attr(h, SaltAttr).value),
               ToI(Base.Str(Attr(h, IterationsAttr))),
               AuthMessage(username, cnonce, challenge, ClientFinalBare(Attr(h, NonceAttr))))
  }

  /**
   * The final message and the server signature round two gives for the
   * derived keys. As written the proof is `[client_proof].pack('m').chomp`;
   * the intended text is base64 without line breaks.
   */
  function FinalReply(reading: Reading, nonce: Option<Bytes>, k: Keys): (m: (Bytes, Bytes))
    requires |k.clientKey| == |k.clientSignature|
    ensures StartsWith(m.0, ClientFinalBare(nonce) + ",p=") && m.1 == k.serverSignature
  {
    var proof := ClientProof(k);
    (ClientFinal(nonce, if reading == AsWritten then Chomp(PackM(proof)) else Base64(proof)), k.serverSignature)
  }

  /**
   * Round two: the final message and the server signature to expect. The
   * password (`@password.encode`) and the salt (`sparams["s"].unpack`) must
   * be present, else `NoMethodError`.
   */
  function FinalMessage(reading: Reading, suite: ScramSuite, hash: HashAlg, username: Option<Bytes>, password: Option<Bytes>,
                        cnonce: Bytes, challenge: Bytes, h: Attrs): (r: Result<(Bytes, Bytes)>)
    ensures r.Raise? <==> password.None? || Attr(h, SaltAttr).None?
    ensures r.Raise? ==> r.error == NoMethodError
    ensures r.Ok? ==> StartsWith(r.value.0, ClientFinalBare(Attr(h, NonceAttr)) + ",p=")
    ensures r.Ok? ==> |r.value.1| == DigestLength(hash)
  {
    if password.None? || Attr(h, SaltAttr).None? then Raise(NoMethodError)
    else
      Ok(FinalReply(reading, Attr(h, NonceAttr), RoundTwoKeys(suite, hash, username, password.value, cnonce, challenge, h)))
  }

  /**
   * The final message is the nonce echo, then the base64 of a proof the
   * server accepts, and it expects that server's signature: always when
   * intended, and as written when the digest is at most 45 bytes long.
   */
  lemma FinalMessageProves(reading: Reading, suite: ScramSuite, hash: HashAlg, username: Option<Bytes>, password: Bytes,
                           cnonce: Bytes, challenge: Bytes, h: Attrs)
    requires Attr(h, SaltAttr).Some?
    requires reading == Intended || DigestLength(hash) <= 45
    ensures var k := RoundTwoKeys(suite, hash, username, password, cnonce, challenge, h);
            var am := AuthMessage(username, cnonce, challenge, ClientFinalBare(Attr(h, NonceAttr)));
            FinalMessage(reading, suite, hash, username, Some(password), cnonce, challenge, h)
              == Ok((ClientFinal(Attr(h, NonceAttr), Base64(ClientProof(k))), k.serverSignature))
            && ServerAccepts(suite, hash, k.storedKey, am, ClientProof(k))
  {
    if reading == AsWritten {
      AsWrittenAgreesShort(Attr(h, NonceAttr), RoundTwoKeys(suite, hash, username, password, cnonce, challenge, h));
    }
    ServerAcceptsProof(suite, hash, password, suite.unpackBase64(Attr(h, SaltAttr).value),
                       ToI(Base.Str(Attr(h, IterationsAttr))),
                       AuthMessage(username, cnonce, challenge, ClientFinalBare(Attr(h, NonceAttr))));
  }

  /** A non-empty input packs to at least one four-character group and a newline. */
  lemma PackMLength(b: Bytes)
    requires b != []
    ensures |PackM(b)| >= 5 && PackM(b)[|PackM(b)| - 1] == '\n'
    decreases |b|
  {
    if |b| > 45 {
      PackMLength(b[45..]);
    }
  }

  /** Up to 45 bytes, `pack('m').chomp` is plain base64: one line, its newline chomped. */
  lemma PackMShort(b: Bytes)
    requires |b| <= 45
    ensures Chomp(PackM(b)) == Base64(b)
  {
    if b != [] {
      var e := Base64(b);
      assert IsBase64Char(e[|e| - 1]);
      ChompLine(e);
    }
  }

  /** Past 45 bytes, `pack('m')` ends its first line after 60 characters, and more lines follow. */
  lemma PackMBreaksLine(b: Bytes)
    requires |b| > 45
    ensures |PackM(b)| > 62 && PackM(b)[60] == '\n'
  {
    var head := b[..45];
    var first := Base64(head);
    assert |first| == 60;
    var rest := PackM(b[45..]);
    PackMLength(b[45..]);
    var nl: Bytes := "\n";
    assert PackM(b) == first + nl + rest;
    assert (first + nl + rest)[60] == nl[0];
  }

  /** Past 45 bytes, `chomp` leaves the first line break in, so the text is not base64 of the input. */
  lemma PackMLong(b: Bytes)
    requires |b| > 45
    ensures |Chomp(PackM(b))| > 60 && Chomp(PackM(b))[60] == '\n'
    ensures Chomp(PackM(b)) != Base64(b)
  {
    var s := PackM(b);
    PackMBreaksLine(b);
    var c := Chomp(s);
    assert c[60] == s[60];
    assert !IsBase64Char(c[60]);
  }

  /** Up to 45 bytes of proof (SHA-1, SHA-224, SHA-256) the reply as written is the corrected one. */
  lemma AsWrittenAgreesShort(nonce: Option<Bytes>, k: Keys)
    requires |k.clientKey| == |k.clientSignature| <= 45
    ensures FinalReply(AsWritten, nonce, k) == FinalReply(Intended, nonce, k)
  {
    PackMShort(ClientProof(k));
  }

  /** Past 45 bytes of proof (SHA-384, SHA-512) the proof as written holds a newline, so the replies differ. */
  lemma AsWrittenBreaksLong(nonce: Option<Bytes>, k: Keys)
    requires |k.clientKey| == |k.clientSignature| > 45
    ensures '\n' in Chomp(PackM(ClientProof(k)))
    ensures FinalReply(AsWritten, nonce, k) != FinalReply(Intended, nonce, k)
  {
    var p := ClientProof(k);
    PackMLong(p);
    ClientFinalInjective(nonce, Chomp(PackM(p)), Base64(p));
  }

  // Verification of the server's final message.

  /**
   * `sparams["v"].unpack("m").first == @server_signature`: the new `done?`, or
   * `NoMethodError` when the message has no `v` attribute.
   */
  function Verified(unpack: Bytes -> Bytes, signature: Bytes, h: Attrs): (r: Result<bool>)
    ensures r.Raise? <==> Attr(h, VerifierAttr).None?
    ensures r.Raise? ==> r.error == NoMethodError
    ensures r.Ok? ==> (r.value <==> unpack(Attr(h, VerifierAttr).value) == signature)
  {
    match Attr(h, VerifierAttr)
    case None => Raise(NoMethodError)
    case Some(v) => Ok(unpack(v) == signature)
  }

  // The exchange.

  /** What the mechanism was built with. */
  datatype ScramConfig = ScramConfig(username: Option<Bytes>, password: Option<Bytes>, authzid: Option<Bytes>,
                                     hash: HashAlg, suite: ScramSuite, cnonce: Bytes)

  /** `@server_signature` (set by round two) and `@done`. */
  datatype ScramState = ScramState(serverSignature: Option<Bytes>, done: bool)

  /** A fresh authenticator: no server signature yet, not done. */
  const Fresh := ScramState(None, false)

  /** One `process` call: the reply and the state after it. */
  function Step(reading: Reading, c: ScramConfig, st: ScramState, challenge: Base.Challenge): (out: (Base.Reply, ScramState))
    ensures out.1.serverSignature.Some? <==> st.serverSignature.Some? || (challenge.Some? && out.0.Ok?)
    ensures out.1.done != st.done ==> challenge.Some? && st.serverSignature.Some? && out.0.Ok? == out.1.done
    ensures out.0 == Ok(None) <==> challenge.Some? && st.serverSignature.Some? && out.0.Ok?
    ensures out.0 == Ok(None) ==> out.1.done
    ensures challenge.Some? && st.serverSignature.Some? && out.0 != Raise(NoMethodError) ==> (out.1.done <==> out.0 == Ok(None))
  {
    if challenge.None? then (Ok(Some(ClientFirst(c.authzid, c.username, c.cnonce))), st)
    else
      var h := ServerAttrs(challenge.value);
      if st.serverSignature.Some? then
        match Verified(c.suite.unpackBase64, st.serverSignature.value, h)
        case Raise(e) => (Raise(e), st)
        case Ok(ok) => (if ok then Ok(None) else Raise(ChallengeParseError), st.(done := ok))
      else
        match FinalMessage(reading, c.suite, c.hash, c.username, c.password, c.cnonce, challenge.value, h)
        case Raise(e) => (Raise(e), st)
        case Ok(m) => (Ok(Some(m.0)), st.(serverSignature := Some(m.1)))
  }

  /** `process(nil)` changes nothing, so asking again gives the same message. */
  lemma InitialResponseRepeats(reading: Reading, c: ScramConfig, st: ScramState)
    ensures Step(reading, c, st, None).1 == st
    ensures Step(reading, c, Step(reading, c, st, None).1, None) == Step(reading, c, st, None)
    ensures Step(reading, c, st, None).0 == Ok(Some(ClientFirst(c.authzid, c.username, c.cnonce)))
  {
  }

  /** Once a signature is stored, a message is accepted exactly when its `v` decodes to it; otherwise `done?` is false or unchanged. */
  lemma VerificationGatesDone(reading: Reading, c: ScramConfig, sig: Bytes, done: bool, message: Bytes)
    ensures var h := ServerAttrs(message);
            var out := Step(reading, c, ScramState(Some(sig), done), Some(message));
            out.1.serverSignature == Some(sig)
            && (Attr(h, VerifierAttr).None? ==> out == (Raise(NoMethodError), ScramState(Some(sig), done)))
            && (Attr(h, VerifierAttr).Some? ==>
                  (out.1.done <==> c.suite.unpackBase64(Attr(h, VerifierAttr).value) == sig)
                  && (out.0 == Ok(None) || out.0 == Raise(ChallengeParseError)))
  {
  }

  /** With a digest of at most 45 bytes (SHA-1, SHA-224, SHA-256) `process` as written is the intended one. */
  lemma StepsAgreeShort(c: ScramConfig, st: ScramState, challenge: Base.Challenge)
    requires DigestLength(c.hash) <= 45
    ensures Step(AsWritten, c, st, challenge) == Step(Intended, c, st, challenge)
  {
    if challenge.Some? && st.serverSignature.None? {
      FinalMessagesAgreeShort(c.suite, c.hash, c.username, c.password, c.cnonce, challenge.value,
                              ServerAttrs(challenge.value));
    }
  }

  lemma FinalMessagesAgreeShort(suite: ScramSuite, hash: HashAlg, username: Option<Bytes>, password: Option<Bytes>,
                                cnonce: Bytes, challenge: Bytes, h: Attrs)
    requires DigestLength(hash) <= 45
    ensures FinalMessage(AsWritten, suite, hash, username, password, cnonce, challenge, h)
         == FinalMessage(Intended, suite, hash, username, password, cnonce, challenge, h)
  {
    if password.Some? && Attr(h, SaltAttr).Some? {
      var k := RoundTwoKeys(suite, hash, username, password.value, cnonce, challenge, h);
      FinalMessageIs(AsWritten, suite, hash, username, password.value, cnonce, challenge, h);
      FinalMessageIs(Intended, suite, hash, username, password.value, cnonce, challenge, h);
      AsWrittenAgreesShort(Attr(h, NonceAttr), k);
    }
  }

  /** With a password and a salt, round two is the final reply for the derived keys. */
  lemma FinalMessageIs(reading: Reading, suite: ScramSuite, hash: HashAlg, username: Option<Bytes>, password: Bytes,
                       cnonce: Bytes, challenge: Bytes, h: Attrs)
    requires Attr(h, SaltAttr).Some?
    ensures FinalMessage(reading, suite, hash, username, Some(password), cnonce, challenge, h)
         == Ok(FinalReply(reading, Attr(h, NonceAttr), RoundTwoKeys(suite, hash, username, password, cnonce, challenge, h)))
  {
  }

  /**
   * With a longer digest (SHA-384, SHA-512) round two as written sends the
   * proof with a line break in it, which is not the base64 the server decodes.
   */
  lemma StepBreaksLong(c: ScramConfig, serverFirst: Bytes)
    requires DigestLength(c.hash) > 45
    requires c.password.Some? && Attr(ServerAttrs(serverFirst), SaltAttr).Some?
    ensures var h := ServerAttrs(serverFirst);
            var k := RoundTwoKeys(c.suite, c.hash, c.username, c.password.value, c.cnonce, serverFirst, h);
            var p := ClientProof(k);
            Step(AsWritten, c, Fresh, Some(serverFirst)).0 == Ok(Some(ClientFinal(Attr(h, NonceAttr), Chomp(PackM(p)))))
            && '\n' in Chomp(PackM(p))
            && Step(AsWritten, c, Fresh, Some(serverFirst)).0 != Step(Intended, c, Fresh, Some(serverFirst)).0
  {
    var h := ServerAttrs(serverFirst);
    FinalMessageBreaksLong(c.suite, c.hash, c.username, c.password.value, c.cnonce, serverFirst, h);
    assert Step(AsWritten, c, Fresh, Some(serverFirst)).0
        == Ok(Some(FinalMessage(AsWritten, c.suite, c.hash, c.username, c.password, c.cnonce, serverFirst, h).value.0));
    assert Step(Intended, c, Fresh, Some(serverFirst)).0
        == Ok(Some(FinalMessage(Intended, c.suite, c.hash, c.username, c.password, c.cnonce, serverFirst, h).value.0));
  }

  lemma FinalMessageBreaksLong(suite: ScramSuite, hash: HashAlg, username: Option<Bytes>, password: Bytes,
                               cnonce: Bytes, challenge: Bytes, h: Attrs)
    requires DigestLength(hash) > 45 && Attr(h, SaltAttr).Some?
    ensures var k := RoundTwoKeys(suite, hash, username, password, cnonce, challenge, h);
            var p := ClientProof(k);
            var w := FinalMessage(AsWritten, suite, hash, username, Some(password), cnonce, challenge, h);
            var i := FinalMessage(Intended, suite, hash, username, Some(password), cnonce, challenge, h);
            w.Ok? && i.Ok? && w.value.0 == ClientFinal(Attr(h, NonceAttr), Chomp(PackM(p)))
            && '\n' in Chomp(PackM(p)) && w.value.0 != i.value.0
  {
    var k := RoundTwoKeys(suite, hash, username, password, cnonce, challenge, h);
    FinalMessageIs(AsWritten, suite, hash, username, password, cnonce, challenge, h);
    FinalMessageIs(Intended, suite, hash, username, password, cnonce, challenge, h);
    AsWrittenBreaksLong(Attr(h, NonceAttr), k);
  }

  /**
   * A server that decodes the proof text of the final message (base64,
   * section 4 of RFC 4648) gets a proof it accepts: always when intended,
   * and as written when the digest is at most 45 bytes long.
   */
  lemma SentProofDecodes(reading: Reading, suite: ScramSuite, hash: HashAlg, username: Option<Bytes>, password: Bytes,
                         cnonce: Bytes, challenge: Bytes, h: Attrs)
    requires Attr(h, SaltAttr).Some?
    requires reading == Intended || DigestLength(hash) <= 45
    ensures var k := RoundTwoKeys(suite, hash, username, password, cnonce, challenge, h);
            var am := AuthMessage(username, cnonce, challenge, ClientFinalBare(Attr(h, NonceAttr)));
            var m := FinalMessage(reading, suite, hash, username, Some(password), cnonce, challenge, h);
            var text := ProofText(Attr(h, NonceAttr), m.value.0);
            |text| % 4 == 0 && ServerAccepts(suite, hash, k.storedKey, am, Unbase64(text))
  {
    var k := RoundTwoKeys(suite, hash, username, password, cnonce, challenge, h);
    FinalMessageProves(reading, suite, hash, username, password, cnonce, challenge, h);
    ProofTextBack(Attr(h, NonceAttr), Base64(ClientProof(k)));
    Base64RoundTrip(ClientProof(k));
  }

  /**
   * A whole exchange with a server that knows the password: the client-first
   * message, the final message with a proof the server accepts, and, once the
   * server's signature comes back, no reply and `done?`.
   */
  lemma FullExchange(reading: Reading, c: ScramConfig, serverFirst: Bytes, serverFinal: Bytes)
    requires reading == Intended || DigestLength(c.hash) <= 45
    requires c.password.Some? && Attr(ServerAttrs(serverFirst), SaltAttr).Some?
    requires var h := ServerAttrs(serverFirst);
             var k := RoundTwoKeys(c.suite, c.hash, c.username, c.password.value, c.cnonce, serverFirst, h);
             Attr(ServerAttrs(serverFinal), VerifierAttr).Some?
             && c.suite.unpackBase64(Attr(ServerAttrs(serverFinal), VerifierAttr).value) == k.serverSignature
    ensures var h := ServerAttrs(serverFirst);
            var k := RoundTwoKeys(c.suite, c.hash, c.username, c.password.value, c.cnonce, serverFirst, h);
            var am := AuthMessage(c.username, c.cnonce, serverFirst, ClientFinalBare(Attr(h, NonceAttr)));
            var s1 := Step(reading, c, Fresh, None);
            var s2 := Step(reading, c, s1.1, Some(serverFirst));
            var s3 := Step(reading, c, s2.1, Some(serverFinal));
            s1.0 == Ok(Some(ClientFirst(c.authzid, c.username, c.cnonce)))
            && s2.0 == Ok(Some(ClientFinal(Attr(h, NonceAttr), Base64(ClientProof(k)))))
            && ServerAccepts(c.suite, c.hash, k.storedKey, am, ClientProof(k))
            && |ProofText(Attr(h, NonceAttr), s2.0.value.value)| % 4 == 0
            && ServerAccepts(c.suite, c.hash, k.storedKey, am, Unbase64(ProofText(Attr(h, NonceAttr), s2.0.value.value)))
            && !s2.1.done
            && s3 == (Ok(None), ScramState(Some(k.serverSignature), true))
  {
    var h := ServerAttrs(serverFirst);
    FinalMessageProves(reading, c.suite, c.hash, c.username, c.password.value, c.cnonce, serverFirst, h);
    SentProofDecodes(reading, c.suite, c.hash, c.username, c.password.value, c.cnonce, serverFirst, h);
  }

  class ScramAuthenticator {
    const username: Option<Bytes>
    const password: Option<Bytes>
    const authzid: Option<Bytes>
    const hash: HashAlg
    const suite: ScramSuite
    const cnonce: Bytes
    var serverSignature: Option<Bytes>
    var done: bool

    /**
     * `ScramAuthenticator.for(hash).new(username, password, authzid, cnonce: ...)`:
     * the nonce is the `cnonce` option verbatim when given, else `SecureRandom.hex(32)`
     * of the 32 random bytes passed in.
     */
    constructor (username: Option<Bytes>, password: Option<Bytes>, authzid: Option<Bytes>, hash: HashAlg,
                 suite: ScramSuite, cnonceOption: Option<Bytes>, random: Bytes)
      requires |random| == 32
      ensures this.username == username && this.password == password && this.authzid == authzid
      ensures this.hash == hash && this.suite == suite
      ensures cnonceOption.Some? ==> cnonce == cnonceOption.value
      ensures cnonceOption.None? ==> cnonce == Hex(random) && |cnonce| == 64 && IsLowerHex(cnonce)
      ensures serverSignature == None && !done
    {
      this.username := username;
      this.password := password;
      this.authzid := authzid;
      this.hash := hash;
      this.suite := suite;
      cnonce := if cnonceOption.Some? then cnonceOption.value else Hex(random);
      serverSignature := None;
      done := false;
    }

    function Config(): ScramConfig {
      ScramConfig(username, password, authzid, hash, suite, cnonce)
    }

    /** SCRAM is client-first. */
    function SupportsInitialResponse(): (b: bool)
      ensures b
    {
      true
    }

    function Done(): bool
      reads this
    {
      done
    }

    /** `process`: the initial message, round two, or the check of the server's signature. */
    method Process(challenge: Base.Challenge) returns (r: Base.Reply)
      modifies this
      ensures (r, ScramState(serverSignature, done))
           == Step(AsWritten, Config(), ScramState(old(serverSignature), old(done)), challenge)
    {
      if challenge.None? {
        return Ok(Some(ClientFirst(authzid, username, cnonce)));
      }
      var h := ParseServerMessage(challenge.value);
      if serverSignature.Some? {
        var v := Attr(h, VerifierAttr);
        if v.None? {
          return Raise(NoMethodError);
        }
        done := suite.unpackBase64(v.value) == serverSignature.value;
        if done {
          return Ok(None);
        }
        return Raise(ChallengeParseError);
      }
      var f := FinalMessage(AsWritten, suite, hash, username, password, cnonce, challenge.value, h);
      if f.Raise? {
        return Raise(f.error);
      }
      serverSignature := Some(f.value.1);
      r := Ok(Some(f.value.0));
    }
  }
}
