/**
 * The library's top level (lib/net/sasl.rb): the default registry, filled
 * with nine mechanism names when the library loads, and the module functions
 * that hand `add_authenticator` and `authenticator` on to it. A Dafny module
 * has no mutable global, so the default registry is the object `Default`
 * returns, passed to the delegating methods.
 */
module Sasl {
  import opened Strings
  import opened Errors
  import opened Crypto
  import Registry

  const PlainName: Bytes := "PLAIN"
  const LoginName: Bytes := "LOGIN"
  const DigestName: Bytes := "DIGEST-MD5"
  const CramName: Bytes := "CRAM-MD5"
  const Sha1Name: Bytes := "SCRAM-SHA-1"
  const Sha224Name: Bytes := "SCRAM-SHA-224"
  const Sha256Name: Bytes := "SCRAM-SHA-256"
  const Sha384Name: Bytes := "SCRAM-SHA-384"
  const Sha512Name: Bytes := "SCRAM-SHA-512"
  const AnonymousName: Bytes := "ANONYMOUS"

  /** The SCRAM mechanism name for a hash. */
  function ScramName(h: HashAlg): Bytes {
    match h
    case SHA1 => Sha1Name
    case SHA224 => Sha224Name
    case SHA256 => Sha256Name
    case SHA384 => Sha384Name
    case SHA512 => Sha512Name
  }

  /** The names registered when the library loads. */
  const DefaultNames: set<Bytes> :=
    {PlainName, LoginName, DigestName, CramName, Sha1Name, Sha224Name, Sha256Name, Sha384Name, Sha512Name}

  /** The contents of `DEFAULT_REGISTRY` once the nine `add_authenticator` calls have run. */
  const DefaultAuthenticators: map<Bytes, Registry.Mechanism> :=
    map[PlainName := Registry.Plain, LoginName := Registry.Login, DigestName := Registry.DigestMD5,
        CramName := Registry.CramMD5, Sha1Name := Registry.Scram(SHA1), Sha224Name := Registry.Scram(SHA224),
        Sha256Name := Registry.Scram(SHA256), Sha384Name := Registry.Scram(SHA384),
        Sha512Name := Registry.Scram(SHA512)]

  /** A name without lower-case letters. */
  predicate Upper(s: Bytes) {
    forall i :: 0 <= i < |s| ==> !IsLower(s[i])
  }

  /** The mechanism name each class of the library answers to. */
  function Name(m: Registry.Mechanism): Bytes {
    match m
    case Plain => PlainName
    case Login => LoginName
    case DigestMD5 => DigestName
    case CramMD5 => CramName
    case Scram(h) => ScramName(h)
    case Anonymous => AnonymousName
  }

  /** Every name is written upper-case, so each is its own key. */
  lemma NameUpper(m: Registry.Mechanism)
    ensures Upcase(Name(m)) == Name(m)
  {
    match m
    case Plain =>
      assert Upper(PlainName);
      UpcaseOfUpper(PlainName);
    case Login =>
      assert Upper(LoginName);
      UpcaseOfUpper(LoginName);
    case DigestMD5 =>
      assert Upper(DigestName);
      UpcaseOfUpper(DigestName);
    case CramMD5 =>
      assert Upper(CramName);
      UpcaseOfUpper(CramName);
    case Scram(h) =>
      ScramNameUpper(h);
    case Anonymous =>
      assert Upper(AnonymousName);
      UpcaseOfUpper(AnonymousName);
  }

  /** The SCRAM names are written upper-case too. */
  lemma ScramNameUpper(h: HashAlg)
    ensures Upcase(ScramName(h)) == ScramName(h)
  {
    match h
    case SHA1 =>
      assert Upper(Sha1Name);
      UpcaseOfUpper(Sha1Name);
    case SHA224 =>
      assert Upper(Sha224Name);
      UpcaseOfUpper(Sha224Name);
    case SHA256 =>
      assert Upper(Sha256Name);
      UpcaseOfUpper(Sha256Name);
    case SHA384 =>
      assert Upper(Sha384Name);
      UpcaseOfUpper(Sha384Name);
    case SHA512 =>
      assert Upper(Sha512Name);
      UpcaseOfUpper(Sha512Name);
  }

  /** What each of the nine names maps to in the default registry. */
  lemma DefaultEntries(h: HashAlg)
    ensures DefaultAuthenticators.Keys == DefaultNames
    ensures DefaultAuthenticators[PlainName] == Registry.Plain && DefaultAuthenticators[LoginName] == Registry.Login
    ensures DefaultAuthenticators[DigestName] == Registry.DigestMD5
    ensures DefaultAuthenticators[CramName] == Registry.CramMD5
    ensures DefaultAuthenticators[ScramName(h)] == Registry.Scram(h)
  {
  }

  /** `DEFAULT_REGISTRY = Registry.new`, then `add_authenticator` for each of the nine names. */
  method Default() returns (registry: Registry.Registry)
    ensures fresh(registry) && registry.Valid()
    ensures registry.authenticators == DefaultAuthenticators
  {
    NameUpper(Registry.Plain);
    NameUpper(Registry.Login);
    NameUpper(Registry.DigestMD5);
    NameUpper(Registry.CramMD5);
    ScramNameUpper(SHA1);
    ScramNameUpper(SHA224);
    ScramNameUpper(SHA256);
    ScramNameUpper(SHA384);
    ScramNameUpper(SHA512);
    registry := new Registry.Registry();
    registry.AddAuthenticator(PlainName, Registry.Plain);
    registry.AddAuthenticator(LoginName, Registry.Login);
    registry.AddAuthenticator(DigestName, Registry.DigestMD5);
    registry.AddAuthenticator(CramName, Registry.CramMD5);
    registry.AddAuthenticator(ScramName(SHA1), Registry.Scram(SHA1));
    registry.AddAuthenticator(ScramName(SHA224), Registry.Scram(SHA224));
    registry.AddAuthenticator(ScramName(SHA256), Registry.Scram(SHA256));
    registry.AddAuthenticator(ScramName(SHA384), Registry.Scram(SHA384));
    registry.AddAuthenticator(ScramName(SHA512), Registry.Scram(SHA512));
  }

  /** `Net::SASL.add_authenticator`: `DEFAULT_REGISTRY.add_authenticator` with the same arguments. */
  method AddAuthenticator(registry: Registry.Registry, mechanism: Bytes, authenticator: Registry.Mechanism)
    requires registry.Valid()
    modifies registry
    ensures registry.Valid()
    ensures registry.authenticators == old(registry.authenticators)[Upcase(mechanism) := authenticator]
  {
    registry.AddAuthenticator(mechanism, authenticator);
  }

  /** `Net::SASL.authenticator`: `DEFAULT_REGISTRY.authenticator` with the same arguments. */
  method Authenticator(registry: Registry.Registry, mechanism: Bytes, authcid: Option<Bytes>,
                       credentials: Option<Bytes>, authzid: Option<Bytes>, env: Registry.Environment)
    returns (r: Result<Registry.Instance>)
    requires |env.random| == 32
    ensures r.Raise? <==> Registry.Build(registry.authenticators, mechanism, authcid, credentials, authzid).Raise?
    ensures r.Raise? ==> r.error == ArgumentError
    ensures r.Ok? ==> Registry.ClassOf(r.value)
                      == Registry.Build(registry.authenticators, mechanism, authcid, credentials, authzid).value
    ensures r.Ok? ==> Registry.Identities(r.value) == (authcid, credentials, authzid)
    ensures r.Ok? ==> fresh(Registry.Object(r.value)) && Registry.Initial(r.value, env)
  {
    r := registry.Authenticator(mechanism, authcid, credentials, authzid, env);
  }

  /** The default registry knows exactly the nine names, in any letter case, and ANONYMOUS is not one of them. */
  lemma DefaultKnows(name: Bytes)
    ensures Registry.Lookup(DefaultAuthenticators, name).Ok? <==> Upcase(name) in DefaultNames
    ensures AnonymousName !in DefaultAuthenticators
    ensures Registry.Anonymous !in DefaultAuthenticators.Values
  {
    assert DefaultAuthenticators.Keys == DefaultNames;
    assert AnonymousName[0] != PlainName[0] && AnonymousName[0] != LoginName[0] && AnonymousName[0] != DigestName[0];
    assert AnonymousName[0] != CramName[0] && AnonymousName[0] != Sha1Name[0];
  }

  /** Each SCRAM-SHA name is bound to SCRAM with the hash it names. */
  lemma ScramNamesBoundToTheirHash(h: HashAlg)
    ensures ScramName(h) in DefaultAuthenticators
    ensures DefaultAuthenticators[ScramName(h)] == Registry.Scram(h)
  {
  }

  /** Through the default registry, LOGIN and CRAM-MD5 are never built: they take two positional arguments. */
  lemma DefaultNeverBuildsTwoArgument(authcid: Option<Bytes>, credentials: Option<Bytes>, authzid: Option<Bytes>)
    ensures Registry.Build(DefaultAuthenticators, LoginName, authcid, credentials, authzid) == Raise(ArgumentError)
    ensures Registry.Build(DefaultAuthenticators, CramName, authcid, credentials, authzid) == Raise(ArgumentError)
  {
    NameUpper(Registry.Login);
    NameUpper(Registry.CramMD5);
    DefaultEntries(SHA1);
  }

  /** Through the default registry, DIGEST-MD5 is built for every identity. */
  lemma DefaultBuildsDigest(authcid: Option<Bytes>, credentials: Option<Bytes>, authzid: Option<Bytes>)
    ensures Registry.Build(DefaultAuthenticators, DigestName, authcid, credentials, authzid) == Ok(Registry.DigestMD5)
  {
    NameUpper(Registry.DigestMD5);
    DefaultEntries(SHA1);
    assert Registry.Lookup(DefaultAuthenticators, DigestName) == Ok(Registry.DigestMD5);
  }

  /** Through the default registry, each SCRAM-SHA name is built, with its hash, for every identity. */
  lemma DefaultBuildsScram(authcid: Option<Bytes>, credentials: Option<Bytes>, authzid: Option<Bytes>, h: HashAlg)
    ensures Registry.Build(DefaultAuthenticators, ScramName(h), authcid, credentials, authzid) == Ok(Registry.Scram(h))
  {
    ScramNameUpper(h);
    DefaultEntries(h);
    assert Registry.Lookup(DefaultAuthenticators, ScramName(h)) == Ok(Registry.Scram(h));
  }
}
