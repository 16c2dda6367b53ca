/**
 * The mechanism registry (lib/net/sasl/registry.rb): a hash from upcased
 * mechanism names to authenticator classes, with add, remove and build.
 * Building passes three positional arguments (authcid, credentials and
 * authzid, the last `nil` by default), so only the classes that take a third
 * positional argument can be built through it.
 */
module Registry {
  import opened Strings
  import opened Errors
  import opened Crypto
  import Plain
  import Login
  import CramMD5
  import DigestMD5
  import Scram
  import Anonymous

  /** The authenticator classes of the library; `Scram(hash)` is `ScramAuthenticator.for(hash)`. */
  datatype Mechanism = Plain | Login | DigestMD5 | CramMD5 | Scram(hash: HashAlg) | Anonymous

  /** Whether `new` of the class takes `n` positional arguments. */
  predicate AcceptsPositional(m: Mechanism, n: nat) {
    match m
    case Plain => Plain.AcceptsPositional(n)
    case Login => Login.AcceptsPositional(n)
    case DigestMD5 => DigestMD5.AcceptsPositional(n)
    case CramMD5 => CramMD5.AcceptsPositional(n)
    case Scram(_) => Scram.AcceptsPositional(n)
    case Anonymous => Anonymous.AcceptsPositional(n)
  }

  /** The number of positional arguments `authenticator` hands to `new`. */
  const Positional: nat := 3

  /** `@authenticators.key?(mechanism.upcase)`, then `fetch`; an unknown name is an `ArgumentError`. */
  function Lookup(authenticators: map<Bytes, Mechanism>, name: Bytes): (r: Result<Mechanism>)
    ensures r.Ok? <==> Upcase(name) in authenticators
    ensures r.Raise? ==> r.error == ArgumentError
  {
    if Upcase(name) in authenticators then Ok(authenticators[Upcase(name)]) else Raise(ArgumentError)
  }

  /**
   * `new(authcid, credentials, authzid, **kwargs)` of the class: an arity error
   * for a class that takes two positional arguments, PLAIN's NUL guard, and
   * otherwise an instance of the class.
   */
  function Construct(m: Mechanism, authcid: Option<Bytes>, credentials: Option<Bytes>, authzid: Option<Bytes>)
    : (r: Result<Mechanism>)
    ensures r.Raise? ==> r.error == ArgumentError
    ensures r.Ok? ==> r.value == m
  {
    if !AcceptsPositional(m, Positional) then Raise(ArgumentError)
    else if m.Plain? && Plain.CheckNoNul(authcid, credentials, authzid).Raise? then Raise(ArgumentError)
    else Ok(m)
  }

  /** `authenticator(mechanism, authcid, credentials, authzid)`: the class it instantiates, or the error it raises. */
  function Build(authenticators: map<Bytes, Mechanism>, name: Bytes, authcid: Option<Bytes>,
                 credentials: Option<Bytes>, authzid: Option<Bytes>): (r: Result<Mechanism>)
    ensures r.Raise? ==> r.error == ArgumentError
    ensures r.Ok? ==> Upcase(name) in authenticators && r.value == authenticators[Upcase(name)]
  {
    match Lookup(authenticators, name)
    case Raise(e) => Raise(e)
    case Ok(m) => Construct(m, authcid, credentials, authzid)
  }

  /** Through the registry, a registered class is built exactly when it takes a third argument and, for PLAIN, no identity holds NUL. */
  lemma BuildOutcome(authenticators: map<Bytes, Mechanism>, name: Bytes, authcid: Option<Bytes>,
                     credentials: Option<Bytes>, authzid: Option<Bytes>)
    requires Upcase(name) in authenticators
    ensures var m := authenticators[Upcase(name)];
            Build(authenticators, name, authcid, credentials, authzid).Ok?
            <==> !m.Login? && !m.CramMD5? && (m.Plain? ==> Plain.CheckNoNul(authcid, credentials, authzid).Ok?)
  {
  }

  /** LOGIN and CRAM-MD5 take two positional arguments, so building them through a registry always fails. */
  lemma TwoArgumentMechanismsNeverBuild(authenticators: map<Bytes, Mechanism>, name: Bytes, authcid: Option<Bytes>,
                                        credentials: Option<Bytes>, authzid: Option<Bytes>)
    requires Upcase(name) in authenticators
    requires authenticators[Upcase(name)] == Login || authenticators[Upcase(name)] == CramMD5
    ensures Build(authenticators, name, authcid, credentials, authzid) == Raise(ArgumentError)
  {
  }

  /** Names that differ only in the case of ASCII letters build the same class. */
  lemma BuildIgnoresCase(authenticators: map<Bytes, Mechanism>, a: Bytes, b: Bytes, authcid: Option<Bytes>,
                         credentials: Option<Bytes>, authzid: Option<Bytes>)
    requires Upcase(a) == Upcase(b)
    ensures Build(authenticators, a, authcid, credentials, authzid)
         == Build(authenticators, b, authcid, credentials, authzid)
  {
  }

  /** After `add_authenticator(name, m)`, every spelling of the name builds `m`, exactly as constructing `m` does. */
  lemma AddedBuilds(authenticators: map<Bytes, Mechanism>, name: Bytes, m: Mechanism, x: Bytes,
                    authcid: Option<Bytes>, credentials: Option<Bytes>, authzid: Option<Bytes>)
    requires Upcase(x) == Upcase(name)
    ensures Build(authenticators[Upcase(name) := m], x, authcid, credentials, authzid)
         == Construct(m, authcid, credentials, authzid)
  {
  }

  /** After `remove_authenticator(name)`, no spelling of the name builds: `ArgumentError`. */
  lemma RemovedRaises(authenticators: map<Bytes, Mechanism>, name: Bytes, x: Bytes,
                      authcid: Option<Bytes>, credentials: Option<Bytes>, authzid: Option<Bytes>)
    requires Upcase(x) == Upcase(name)
    ensures Build(authenticators - {Upcase(name)}, x, authcid, credentials, authzid) == Raise(ArgumentError)
  {
  }

  /** An authenticator built by the registry. */
  datatype Instance =
    | PlainInstance(plain: Plain.PlainAuthenticator)
    | DigestInstance(digest: DigestMD5.DigestMD5Authenticator)
    | ScramInstance(scram: Scram.ScramAuthenticator)
    | AnonymousInstance(anonymous: Anonymous.AnonymousAuthenticator)

  /** The class of an instance. */
  function ClassOf(i: Instance): Mechanism {
    match i
    case PlainInstance(_) => Plain
    case DigestInstance(_) => DigestMD5
    case ScramInstance(a) => Scram(a.hash)
    case AnonymousInstance(_) => Anonymous
  }

  /** The three identities an instance was built with. */
  function Identities(i: Instance): (Option<Bytes>, Option<Bytes>, Option<Bytes>) {
    match i
    case PlainInstance(a) => (a.username, a.password, a.authzid)
    case DigestInstance(a) => (a.username, a.password, a.authzid)
    case ScramInstance(a) => (a.username, a.password, a.authzid)
    case AnonymousInstance(a) => (a.username, a.password, a.authzid)
  }

  /** The object an instance is. */
  function Object(i: Instance): object {
    match i
    case PlainInstance(a) => a
    case DigestInstance(a) => a
    case ScramInstance(a) => a
    case AnonymousInstance(a) => a
  }

  /**
   * The state a constructor leaves: not `done?`; DIGEST-MD5 at its first stage
   * with no nonce counted and the hex MD5 of the seed as client nonce; SCRAM
   * with no server signature and the `cnonce` option, or else the hex of the
   * random bytes, as nonce.
   */
  ghost predicate Initial(i: Instance, env: Environment)
    reads Object(i)
  {
    match i
    case PlainInstance(a) => !a.done
    case DigestInstance(a) =>
      a.stage == DigestMD5.StageOne && a.nc == map[] && a.md5 == env.md5 && a.cnonce == Hex(env.md5(env.digestSeed))
    case ScramInstance(a) =>
      a.serverSignature.None? && !a.done && a.suite == env.suite
      && a.cnonce == (if env.cnonce.Some? then env.cnonce.value else Hex(env.random))
    case AnonymousInstance(_) => true
  }

  /**
   * What a mechanism's constructor takes besides the identities: the `cnonce`
   * keyword option of SCRAM, and the library functions, clock and randomness
   * the model does not compute (MD5, the SCRAM primitives, the seed of the
   * DIGEST-MD5 client nonce, the 32 bytes of `SecureRandom.hex(32)`).
   */
  datatype Environment = Environment(md5: Md5, suite: ScramSuite, digestSeed: Bytes, cnonce: Option<Bytes>,
                                     random: Bytes)

  /** `PlainAuthenticator.new`: `ArgumentError` when an identity holds NUL, else a fresh authenticator in its initial state. */
  method NewPlain(authcid: Option<Bytes>, credentials: Option<Bytes>, authzid: Option<Bytes>, env: Environment)
    returns (r: Result<Instance>)
    ensures r.Raise? <==> Plain.CheckNoNul(authcid, credentials, authzid).Raise?
    ensures r.Raise? ==> r.error == ArgumentError
    ensures r.Ok? ==> ClassOf(r.value) == Plain && Identities(r.value) == (authcid, credentials, authzid)
    ensures r.Ok? ==> fresh(Object(r.value)) && Initial(r.value, env)
  {
    var p := Plain.New(authcid, credentials, authzid);
    if p.Raise? {
      return Raise(p.error);
    }
    r := Ok(PlainInstance(p.value));
  }

  /** `DigestMD5Authenticator.new`: a fresh authenticator in its initial state. */
  method NewDigest(authcid: Option<Bytes>, credentials: Option<Bytes>, authzid: Option<Bytes>, env: Environment)
    returns (i: Instance)
    ensures ClassOf(i) == DigestMD5 && Identities(i) == (authcid, credentials, authzid)
    ensures fresh(Object(i)) && Initial(i, env)
  {
    var a := new DigestMD5.DigestMD5Authenticator(authcid, credentials, authzid, env.md5, env.digestSeed);
    i := DigestInstance(a);
  }

  /** `ScramAuthenticator.for(hash).new`: a fresh authenticator in its initial state. */
  method NewScram(hash: HashAlg, authcid: Option<Bytes>, credentials: Option<Bytes>, authzid: Option<Bytes>,
                  env: Environment) returns (i: Instance)
    requires |env.random| == 32
    ensures ClassOf(i) == Scram(hash) && Identities(i) == (authcid, credentials, authzid)
    ensures fresh(Object(i)) && Initial(i, env)
  {
    var a := new Scram.ScramAuthenticator(authcid, credentials, authzid, hash, env.suite, env.cnonce, env.random);
    i := ScramInstance(a);
  }

  /** `AnonymousAuthenticator.new` with the three identities. */
  method NewAnonymous(authcid: Option<Bytes>, credentials: Option<Bytes>, authzid: Option<Bytes>, env: Environment)
    returns (i: Instance)
    ensures ClassOf(i) == Anonymous && Identities(i) == (authcid, credentials, authzid)
    ensures fresh(Object(i)) && Initial(i, env)
  {
    var a := new Anonymous.AnonymousAuthenticator([authcid, credentials, authzid]);
    i := AnonymousInstance(a);
  }

  /** `new(authcid, credentials, authzid, **kwargs)` on the class `m`. */
  method Instantiate(m: Mechanism, authcid: Option<Bytes>, credentials: Option<Bytes>, authzid: Option<Bytes>,
                     env: Environment) returns (r: Result<Instance>)
    requires |env.random| == 32
    ensures r.Raise? <==> Construct(m, authcid, credentials, authzid).Raise?
    ensures r.Raise? ==> r.error == ArgumentError
    ensures r.Ok? ==> ClassOf(r.value) == m && Identities(r.value) == (authcid, credentials, authzid)
    ensures r.Ok? ==> fresh(Object(r.value)) && Initial(r.value, env)
  {
    match m
    case Plain =>
      assert Construct(m, authcid, credentials, authzid).Raise? <==> Plain.CheckNoNul(authcid, credentials, authzid).Raise?;
      r := NewPlain(authcid, credentials, authzid, env);
    case Login =>
      assert Construct(m, authcid, credentials, authzid).Raise?;
      r := Raise(ArgumentError);
    case CramMD5 =>
      assert Construct(m, authcid, credentials, authzid).Raise?;
      r := Raise(ArgumentError);
    case DigestMD5 =>
      assert Construct(m, authcid, credentials, authzid) == Ok(m);
      var i := NewDigest(authcid, credentials, authzid, env);
      r := Ok(i);
    case Scram(hash) =>
      assert Construct(m, authcid, credentials, authzid) == Ok(m);
      var i := NewScram(hash, authcid, credentials, authzid, env);
      r := Ok(i);
    case Anonymous =>
      assert Construct(m, authcid, credentials, authzid) == Ok(m);
      var i := NewAnonymous(authcid, credentials, authzid, env);
      r := Ok(i);
  }

  class Registry {
    var authenticators: map<Bytes, Mechanism>

    /** Every name is stored upcased. */
    ghost predicate Valid()
      reads this
    {
      forall k :: k in authenticators ==> Upcase(k) == k
    }

    /** Because every name is stored upcased, each entry is found again under its own name. */
    lemma StoredNamesFound(k: Bytes)
      requires Valid() && k in authenticators
      ensures Lookup(authenticators, k) == Ok(authenticators[k])
    {
    }

    /** A new registry is empty. */
    constructor ()
      ensures Valid() && authenticators == map[]
    {
      authenticators := map[];
    }

    /** `add_authenticator`: stores the class under the upcased name, replacing any class there. */
    method AddAuthenticator(mechanism: Bytes, authenticator: Mechanism)
      requires Valid()
      modifies this
      ensures Valid()
      ensures authenticators == old(authenticators)[Upcase(mechanism) := authenticator]
    {
      UpcaseIdempotent(mechanism);
      authenticators := authenticators[Upcase(mechanism) := authenticator];
    }

    /** `remove_authenticator`: deletes the upcased name, if present, and returns what was stored there. */
    method RemoveAuthenticator(mechanism: Bytes) returns (removed: Option<Mechanism>)
      requires Valid()
      modifies this
      ensures Valid()
      ensures authenticators == old(authenticators) - {Upcase(mechanism)}
      ensures Upcase(mechanism) in old(authenticators) ==> removed == Some(old(authenticators)[Upcase(mechanism)])
      ensures Upcase(mechanism) !in old(authenticators) ==> removed == None
    {
      var key := Upcase(mechanism);
      removed := if key in authenticators then Some(authenticators[key]) else None;
      authenticators := authenticators - {key};
    }

    /**
     * `authenticator(mechanism, authcid, credentials, authzid, **kwargs)`: the
     * upcased name is looked up, then the class is instantiated with the three
     * identities; the registry is left unchanged.
     */
    method Authenticator(mechanism: Bytes, authcid: Option<Bytes>, credentials: Option<Bytes>,
                         authzid: Option<Bytes>, env: Environment) returns (r: Result<Instance>)
      requires |env.random| == 32
      ensures r.Raise? <==> Build(authenticators, mechanism, authcid, credentials, authzid).Raise?
      ensures r.Raise? ==> r.error == ArgumentError
      ensures r.Ok? ==> ClassOf(r.value) == Build(authenticators, mechanism, authcid, credentials, authzid).value
      ensures r.Ok? ==> Identities(r.value) == (authcid, credentials, authzid)
      ensures r.Ok? ==> fresh(Object(r.value)) && Initial(r.value, env)
    {
      var name := Upcase(mechanism);
      if name !in authenticators {
        return Raise(ArgumentError);
      }
      r := Instantiate(authenticators[name], authcid, credentials, authzid, env);
    }
  }
}
