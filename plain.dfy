/**
 * The PLAIN mechanism (section 2 of RFC 4616; lib/net/sasl/plain_authenticator.rb).
 * Construction refuses a NUL byte in any of the three identities; the one
 * response is authzid, NUL, username, NUL, password, whatever the challenge.
 */
module Plain {
  import opened Strings
  import opened Errors
  import Base

  /** `initialize(username, password, authzid = nil, **_options)`: two or three positional arguments. */
  predicate AcceptsPositional(n: nat) {
    2 <= n <= 3
  }

  /** `x&.include?(NULL)`: a string holding a NUL byte; `nil` holds none. */
  predicate HasNul(x: Option<Bytes>) {
    x.Some? && NUL in x.value
  }

  /** The constructor's guards: `ArgumentError` as soon as one of the identities holds a NUL byte. */
  function CheckNoNul(username: Option<Bytes>, password: Option<Bytes>, authzid: Option<Bytes>): (r: Result<()>)
    ensures r.Raise? <==> HasNul(username) || HasNul(password) || HasNul(authzid)
    ensures r.Raise? ==> r.error == ArgumentError
  {
    if HasNul(username) || HasNul(password) || HasNul(authzid) then Raise(ArgumentError) else Ok(())
  }

  /** The PLAIN message: authzid, NUL, username, NUL, password, with `nil` rendered as "". */
  function Message(authzid: Option<Bytes>, username: Option<Bytes>, password: Option<Bytes>): (r: Bytes)
    ensures |r| == |Base.Str(authzid)| + |Base.Str(username)| + |Base.Str(password)| + 2
  {
    Base.Str(authzid) + [NUL] + Base.Str(username) + [NUL] + Base.Str(password)
  }

  /** For identities the constructor accepts, the message splits on NUL into exactly the three identities. */
  lemma MessageSplitsBack(authzid: Option<Bytes>, username: Option<Bytes>, password: Option<Bytes>)
    requires CheckNoNul(username, password, authzid).Ok?
    ensures RawSplit(Message(authzid, username, password), NUL)
         == [Base.Str(authzid), Base.Str(username), Base.Str(password)]
  {
    var parts := [Base.Str(authzid), Base.Str(username), Base.Str(password)];
    assert Join(parts, [NUL]) == Message(authzid, username, password) by {
      assert Join(parts[1..], [NUL]) == parts[1] + [NUL] + Join(parts[2..], [NUL]);
    }
    RawSplitJoin(parts, NUL);
  }

  /** The two examples of test/net/sasl_test.rb. */
  lemma MessageExamples()
    ensures Message(None, Some("authc"), Some("passwd")) == "\0authc\0passwd"
    ensures Message(Some("authz"), Some("user"), Some("pass")) == "authz\0user\0pass"
  {
  }

  class PlainAuthenticator {
    const username: Option<Bytes>
    const password: Option<Bytes>
    const authzid: Option<Bytes>
    var done: bool

    constructor (username: Option<Bytes>, password: Option<Bytes>, authzid: Option<Bytes>)
      requires CheckNoNul(username, password, authzid).Ok?
      ensures this.username == username && this.password == password && this.authzid == authzid
      ensures !done
    {
      this.username := username;
      this.password := password;
      this.authzid := authzid;
      done := false;
    }

    /** PLAIN is client-first: it sends its response with the authentication command. */
    function SupportsInitialResponse(): (b: bool)
      ensures b
    {
      true
    }

    function Done(): bool
      reads this
    {
      done
    }

    /** Ignores `data`, marks the exchange done and returns the message; calling again returns the same string. */
    method Process(data: Base.Challenge) returns (r: Bytes)
      modifies this
      ensures done
      ensures r == Message(authzid, username, password)
    {
      done := true;
      r := Message(authzid, username, password);
    }
  }

  /** `PlainAuthenticator.new`: the guards, then a fresh authenticator that is not done. */
  method New(username: Option<Bytes>, password: Option<Bytes>, authzid: Option<Bytes>)
    returns (r: Result<PlainAuthenticator>)
    ensures r.Raise? <==> CheckNoNul(username, password, authzid).Raise?
    ensures r.Raise? ==> r.error == ArgumentError
    ensures r.Ok? ==> fresh(r.value) && !r.value.done
    ensures r.Ok? ==> r.value.username == username && r.value.password == password && r.value.authzid == authzid
  {
    if CheckNoNul(username, password, authzid).Raise? {
      return Raise(ArgumentError);
    }
    var a := new PlainAuthenticator(username, password, authzid);
    return Ok(a);
  }
}
