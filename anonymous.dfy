/**
 * The ANONYMOUS mechanism (lib/net/sasl/anonymous_authenticator.rb). It
 * forwards every constructor argument to the base and produces no response
 * at all: `process` raises `ArgumentError` for every challenge, `nil`
 * included. It is not registered in the default registry.
 */
module Anonymous {
  import opened Strings
  import opened Errors
  import Base

  /** `initialize(*)` hands its arguments to the base, which takes up to three. */
  predicate AcceptsPositional(n: nat) {
    Base.AcceptsPositional(n)
  }

  class AnonymousAuthenticator {
    const username: Option<Bytes>
    const password: Option<Bytes>
    const authzid: Option<Bytes>

    constructor (args: seq<Option<Bytes>>)
      requires AcceptsPositional(|args|)
      ensures username == Base.Positional(args, 0)
      ensures password == Base.Positional(args, 1)
      ensures authzid == Base.Positional(args, 2)
    {
      username := Base.Positional(args, 0);
      password := Base.Positional(args, 1);
      authzid := Base.Positional(args, 2);
    }

    /** Inherited: no initial response. */
    function SupportsInitialResponse(): (b: bool)
      ensures !b
    {
      false
    }

    /** Every challenge, `nil` included, raises `ArgumentError`, which is not a SASL error. */
    function Process(challenge: Base.Challenge): (r: Base.Reply)
      ensures r.Raise? && r.error == ArgumentError
      ensures !IsA(r.error, SaslError)
    {
      Raise(ArgumentError)
    }

    /** Inherited: never done. */
    function Done(): (b: bool)
      ensures !b
    {
      false
    }
  }
}
