/**
 * The base authenticator (lib/net/sasl/authenticator.rb): it keeps the
 * three standard credentials, ignores every option, and by default neither
 * sends an initial response nor ever finishes; its `process` is left to the
 * mechanisms.
 */
module Base {
  import opened Strings
  import opened Errors

  /** A decoded server challenge; `None` asks for the initial response. */
  type Challenge = Option<Bytes>

  /** What `process` returns (a response, or `nil` for none) or the exception it raises. */
  type Reply = Result<Option<Bytes>>

  /** The rendering of a value interpolated into a Ruby string: `nil` becomes "". */
  function Str(x: Option<Bytes>): (s: Bytes)
    ensures x.Some? ==> s == x.value
    ensures x.None? ==> s == []
  {
    if x.Some? then x.value else []
  }

  /** `initialize(authcid = nil, credentials = nil, authzid = nil, **_options)` takes up to three positional arguments. */
  predicate AcceptsPositional(n: nat) {
    n <= 3
  }

  /** The `n`-th positional argument, `nil` when it was left out. */
  function Positional(args: seq<Option<Bytes>>, n: nat): (x: Option<Bytes>)
    ensures n < |args| ==> x == args[n]
    ensures n >= |args| ==> x == None
  {
    if n < |args| then args[n] else None
  }

  class Authenticator {
    const username: Option<Bytes>
    const password: Option<Bytes>
    const authzid: Option<Bytes>

    /** Stores authcid, credentials and authzid; the options play no part. */
    constructor (args: seq<Option<Bytes>>)
      requires AcceptsPositional(|args|)
      ensures username == Positional(args, 0)
      ensures password == Positional(args, 1)
      ensures authzid == Positional(args, 2)
    {
      username := Positional(args, 0);
      password := Positional(args, 1);
      authzid := Positional(args, 2);
    }

    /** The base mechanism does not send an initial response. */
    function SupportsInitialResponse(): (b: bool)
      ensures !b
    {
      false
    }

    /** Mechanisms override `process`; the base raises `NotImplementedError` whatever the challenge. */
    function Process(challenge: Challenge): (r: Reply)
      ensures r.Raise? && r.error == NotImplementedError
      ensures !IsA(r.error, StandardError)
    {
      Raise(NotImplementedError)
    }

    /** The base mechanism never reports completion. */
    function Done(): (b: bool)
      ensures !b
    {
      false
    }
  }
}
