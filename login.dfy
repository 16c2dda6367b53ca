/**
 * The LOGIN mechanism (lib/net/sasl/login_authenticator.rb): the first
 * `process` sends the username, the second the password, every later one
 * nothing; the challenges themselves are never looked at.
 */
module Login {
  import opened Strings
  import opened Errors
  import Base

  /** `initialize(username, password, **_options)`: exactly two positional arguments, so no authzid. */
  predicate AcceptsPositional(n: nat) {
    n == 2
  }

  datatype LoginState = User | Password | LoginDone

  /** The state after one more `process` call. */
  function Next(s: LoginState): LoginState {
    match s
    case User => Password
    case Password => LoginDone
    case LoginDone => LoginDone
  }

  /** What `process` returns in state `s`: the `case` has no branch for DONE, so `nil` there. */
  function Response(s: LoginState, username: Option<Bytes>, password: Option<Bytes>): Option<Bytes> {
    match s
    case User => username
    case Password => password
    case LoginDone => None
  }

  /** The state of a fresh authenticator after `k` calls of `process`. */
  function After(k: nat): LoginState {
    if k == 0 then User else Next(After(k - 1))
  }

  /** `done?` holds exactly after the second call, and DONE is never left. */
  lemma {:induction false} DoneAfterTwoCalls(k: nat)
    ensures After(k) == LoginDone <==> k >= 2
    ensures After(k) == (if k == 0 then User else if k == 1 then Password else LoginDone)
  {
    if k > 0 {
      DoneAfterTwoCalls(k - 1);
    }
  }

  /** The k-th reply (counting from 0) is the username, then the password, then `nil` forever. */
  lemma Transcript(k: nat, username: Option<Bytes>, password: Option<Bytes>)
    ensures Response(After(k), username, password)
         == (if k == 0 then username else if k == 1 then password else None)
  {
    DoneAfterTwoCalls(k);
  }

  class LoginAuthenticator {
    const username: Option<Bytes>
    const password: Option<Bytes>
    var state: LoginState

    constructor (username: Option<Bytes>, password: Option<Bytes>)
      ensures this.username == username && this.password == password
      ensures state == User
    {
      this.username := username;
      this.password := password;
      state := User;
    }

    /** Inherited: LOGIN waits for the server's first prompt. */
    function SupportsInitialResponse(): (b: bool)
      ensures !b
    {
      false
    }

    function Done(): bool
      reads this
    {
      state == LoginDone
    }

    /** Replies for the current state and advances it; `data` plays no part. */
    method Process(data: Base.Challenge) returns (r: Option<Bytes>)
      modifies this
      ensures state == Next(old(state))
      ensures r == Response(old(state), username, password)
    {
      match state
      case User =>
        state := Password;
        r := username;
      case Password =>
        state := LoginDone;
        r := password;
      case LoginDone =>
        r := None;
    }
  }
}
