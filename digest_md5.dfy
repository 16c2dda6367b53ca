/**
 * The DIGEST-MD5 mechanism (RFC 2831; lib/net/sasl/digest_md5_authenticator.rb).
 * The first challenge is parsed, the server must offer the "auth" quality of
 * protection, and the reply is the comma-separated response directives with
 * the response value of section 2.1.2.1 of RFC 2831. The second challenge
 * must carry `rspauth=` and is answered with the empty string; any further
 * challenge is an error.
 */
module DigestMD5 {
  import opened Strings
  import opened Errors
  import opened Crypto
  import Base
  import opened DigestChallenge
  import opened Readings

  /** `initialize(username, password, authzid = nil, **_options)`: two or three positional arguments. */
  predicate AcceptsPositional(n: nat) {
    2 <= n <= 3
  }

  /** `@stage`: `:stage_one`, `:stage_two`, then `nil` once both challenges are answered. */
  datatype Stage = StageOne | StageTwo | Finished

  /**
   * The Ruby values the response hash holds: a string, an array of strings
   * (a quoted challenge value that held commas), the integer `maxbuf`, or `nil`.
   */
  datatype Value = Str(s: Bytes) | Arr(items: seq<Bytes>) | Num(n: nat) | Nil

  /** `sparams[k]` as a value: a missing directive is `nil`. */
  function FromParam(p: Option<Param>): (v: Value)
    ensures p.None? <==> v == Nil
  {
    match p
    case None => Nil
    case Some(Text(s)) => Str(s)
    case Some(List(items)) => Arr(items)
  }

  function FromOpt(x: Option<Bytes>): (v: Value)
    ensures x.None? <==> v == Nil
    ensures x.Some? ==> v == Str(x.value)
  {
    if x.Some? then Str(x.value) else Nil
  }

  function Lookup(sp: Params, k: Bytes): (p: Option<Param>)
    ensures p.Some? <==> k in sp
    ensures p.Some? ==> p.value == sp[k]
  {
    if k in sp then Some(sp[k]) else None
  }

  /** `Array#inspect` of strings, each between double quotes (escapes inside the strings are not modelled). */
  function Inspect(items: seq<Bytes>): (r: Bytes)
    ensures |r| >= 2 && r[0] == '[' && r[|r| - 1] == ']'
  {
    "[" + Join(seq(|items|, i requires 0 <= i < |items| => "\"" + items[i] + "\""), ", ") + "]"
  }

  /** The text of a value interpolated with `#{}` or `%s`: `nil` is empty, an array is inspected. */
  function ToS(v: Value): (r: Bytes)
    ensures v.Str? ==> r == v.s
    ensures v == Nil ==> r == []
  {
    match v
    case Str(s) => s
    case Arr(items) => Inspect(items)
    case Num(n) => Decimal(n)
    case Nil => []
  }

  /**
   * The elements a value contributes to `Array#join` inside a nested array:
   * itself, "" for `nil`, and each of its strings for an array (an empty
   * array still leaves one empty element between its separators).
   */
  function Flat(v: Value): (r: seq<Bytes>)
    ensures |r| >= 1
    ensures v.Str? ==> r == [v.s]
    ensures v == Nil ==> r == [[]]
  {
    match v
    case Str(s) => [s]
    case Arr(items) => if items == [] then [[]] else items
    case Num(n) => [Decimal(n)]
    case Nil => [[]]
  }

  // The response value, as the authenticator computes it.

  /** `a0`: the binary MD5 of `[[username, realm], password].join(":")`. */
  function A0(md5: Md5, user: Value, realm: Value, password: Option<Bytes>): (a: Bytes)
    ensures |a| == 16
  {
    md5(Join(Flat(user) + Flat(realm) + Flat(FromOpt(password)), ":"))
  }

  /** `a1`: `[a0, [nonce, cnonce]].join(":")`, then ":authzid" when an authzid is given. */
  function A1(a0: Bytes, nonce: Value, cnonce: Bytes, authzid: Option<Bytes>): Bytes {
    Join([a0] + Flat(nonce) + [cnonce], ":") + (if authzid.Some? then ":" + authzid.value else [])
  }

  /** `a2`: "AUTHENTICATE:" and the digest-uri (qop is always "auth", so no integrity suffix). */
  function A2(uri: Bytes): Bytes {
    "AUTHENTICATE:" + uri
  }

  /** `response`: the hex MD5 of `[hex(MD5(a1)), [nonce, nc, cnonce, qop], hex(MD5(a2))].join(":")`. */
  function ResponseValue(md5: Md5, a1: Bytes, nonce: Value, nc: Bytes, cnonce: Bytes, uri: Bytes): (r: Bytes)
    ensures |r| == 32 && IsLowerHex(r)
  {
    Hex(md5(Join([Hex(md5(a1))] + Flat(nonce) + [nc, cnonce, Auth, Hex(md5(A2(uri)))], ":")))
  }

  // The response value as section 2.1.2.1 of RFC 2831 defines it.

  /** KD(k, s) = H({k, ":", s}). */
  function KD(md5: Md5, k: Bytes, s: Bytes): Bytes {
    md5(k + ":" + s)
  }

  /** A1 = { H({username-value, ":", realm-value, ":", passwd}), ":", nonce-value, ":", cnonce-value [":", authzid-value] }. */
  function RfcA1(md5: Md5, user: Bytes, realm: Bytes, passwd: Bytes, nonce: Bytes, cnonce: Bytes, authzid: Option<Bytes>): Bytes {
    md5(user + ":" + realm + ":" + passwd) + ":" + nonce + ":" + cnonce + (if authzid.Some? then ":" + authzid.value else [])
  }

  /** response-value = HEX(KD(HEX(H(A1)), {nonce-value, ":", nc-value, ":", cnonce-value, ":", qop-value, ":", HEX(H(A2))})). */
  function RfcResponse(md5: Md5, user: Bytes, realm: Bytes, passwd: Bytes, nonce: Bytes, cnonce: Bytes,
                       authzid: Option<Bytes>, nc: Bytes, uri: Bytes): Bytes {
    Hex(KD(md5, Hex(md5(RfcA1(md5, user, realm, passwd, nonce, cnonce, authzid))),
           nonce + ":" + nc + ":" + cnonce + ":" + Auth + ":" + Hex(md5("AUTHENTICATE:" + uri))))
  }

  lemma JoinCons(x: Bytes, rest: seq<Bytes>, sep: Bytes)
    requires rest != []
    ensures Join([x] + rest, sep) == x + sep + Join(rest, sep)
  {
    assert ([x] + rest)[1..] == rest;
  }

  /** A0 is H({username-value, ":", realm-value, ":", passwd}) when username and realm are plain strings. */
  lemma A0MatchesRfc(md5: Md5, user: Option<Bytes>, realm: Option<Bytes>, password: Option<Bytes>)
    ensures A0(md5, FromOpt(user), FromOpt(realm), password)
         == md5(Base.Str(user) + ":" + Base.Str(realm) + ":" + Base.Str(password))
  {
    var u, r, p := Base.Str(user), Base.Str(realm), Base.Str(password);
    assert Flat(FromOpt(user)) + Flat(FromOpt(realm)) + Flat(FromOpt(password)) == [u, r, p];
    Join3(u, r, p, ":");
  }

  lemma Join3(a: Bytes, b: Bytes, c: Bytes, sep: Bytes)
    ensures Join([a, b, c], sep) == a + sep + b + sep + c
  {
    JoinCons(b, [c], sep);
    JoinCons(a, [b, c], sep);
    assert [a] + [b, c] == [a, b, c];
    assert a + sep + (b + sep + c) == a + sep + b + sep + c;
  }

  /** The authenticator's A1 is the A1 of RFC 2831 when username, realm and nonce are plain strings. */
  lemma A1MatchesRfc(md5: Md5, user: Option<Bytes>, realm: Option<Bytes>, password: Option<Bytes>,
                     nonce: Option<Bytes>, cnonce: Bytes, authzid: Option<Bytes>)
    ensures A1(A0(md5, FromOpt(user), FromOpt(realm), password), FromOpt(nonce), cnonce, authzid)
         == RfcA1(md5, Base.Str(user), Base.Str(realm), Base.Str(password), Base.Str(nonce), cnonce, authzid)
  {
    var a0 := A0(md5, FromOpt(user), FromOpt(realm), password);
    A0MatchesRfc(md5, user, realm, password);
    var n := Base.Str(nonce);
    assert [a0] + Flat(FromOpt(nonce)) + [cnonce] == [a0, n, cnonce];
    Join3(a0, n, cnonce, ":");
  }

  /** The digest the authenticator sends is response-value of RFC 2831 for plain username, realm and nonce. */
  lemma ResponseMatchesRfc(md5: Md5, user: Option<Bytes>, realm: Option<Bytes>, password: Option<Bytes>,
                           nonce: Option<Bytes>, cnonce: Bytes, authzid: Option<Bytes>, nc: Bytes, uri: Bytes)
    ensures ResponseValue(md5, A1(A0(md5, FromOpt(user), FromOpt(realm), password), FromOpt(nonce), cnonce, authzid),
                          FromOpt(nonce), nc, cnonce, uri)
         == RfcResponse(md5, Base.Str(user), Base.Str(realm), Base.Str(password), Base.Str(nonce), cnonce, authzid, nc, uri)
  {
    var a1 := A1(A0(md5, FromOpt(user), FromOpt(realm), password), FromOpt(nonce), cnonce, authzid);
    A1MatchesRfc(md5, user, realm, password, nonce, cnonce, authzid);
    var n := Base.Str(nonce);
    var h1, h2 := Hex(md5(a1)), Hex(md5(A2(uri)));
    assert [h1] + Flat(FromOpt(nonce)) + [nc, cnonce, Auth, h2] == [h1] + [n, nc, cnonce, Auth, h2];
    JoinTail(h1, n, nc, cnonce, h2);
  }

  lemma JoinTail(h1: Bytes, n: Bytes, nc: Bytes, cnonce: Bytes, h2: Bytes)
    ensures Join([h1] + [n, nc, cnonce, Auth, h2], ":") == h1 + ":" + (n + ":" + nc + ":" + cnonce + ":" + Auth + ":" + h2)
  {
    JoinCons(Auth, [h2], ":");
    JoinCons(cnonce, [Auth, h2], ":");
    JoinCons(nc, [cnonce, Auth, h2], ":");
    JoinCons(n, [nc, cnonce, Auth, h2], ":");
    JoinCons(h1, [n, nc, cnonce, Auth, h2], ":");
  }

  // Quoting of directive values.

  // The directive names of the response.
  const NonceKey: Bytes := "nonce"
  const UsernameKey: Bytes := "username"
  const RealmKey: Bytes := "realm"
  const CnonceKey: Bytes := "cnonce"
  const DigestUriKey: Bytes := "digest-uri"
  const QopKey: Bytes := "qop"
  const MaxbufKey: Bytes := "maxbuf"
  const NcKey: Bytes := "nc"
  const CharsetKey: Bytes := "charset"
  const AuthzidKey: Bytes := "authzid"
  const ResponseKey: Bytes := "response"

  /** The only quality of protection the client asks for. */
  const Auth: Bytes := "auth"

  /** The keys of the response hash, Ruby symbols. */
  datatype Directive = Nonce | Username | Realm | Cnonce | DigestUri | Qop | Maxbuf | Nc | Charset | Authzid | Response

  /** `Symbol#to_s`: the directive name written on the wire. */
  function Name(k: Directive): (r: Bytes)
    ensures |r| > 0
  {
    match k
    case Nonce => NonceKey
    case Username => UsernameKey
    case Realm => RealmKey
    case Cnonce => CnonceKey
    case DigestUri => DigestUriKey
    case Qop => QopKey
    case Maxbuf => MaxbufKey
    case Nc => NcKey
    case Charset => CharsetKey
    case Authzid => AuthzidKey
    case Response => ResponseKey
  }

  /** The names whose values are written between double quotes. */
  const QuotedNames: set<Bytes> := {UsernameKey, AuthzidKey, RealmKey, NonceKey, CnonceKey, DigestUriKey, QopKey}

  /** A directive whose value is written between double quotes. */
  predicate Quoted(k: Directive) {
    k in {Username, Authzid, Realm, Nonce, Cnonce, DigestUri, Qop}
  }

  /** `qdval` decides on the name: the quoted directives are exactly those whose name is listed. */
  lemma QuotedByName(k: Directive)
    ensures Quoted(k) <==> Name(k) in QuotedNames
  {
  }

  /** A backslash before every `\` and `"`, as the quoted-string of section 2.2 of RFC 2616 requires. */
  function Escape(v: Bytes): (r: Bytes)
    ensures |r| >= |v|
  {
    if v == [] then []
    else (if v[0] == '\\' || v[0] == '"' then ['\\', v[0]] else [v[0]]) + Escape(v[1..])
  }

  /** Reading a quoted-string's contents: a backslash makes the next byte literal. */
  function Unescape(s: Bytes): Bytes
    decreases |s|
  {
    if s == [] then []
    else if s[0] == '\\' && |s| >= 2 then [s[1]] + Unescape(s[2..])
    else [s[0]] + Unescape(s[1..])
  }

  /** Escaping loses nothing: the reader gets the value back. */
  lemma {:induction false} EscapeRoundTrip(v: Bytes)
    ensures Unescape(Escape(v)) == v
  {
    if v != [] {
      EscapeRoundTrip(v[1..]);
      var e := Escape(v);
      if v[0] == '\\' || v[0] == '"' {
        assert e[2..] == Escape(v[1..]);
      } else {
        assert e[1..] == Escape(v[1..]);
      }
    }
  }

  /** Neither `\` nor `"` occurs in `v`. */
  predicate Plain(v: Bytes) {
    forall i :: 0 <= i < |v| ==> v[i] != '\\' && v[i] != '"'
  }

  /** A value with neither `\` nor `"` is written unchanged. */
  lemma {:induction false} EscapePlain(v: Bytes)
    requires Plain(v)
    ensures Escape(v) == v
  {
    if v != [] {
      EscapePlain(v[1..]);
    }
  }

  /**
   * An escaped value followed by `"` is one complete quoted token for the
   * challenge grammar: the token ends at that quote and not before.
   */
  lemma {:induction false} EscapedTokenCloses(s: Bytes, i: nat, v: Bytes, end: nat)
    requires end == i + |Escape(v)| && end < |s|
    requires s[i..end] == Escape(v) && s[end] == '"'
    ensures QuotedEnd(s, i) == Some(end + 1)
    decreases |v|
  {
    var e := Escape(v);
    if v != [] {
      var h := if v[0] == '\\' || v[0] == '"' then 2 else 1;
      assert e[h..] == Escape(v[1..]);
      SliceWithin(s, i, e, h, |e|);
      assert s[i] == e[0];
      if h == 2 {
        assert s[i + 1] == e[1];
      }
      EscapedTokenCloses(s, i + h, v[1..], end);
    }
  }

  /** `'%s="%s"' % [k, v]`. */
  function QuotedDirective(k: Directive, v: Bytes): Bytes {
    Name(k) + "=\"" + v + "\""
  }

  /** `"%s=%s" % [k, v]`. */
  function BareDirective(k: Directive, v: Bytes): Bytes {
    Name(k) + "=" + v
  }

  /**
   * `qdval` for one directive: `nil` gives `nil`, quoted keys are escaped
   * and quoted, others written as they are. `gsub!` on an array or an
   * integer raises `NoMethodError`. As written the escape is `GsubAsWritten`.
   */
  function Qdval(reading: Reading, key: Directive, v: Value): (r: Result<Option<Bytes>>)
    ensures r == Ok(None) <==> v == Nil
    ensures r.Raise? <==> Quoted(key) && (v.Arr? || v.Num?)
    ensures r.Raise? ==> r.error == NoMethodError
    ensures r.Ok? && r.value.Some? ==> StartsWith(r.value.value, Name(key) + "=")
  {
    if v == Nil then Ok(None)
    else if Quoted(key) then
      if v.Str? then Ok(Some(QuotedDirective(key, if reading == AsWritten then GsubAsWritten(v.s) else Escape(v.s))))
      else Raise(NoMethodError)
    else Ok(Some(BareDirective(key, ToS(v))))
  }

  /** A quoted directive reads back as its value: its token closes at the final quote and unescapes to `s`. */
  lemma QdvalQuoted(key: Directive, s: Bytes)
    requires Quoted(key)
    ensures Qdval(Intended, key, Str(s)).Ok? && Qdval(Intended, key, Str(s)).value.Some?
    ensures var d := Qdval(Intended, key, Str(s)).value.value;
      var i := |Name(key)| + 2;
      i <= |d| && QuotedEnd(d, i) == Some(|d|) && Unescape(d[i..|d| - 1]) == s
  {
    var e := Escape(s);
    var d := QuotedDirective(key, e);
    assert Qdval(Intended, key, Str(s)) == Ok(Some(d));
    QuotedLayout(Name(key), e);
    EscapedTokenCloses(d, |Name(key)| + 2, s, |d| - 1);
    EscapeRoundTrip(s);
  }

  /** Where the value sits in `k="v"`: after the key and `="`, before the closing quote. */
  lemma QuotedLayout(name: Bytes, v: Bytes)
    ensures var d := name + "=\"" + v + "\"";
      |d| == |name| + 2 + |v| + 1 && d[|name| + 2..|d| - 1] == v && d[|d| - 1] == '"'
  {
  }

  /** `qdval` as written: `gsub!(/([\\"])/, "\\\1")` puts a backslash and the byte 0x01 in place of each `\` or `"`. */
  function GsubAsWritten(v: Bytes): (r: Bytes)
    ensures |r| >= |v|
  {
    if v == [] then []
    else (if v[0] == '\\' || v[0] == '"' then ['\\', '\U{01}'] else [v[0]]) + GsubAsWritten(v[1..])
  }

  /** `v` with every `\` and `"` replaced by the byte 0x01. */
  function Blanked(v: Bytes): (r: Bytes)
    ensures |r| == |v|
  {
    seq(|v|, i requires 0 <= i < |v| => if v[i] == '\\' || v[i] == '"' then '\U{01}' else v[i])
  }

  /** A server reading the as-written escape gets `v` with each `\` and `"` turned into 0x01. */
  lemma {:induction false} GsubReadsBack(v: Bytes)
    ensures Unescape(GsubAsWritten(v)) == Blanked(v)
  {
    if v != [] {
      GsubReadsBack(v[1..]);
      var g := GsubAsWritten(v);
      if v[0] == '\\' || v[0] == '"' {
        assert g[2..] == GsubAsWritten(v[1..]);
      } else {
        assert g[1..] == GsubAsWritten(v[1..]);
      }
      assert Blanked(v) == [Blanked(v)[0]] + Blanked(v[1..]);
    }
  }

  /** So the server gets the value back exactly when it holds neither `\` nor `"`. */
  lemma GsubReadsBackPlain(v: Bytes)
    ensures Unescape(GsubAsWritten(v)) == v <==> Plain(v)
  {
    GsubReadsBack(v);
    if !Plain(v) {
      var i :| 0 <= i < |v| && (v[i] == '\\' || v[i] == '"');
      assert Blanked(v)[i] != v[i];
    }
  }

  /** A value with neither `\` nor `"` is written unchanged as written too. */
  lemma {:induction false} GsubPlain(v: Bytes)
    requires Plain(v)
    ensures GsubAsWritten(v) == v
  {
    if v != [] {
      GsubPlain(v[1..]);
    }
  }

  /** As written, a username holding `"` reaches the server as a backslash and 0x01: the quote is lost. */
  lemma GsubLosesQuote()
    ensures Qdval(AsWritten, Username, Str("\"")) == Ok(Some("username=\"\\\U{01}\""))
    ensures Unescape(GsubAsWritten("\"")) == "\U{01}" != "\""
    ensures Qdval(Intended, Username, Str("\"")) == Ok(Some("username=\"\\\"\""))
  {
    var q: Bytes := "\"";
    assert q[1..] == [];
    assert GsubAsWritten(q) == "\\\U{01}";
    assert Escape(q) == "\\\"";
    assert UsernameKey + "=\"" + "\\\U{01}" + "\"" == "username=\"\\\U{01}\"";
    assert UsernameKey + "=\"" + "\\\"" + "\"" == "username=\"\\\"\"";
  }

  // The response directives.

  /** `response.keys.map { qdval }`: every directive in order, or the first exception. */
  function RenderAll(reading: Reading, fields: seq<(Directive, Value)>): (r: Result<seq<Bytes>>)
    ensures r.Raise? ==> r.error == NoMethodError
  {
    if fields == [] then Ok([])
    else
      match Qdval(reading, fields[0].0, fields[0].1)
      case Raise(e) => Raise(e)
      case Ok(d) =>
        match RenderAll(reading, fields[1..])
        case Raise(e) => Raise(e)
        case Ok(rest) => Ok([Base.Str(d)] + rest)
  }

  /** The directives render when each one does, and then each part is that directive's text. */
  lemma {:induction false} RenderAllEach(reading: Reading, fields: seq<(Directive, Value)>)
    ensures RenderAll(reading, fields).Ok? <==> forall i :: 0 <= i < |fields| ==> Qdval(reading, fields[i].0, fields[i].1).Ok?
    ensures RenderAll(reading, fields).Ok? ==> (|RenderAll(reading, fields).value| == |fields| &&
      forall i :: 0 <= i < |fields| ==> RenderAll(reading, fields).value[i] == Base.Str(Qdval(reading, fields[i].0, fields[i].1).value))
  {
    if fields != [] {
      RenderAllEach(reading, fields[1..]);
      assert forall i :: 1 <= i < |fields| ==> fields[i] == fields[1..][i - 1];
    }
  }

  /** `.join(",")` of the rendered directives (a `nil` directive leaves an empty item). */
  function Serialize(reading: Reading, fields: seq<(Directive, Value)>): (r: Result<Bytes>)
    ensures r.Ok? <==> RenderAll(reading, fields).Ok?
  {
    match RenderAll(reading, fields)
    case Raise(e) => Raise(e)
    case Ok(parts) => Ok(Join(parts, Comma))
  }

  /** The largest buffer size the client announces. */
  const MaxBuf: nat := 65535

  /** `"imap/#{realm}"`: the service is always IMAP and the host is the realm the server named. */
  function ServiceUri(realm: Value): (uri: Bytes)
    ensures realm.Str? ==> uri == "imap/" + realm.s
  {
    "imap/" + ToS(realm)
  }

  /**
   * The response hash in insertion order: nonce, username, realm, cnonce,
   * digest-uri, qop, maxbuf, nc, charset, authzid when given, and response.
   */
  function Directives(nonce: Value, user: Value, realm: Value, cnonce: Bytes, uri: Bytes, nc: Bytes,
                      charset: Value, authzid: Option<Bytes>, response: Bytes): (fs: seq<(Directive, Value)>)
    ensures |fs| == (if authzid.Some? then 11 else 10)
  {
    [(Nonce, nonce), (Username, user), (Realm, realm), (Cnonce, Str(cnonce)),
     (DigestUri, Str(uri)), (Qop, Str(Auth)), (Maxbuf, Num(MaxBuf)), (Nc, Str(nc)),
     (Charset, charset)]
    + (if authzid.Some? then [(Authzid, Str(authzid.value))] else [])
    + [(Response, Str(response))]
  }

  /** The directives for a parsed challenge, with the nonce used `count` times and the response value computed. */
  function ResponseFields(sp: Params, user: Option<Bytes>, password: Option<Bytes>, authzid: Option<Bytes>,
                          md5: Md5, cnonce: Bytes, count: nat): (fs: seq<(Directive, Value)>)
    ensures |fs| == (if authzid.Some? then 11 else 10)
  {
    var nonce := FromParam(Lookup(sp, NonceKey));
    var realm := FromParam(Lookup(sp, RealmKey));
    var uri := ServiceUri(realm);
    var nc := ZeroPadded(count, 8);
    var a1 := A1(A0(md5, FromOpt(user), realm, password), nonce, cnonce, authzid);
    Directives(nonce, FromOpt(user), realm, cnonce, uri, nc, FromParam(Lookup(sp, CharsetKey)), authzid,
               ResponseValue(md5, a1, nonce, nc, cnonce, uri))
  }

  /**
   * The directives as they go out when no value needs an escape: each quoted
   * directive is `key="value"`, the others `key=value`, in the order of the hash.
   */
  function PlainParts(nonce: Bytes, user: Bytes, realm: Bytes, cnonce: Bytes, uri: Bytes, nc: Bytes,
                      charset: Bytes, authzid: Bytes, response: Bytes): (parts: seq<Bytes>)
    ensures |parts| == 11
  {
    [QuotedDirective(Nonce, nonce), QuotedDirective(Username, user),
     QuotedDirective(Realm, realm), QuotedDirective(Cnonce, cnonce),
     QuotedDirective(DigestUri, uri), QuotedDirective(Qop, Auth),
     BareDirective(Maxbuf, Decimal(MaxBuf)), BareDirective(Nc, nc),
     BareDirective(Charset, charset), QuotedDirective(Authzid, authzid),
     BareDirective(Response, response)]
  }

  /** `,` between directives. */
  const Comma: Bytes := ","

  /** Values without `\` or `"` go out verbatim, joined by commas. */
  lemma PlainDirectives(reading: Reading, nonce: Bytes, user: Bytes, realm: Bytes, cnonce: Bytes, uri: Bytes, nc: Bytes,
                        charset: Bytes, authzid: Bytes, response: Bytes)
    requires Plain(nonce) && Plain(user) && Plain(realm) && Plain(cnonce) && Plain(uri) && Plain(authzid)
    ensures Serialize(reading, Directives(Str(nonce), Str(user), Str(realm), cnonce, uri, nc, Str(charset), Some(authzid), response))
         == Ok(Join(PlainParts(nonce, user, realm, cnonce, uri, nc, charset, authzid, response), Comma))
  {
    PlainRendered(reading, nonce, user, realm, cnonce, uri, nc, charset, authzid, response);
  }

  /** Each directive of a plain response renders to the matching part. */
  lemma PlainRendered(reading: Reading, nonce: Bytes, user: Bytes, realm: Bytes, cnonce: Bytes, uri: Bytes, nc: Bytes,
                      charset: Bytes, authzid: Bytes, response: Bytes)
    requires Plain(nonce) && Plain(user) && Plain(realm) && Plain(cnonce) && Plain(uri) && Plain(authzid)
    ensures RenderAll(reading, Directives(Str(nonce), Str(user), Str(realm), cnonce, uri, nc, Str(charset), Some(authzid), response))
         == Ok(PlainParts(nonce, user, realm, cnonce, uri, nc, charset, authzid, response))
  {
    var r3 := [(Nonce, Str(nonce)), (Username, Str(user)), (Realm, Str(realm))];
    var q3 := [QuotedDirective(Nonce, nonce), QuotedDirective(Username, user), QuotedDirective(Realm, realm)];
    PlainHead(reading, nonce, user, realm);
    var r6 := r3 + [(Cnonce, Str(cnonce))] + [(DigestUri, Str(uri))] + [(Qop, Str(Auth))];
    var q6 := q3 + [QuotedDirective(Cnonce, cnonce)] + [QuotedDirective(DigestUri, uri)] + [QuotedDirective(Qop, Auth)];
    PlainMiddle(reading, r3, q3, cnonce, uri);
    var r9 := r6 + [(Maxbuf, Num(MaxBuf))] + [(Nc, Str(nc))] + [(Charset, Str(charset))];
    var q9 := q6 + [BareDirective(Maxbuf, Decimal(MaxBuf))] + [BareDirective(Nc, nc)] + [BareDirective(Charset, charset)];
    PlainBare(reading, r6, q6, nc, charset);
    var r11 := r9 + [(Authzid, Str(authzid))] + [(Response, Str(response))];
    var q11 := q9 + [QuotedDirective(Authzid, authzid)] + [BareDirective(Response, response)];
    PlainTail(reading, r9, q9, authzid, response);
    DirectivesInGroups(Str(nonce), Str(user), Str(realm), cnonce, uri, nc, Str(charset), authzid, response);
    PartsInGroups(nonce, user, realm, cnonce, uri, nc, charset, authzid, response);
  }

  /** The response hash, read as the four groups the rendering proof walks through. */
  lemma DirectivesInGroups(nonce: Value, user: Value, realm: Value, cnonce: Bytes, uri: Bytes, nc: Bytes,
                           charset: Value, authzid: Bytes, response: Bytes)
    ensures Directives(nonce, user, realm, cnonce, uri, nc, charset, Some(authzid), response)
         == [(Nonce, nonce), (Username, user), (Realm, realm)]
            + [(Cnonce, Str(cnonce))] + [(DigestUri, Str(uri))] + [(Qop, Str(Auth))]
            + [(Maxbuf, Num(MaxBuf))] + [(Nc, Str(nc))] + [(Charset, charset)]
            + [(Authzid, Str(authzid))] + [(Response, Str(response))]
  {
    DirectivesListed(nonce, user, realm, cnonce, uri, nc, charset, authzid, response);
  }

  /** The plain parts, read as the same four groups. */
  lemma PartsInGroups(nonce: Bytes, user: Bytes, realm: Bytes, cnonce: Bytes, uri: Bytes, nc: Bytes,
                      charset: Bytes, authzid: Bytes, response: Bytes)
    ensures PlainParts(nonce, user, realm, cnonce, uri, nc, charset, authzid, response)
         == [QuotedDirective(Nonce, nonce), QuotedDirective(Username, user), QuotedDirective(Realm, realm)]
            + [QuotedDirective(Cnonce, cnonce)] + [QuotedDirective(DigestUri, uri)] + [QuotedDirective(Qop, Auth)]
            + [BareDirective(Maxbuf, Decimal(MaxBuf))] + [BareDirective(Nc, nc)] + [BareDirective(Charset, charset)]
            + [QuotedDirective(Authzid, authzid)] + [BareDirective(Response, response)]
  {
  }

  /** nonce, username and realm. */
  lemma PlainHead(reading: Reading, nonce: Bytes, user: Bytes, realm: Bytes)
    requires Plain(nonce) && Plain(user) && Plain(realm)
    ensures RenderAll(reading, [(Nonce, Str(nonce)), (Username, Str(user)), (Realm, Str(realm))])
         == Ok([QuotedDirective(Nonce, nonce), QuotedDirective(Username, user), QuotedDirective(Realm, realm)])
  {
    var r1, q1 := [(Nonce, Str(nonce))], [QuotedDirective(Nonce, nonce)];
    QuotedPlain(reading, Nonce, nonce);
    RenderOne(reading, (Nonce, Str(nonce)), QuotedDirective(Nonce, nonce));
    var r2, q2 := r1 + [(Username, Str(user))], q1 + [QuotedDirective(Username, user)];
    QuotedPlain(reading, Username, user);
    RenderSnoc(reading, r1, (Username, Str(user)), q1, QuotedDirective(Username, user));
    QuotedPlain(reading, Realm, realm);
    RenderSnoc(reading, r2, (Realm, Str(realm)), q2, QuotedDirective(Realm, realm));
    assert r2 + [(Realm, Str(realm))] == [(Nonce, Str(nonce)), (Username, Str(user)), (Realm, Str(realm))];
    assert q2 + [QuotedDirective(Realm, realm)]
        == [QuotedDirective(Nonce, nonce), QuotedDirective(Username, user), QuotedDirective(Realm, realm)];
  }

  /** cnonce, digest-uri and qop after the first directives. */
  lemma PlainMiddle(reading: Reading, fs: seq<(Directive, Value)>, ps: seq<Bytes>, cnonce: Bytes, uri: Bytes)
    requires RenderAll(reading, fs) == Ok(ps) && Plain(cnonce) && Plain(uri)
    ensures RenderAll(reading, fs + [(Cnonce, Str(cnonce))] + [(DigestUri, Str(uri))] + [(Qop, Str(Auth))])
         == Ok(ps + [QuotedDirective(Cnonce, cnonce)] + [QuotedDirective(DigestUri, uri)] + [QuotedDirective(Qop, Auth)])
  {
    QuotedPlain(reading, Cnonce, cnonce);
    RenderSnoc(reading, fs, (Cnonce, Str(cnonce)), ps, QuotedDirective(Cnonce, cnonce));
    QuotedPlain(reading, DigestUri, uri);
    RenderSnoc(reading, fs + [(Cnonce, Str(cnonce))], (DigestUri, Str(uri)), ps + [QuotedDirective(Cnonce, cnonce)],
               QuotedDirective(DigestUri, uri));
    QuotedPlain(reading, Qop, Auth);
    RenderSnoc(reading, fs + [(Cnonce, Str(cnonce))] + [(DigestUri, Str(uri))], (Qop, Str(Auth)),
               ps + [QuotedDirective(Cnonce, cnonce)] + [QuotedDirective(DigestUri, uri)], QuotedDirective(Qop, Auth));
  }

  /** maxbuf, nc and charset, written without quotes. */
  lemma PlainBare(reading: Reading, fs: seq<(Directive, Value)>, ps: seq<Bytes>, nc: Bytes, charset: Bytes)
    requires RenderAll(reading, fs) == Ok(ps)
    ensures RenderAll(reading, fs + [(Maxbuf, Num(MaxBuf))] + [(Nc, Str(nc))] + [(Charset, Str(charset))])
         == Ok(ps + [BareDirective(Maxbuf, Decimal(MaxBuf))] + [BareDirective(Nc, nc)] + [BareDirective(Charset, charset)])
  {
    BareValue(reading, Maxbuf, Num(MaxBuf));
    RenderSnoc(reading, fs, (Maxbuf, Num(MaxBuf)), ps, BareDirective(Maxbuf, Decimal(MaxBuf)));
    BareValue(reading, Nc, Str(nc));
    RenderSnoc(reading, fs + [(Maxbuf, Num(MaxBuf))], (Nc, Str(nc)), ps + [BareDirective(Maxbuf, Decimal(MaxBuf))],
               BareDirective(Nc, nc));
    BareValue(reading, Charset, Str(charset));
    RenderSnoc(reading, fs + [(Maxbuf, Num(MaxBuf))] + [(Nc, Str(nc))], (Charset, Str(charset)),
               ps + [BareDirective(Maxbuf, Decimal(MaxBuf))] + [BareDirective(Nc, nc)], BareDirective(Charset, charset));
  }

  /** authzid and the response value close the reply. */
  lemma PlainTail(reading: Reading, fs: seq<(Directive, Value)>, ps: seq<Bytes>, authzid: Bytes, response: Bytes)
    requires RenderAll(reading, fs) == Ok(ps) && Plain(authzid)
    ensures RenderAll(reading, fs + [(Authzid, Str(authzid))] + [(Response, Str(response))])
         == Ok(ps + [QuotedDirective(Authzid, authzid)] + [BareDirective(Response, response)])
  {
    QuotedPlain(reading, Authzid, authzid);
    RenderSnoc(reading, fs, (Authzid, Str(authzid)), ps, QuotedDirective(Authzid, authzid));
    BareValue(reading, Response, Str(response));
    RenderSnoc(reading, fs + [(Authzid, Str(authzid))], (Response, Str(response)), ps + [QuotedDirective(Authzid, authzid)],
               BareDirective(Response, response));
  }

  /** A single directive renders alone. */
  lemma RenderOne(reading: Reading, f: (Directive, Value), p: Bytes)
    requires Qdval(reading, f.0, f.1) == Ok(Some(p))
    ensures RenderAll(reading, [f]) == Ok([p])
  {
    assert [f][1..] == [];
    assert RenderAll(reading, []) == Ok([]);
    assert [Base.Str(Some(p))] + [] == [p];
  }

  /** Rendering one more directive appends its text to the parts. */
  lemma {:induction false} RenderSnoc(reading: Reading, fs: seq<(Directive, Value)>, f: (Directive, Value), ps: seq<Bytes>, p: Bytes)
    requires RenderAll(reading, fs) == Ok(ps) && Qdval(reading, f.0, f.1) == Ok(Some(p))
    ensures RenderAll(reading, fs + [f]) == Ok(ps + [p])
    decreases |fs|
  {
    if fs == [] {
      assert fs + [f] == [f];
      assert RenderAll(reading, fs) == Ok([]);
      assert ps + [p] == [p];
      RenderOne(reading, f, p);
    } else {
      var rest := RenderAll(reading, fs[1..]).value;
      assert (fs + [f])[1..] == fs[1..] + [f];
      RenderSnoc(reading, fs[1..], f, rest, p);
      assert ps == [Base.Str(Qdval(reading, fs[0].0, fs[0].1).value)] + rest;
      assert ps + [p] == [ps[0]] + (rest + [p]);
    }
  }

  lemma DirectivesListed(nonce: Value, user: Value, realm: Value, cnonce: Bytes, uri: Bytes, nc: Bytes,
                         charset: Value, authzid: Bytes, response: Bytes)
    ensures Directives(nonce, user, realm, cnonce, uri, nc, charset, Some(authzid), response)
         == [(Nonce, nonce), (Username, user), (Realm, realm), (Cnonce, Str(cnonce)),
             (DigestUri, Str(uri)), (Qop, Str(Auth)), (Maxbuf, Num(MaxBuf)), (Nc, Str(nc)),
             (Charset, charset), (Authzid, Str(authzid)), (Response, Str(response))]
  {
  }

  /** A quoted directive whose value needs no escapes is `key="value"`. */
  lemma QuotedPlain(reading: Reading, key: Directive, v: Bytes)
    requires Quoted(key) && Plain(v)
    ensures Qdval(reading, key, Str(v)) == Ok(Some(QuotedDirective(key, v)))
  {
    if reading == AsWritten {
      GsubPlain(v);
    } else {
      EscapePlain(v);
    }
  }

  /** A directive that is not quoted is written as `key=value`. */
  lemma BareValue(reading: Reading, key: Directive, v: Value)
    requires !Quoted(key) && v != Nil
    ensures Qdval(reading, key, v) == Ok(Some(BareDirective(key, ToS(v))))
  {
  }

  // The qop check.

  /** The qop options the server offers; section 2.1.1 of RFC 2831 reads a missing directive as "auth". */
  function Offered(q: Option<Param>): (r: seq<Bytes>)
    ensures q.None? ==> r == [Auth]
  {
    match q
    case None => [Auth]
    case Some(Text(s)) => [s]
    case Some(List(items)) => items
  }

  /** The check the rest of the model uses: "auth" must be one of the offered options, else `Net::SASL::Error`. */
  function QopCheck(q: Option<Param>): (r: Option<ExceptionClass>)
    ensures r.None? <==> Auth in Offered(q)
    ensures r.Some? ==> r.value == SaslError
  {
    if Auth in Offered(q) then None else Some(SaslError)
  }

  /** `include?("auth")`: a substring test on a string, membership in an array. */
  predicate IncludesAuth(q: Option<Param>) {
    match q
    case None => false
    case Some(Text(s)) => Contains(s, Auth)
    case Some(List(items)) => Auth in items
  }

  /**
   * `sparams["qop"].include?("auth")` as written: on `nil` it raises
   * `NoMethodError`; on a string it is a substring test, and a failing
   * string raises `NoMethodError` again when the message calls `join`;
   * a failing array raises `Net::SASL::Error`.
   */
  function QopCheckAsWritten(q: Option<Param>): (r: Option<ExceptionClass>)
    ensures r.None? <==> IncludesAuth(q)
    ensures q.None? ==> r == Some(NoMethodError)
    ensures r.Some? && q.Some? && q.value.Text? ==> r.value == NoMethodError
    ensures r.Some? && q.Some? && q.value.List? ==> r.value == SaslError
  {
    match q
    case None => Some(NoMethodError)
    case Some(Text(s)) => if Contains(s, Auth) then None else Some(NoMethodError)
    case Some(List(items)) => if Auth in items then None else Some(SaslError)
  }

  /** Whenever the server sends a qop directive, the check as written accepts what the corrected one accepts. */
  lemma QopCheckAcceptsOffered(q: Option<Param>)
    requires q.Some? && QopCheck(q).None?
    ensures QopCheckAsWritten(q).None?
  {
    if q.value.Text? {
      assert q.value.s == Auth;
      assert StartsWith(Auth, Auth);
    }
  }

  /** The check a reading makes. */
  function QopRefusal(reading: Reading, q: Option<Param>): Option<ExceptionClass> {
    if reading == AsWritten then QopCheckAsWritten(q) else QopCheck(q)
  }

  /** The two checks agree whenever the server lists several options. */
  lemma QopChecksAgreeOnLists(items: seq<Bytes>)
    ensures QopCheckAsWritten(Some(List(items))) == QopCheck(Some(List(items)))
  {
  }

  /** As written, a server offering only "auth-int" passes the check; the corrected check refuses it. */
  lemma QopSubstringAccepted()
    ensures QopCheckAsWritten(Some(Text("auth-int"))).None?
    ensures QopCheck(Some(Text("auth-int"))) == Some(SaslError)
    ensures QopCheckAsWritten(None) == Some(NoMethodError) && QopCheck(None).None?
  {
    assert StartsWith("auth-int", "auth") by {
      assert "auth-int"[..4] == "auth";
    }
  }

  // The nonce counter and the stages.

  /** `nc(nonce)`: the count of uses of `nonce`, one more than before. */
  function NcNext(nc: map<Value, nat>, nonce: Value): (n: nat)
    ensures n >= 1
    ensures nonce !in nc ==> n == 1
    ensures nonce in nc ==> n == nc[nonce] + 1
  {
    if nonce in nc then nc[nonce] + 1 else 1
  }

  /** The serialized response directives for a parsed challenge whose nonce has been used `count` times. */
  function Answer(reading: Reading, sp: Params, user: Option<Bytes>, password: Option<Bytes>, authzid: Option<Bytes>,
                  md5: Md5, cnonce: Bytes, count: nat): (r: Base.Reply)
    ensures r.Ok? <==> RenderAll(reading, ResponseFields(sp, user, password, authzid, md5, cnonce, count)).Ok?
    ensures r.Ok? ==> r.value.Some?
  {
    match Serialize(reading, ResponseFields(sp, user, password, authzid, md5, cnonce, count))
    case Raise(e) => Raise(e)
    case Ok(out) => Ok(Some(out))
  }

  /** `StringScanner.new(challenge)` raises `TypeError` on `nil`; a string is parsed. */
  function ParseOpt(challenge: Base.Challenge): (r: Result<Params>)
    ensures challenge.None? ==> r == Raise(TypeError)
    ensures challenge.Some? ==> r == Parse(challenge.value)
  {
    if challenge.None? then Raise(TypeError) else Parse(challenge.value)
  }

  /** The first stage once the challenge is parsed: check qop, count the nonce, build and serialize. */
  function FirstReply(reading: Reading, parsed: Result<Params>, user: Option<Bytes>, password: Option<Bytes>, authzid: Option<Bytes>,
                      md5: Md5, cnonce: Bytes, nc: map<Value, nat>): (r: Base.Reply)
    ensures parsed.Raise? ==> r == Raise(parsed.error)
    ensures r.Ok? ==> r.value.Some? && parsed.Ok?
    ensures r.Ok? && reading == AsWritten ==> IncludesAuth(Lookup(parsed.value, QopKey))
    ensures r.Ok? && reading == Intended ==> Auth in Offered(Lookup(parsed.value, QopKey))
    ensures parsed.Ok? && reading == AsWritten && Lookup(parsed.value, QopKey).None? ==> r == Raise(NoMethodError)
  {
    match parsed
    case Raise(e) => Raise(e)
    case Ok(sp) =>
      var q := QopRefusal(reading, Lookup(sp, QopKey));
      if q.Some? then Raise(q.value)
      else Answer(reading, sp, user, password, authzid, md5, cnonce, NcNext(nc, FromParam(Lookup(sp, NonceKey))))
  }

  /** The nonce counts after the first stage: the challenge's nonce counted once if the qop check passed, else none. */
  function FirstCounts(reading: Reading, parsed: Result<Params>): (m: map<Value, nat>)
    ensures forall k :: k in m ==> m[k] == 1
    ensures m != map[] <==> parsed.Ok? && QopRefusal(reading, Lookup(parsed.value, QopKey)).None?
    ensures m != map[] ==> FromParam(Lookup(parsed.value, NonceKey)) in m && |m| == 1
  {
    if parsed.Ok? && QopRefusal(reading, Lookup(parsed.value, QopKey)).None? then
      var m := map[FromParam(Lookup(parsed.value, NonceKey)) := 1];
      assert m.Keys == {FromParam(Lookup(parsed.value, NonceKey))};
      m
    else map[]
  }

  /** A first challenge that passes the qop check is answered with its nonce counted once. */
  lemma FreshNonceAnswered(reading: Reading, sp: Params, user: Option<Bytes>, password: Option<Bytes>,
                           authzid: Option<Bytes>, md5: Md5, cnonce: Bytes)
    requires QopRefusal(reading, Lookup(sp, QopKey)).None?
    ensures FirstReply(reading, Ok(sp), user, password, authzid, md5, cnonce, map[])
         == Answer(reading, sp, user, password, authzid, md5, cnonce, 1)
  {
  }

  /** The whole first stage after the stage moves on: parse, then answer. */
  function StageOneReply(reading: Reading, challenge: Base.Challenge, user: Option<Bytes>, password: Option<Bytes>, authzid: Option<Bytes>,
                         md5: Md5, cnonce: Bytes, nc: map<Value, nat>): (r: Base.Reply)
    ensures challenge.None? ==> r == Raise(TypeError)
    ensures challenge.Some? && Parse(challenge.value).Raise? ==> r == Raise(DataFormatError)
  {
    FirstReply(reading, ParseOpt(challenge), user, password, authzid, md5, cnonce, nc)
  }

  /** The second stage: the server's `rspauth=` is acknowledged with an empty reply. */
  function StageTwoReply(challenge: Base.Challenge): (r: Base.Reply)
    ensures r.Ok? <==> challenge.Some? && Contains(challenge.value, "rspauth=")
    ensures r.Ok? ==> r.value == Some([])
    ensures r.Raise? ==> r.error == ChallengeParseError
  {
    if challenge.Some? && Contains(challenge.value, "rspauth=") then Ok(Some([])) else Raise(ChallengeParseError)
  }

  function NextStage(s: Stage): Stage {
    match s
    case StageOne => StageTwo
    case StageTwo => Finished
    case Finished => Finished
  }

  /** The stage after `k` calls of `process`, whatever each call returned. */
  function StageAfter(k: nat): Stage {
    if k == 0 then StageOne else NextStage(StageAfter(k - 1))
  }

  /** The exchange is done after exactly two challenges and stays done. */
  lemma {:induction false} DoneAfterTwo(k: nat)
    ensures StageAfter(k) == Finished <==> k >= 2
  {
    if k > 2 {
      DoneAfterTwo(k - 1);
    }
  }

  // The exchange of the DIGEST-MD5 example in test/net/sasl_test.rb.

  const ExampleUser: Bytes := "cid"
  const ExamplePassword: Bytes := "password"
  const ExampleAuthzid: Bytes := "zid"
  const ExampleRealm: Bytes := "somerealm"
  const ExampleNonce: Bytes := "OA6MG9tEQGm2hh"
  const ExampleCharset: Bytes := "utf-8"
  const ExampleUri: Bytes := "imap/" + ExampleRealm
  const FirstCount: Bytes := "00000001"
  const MaxBufText: Bytes := "65535"

  /** Eight digits for the first use of a nonce. */
  lemma FirstNc()
    ensures ZeroPadded(1, 8) == FirstCount
  {
    assert Decimal(1) == "1";
    assert Repeat('0', 7) == "0000000";
  }

  lemma MaxBufDigits()
    ensures Decimal(MaxBuf) == MaxBufText
  {
    assert Decimal(6) == "6";
    assert Decimal(65) == "65";
    assert Decimal(655) == "655";
    assert Decimal(6553) == "6553";
  }

  /** The response value of RFC 2831 for the example's credentials and challenge. */
  function ExampleResponse(md5: Md5, cnonce: Bytes): Bytes {
    RfcResponse(md5, ExampleUser, ExampleRealm, ExamplePassword, ExampleNonce, cnonce, Some(ExampleAuthzid),
                FirstCount, ExampleUri)
  }

  /** The expected reply: every directive in order, nothing needing escapes. */
  function ExampleReply(md5: Md5, cnonce: Bytes): Bytes {
    Join([QuotedDirective(Nonce, ExampleNonce), QuotedDirective(Username, ExampleUser),
          QuotedDirective(Realm, ExampleRealm), QuotedDirective(Cnonce, cnonce),
          QuotedDirective(DigestUri, ExampleUri), QuotedDirective(Qop, Auth),
          BareDirective(Maxbuf, MaxBufText), BareDirective(Nc, FirstCount),
          BareDirective(Charset, ExampleCharset), QuotedDirective(Authzid, ExampleAuthzid),
          BareDirective(Response, ExampleResponse(md5, cnonce))], Comma)
  }

  lemma ExampleLookups()
    ensures Lookup(ExampleParams(), NonceKey) == Some(Text(ExampleNonce))
    ensures Lookup(ExampleParams(), RealmKey) == Some(Text(ExampleRealm))
    ensures Lookup(ExampleParams(), CharsetKey) == Some(Text(ExampleCharset))
    ensures Lookup(ExampleParams(), QopKey) == Some(Text(Auth))
  {
  }

  lemma ExamplePlain()
    ensures Plain(ExampleNonce) && Plain(ExampleUser) && Plain(ExampleRealm) && Plain(ExampleUri) && Plain(ExampleAuthzid)
  {
  }

  lemma ExampleDirectivesBuilt(md5: Md5, cnonce: Bytes)
    ensures ResponseFields(ExampleParams(), Some(ExampleUser), Some(ExamplePassword), Some(ExampleAuthzid), md5, cnonce, 1)
         == Directives(Str(ExampleNonce), Str(ExampleUser), Str(ExampleRealm), cnonce, ExampleUri, FirstCount,
                       Str(ExampleCharset), Some(ExampleAuthzid), ExampleResponse(md5, cnonce))
  {
    ExampleLookups();
    FirstNc();
    ResponseMatchesRfc(md5, Some(ExampleUser), Some(ExampleRealm), Some(ExamplePassword), Some(ExampleNonce), cnonce,
                       Some(ExampleAuthzid), FirstCount, ExampleUri);
  }

  /** A hexadecimal client nonce needs no escaping. */
  lemma HexPlain(cnonce: Bytes)
    requires IsLowerHex(cnonce)
    ensures Plain(cnonce)
  {
  }

  /**
   * The first challenge of the DIGEST-MD5 example gets the reply the
   * example expects: the directives in order, nc 00000001, and the response
   * value of RFC 2831.
   */
  lemma ExampleExchange(reading: Reading, md5: Md5, seed: Bytes)
    ensures var cnonce := Hex(md5(seed));
      StageOneReply(reading, Some(Encode(ExampleFields())), Some(ExampleUser), Some(ExamplePassword), Some(ExampleAuthzid),
                    md5, cnonce, map[])
      == Ok(Some(ExampleReply(md5, cnonce)))
  {
    var cnonce := Hex(md5(seed));
    ParseExample();
    ExampleQopPasses(reading);
    FreshNonceAnswered(reading, ExampleParams(), Some(ExampleUser), Some(ExamplePassword), Some(ExampleAuthzid), md5, cnonce);
    HexPlain(cnonce);
    ExampleAnswer(reading, md5, cnonce);
  }

  /** The example's directives, with the nonce counted once, serialize to the expected reply. */
  lemma ExampleAnswer(reading: Reading, md5: Md5, cnonce: Bytes)
    requires Plain(cnonce)
    ensures Answer(reading, ExampleParams(), Some(ExampleUser), Some(ExamplePassword), Some(ExampleAuthzid), md5, cnonce, 1)
         == Ok(Some(ExampleReply(md5, cnonce)))
  {
    ExampleDirectivesBuilt(md5, cnonce);
    ExamplePlain();
    MaxBufDigits();
    PlainDirectives(reading, ExampleNonce, ExampleUser, ExampleRealm, cnonce, ExampleUri, FirstCount, ExampleCharset,
                    ExampleAuthzid, ExampleResponse(md5, cnonce));
  }

  /** The example offers `qop="auth"`, which both checks accept. */
  lemma ExampleQopPasses(reading: Reading)
    ensures QopRefusal(reading, Lookup(ExampleParams(), QopKey)).None?
  {
    ExampleLookups();
    assert StartsWith(Auth, Auth);
  }

  class DigestMD5Authenticator {
    const username: Option<Bytes>
    const password: Option<Bytes>
    const authzid: Option<Bytes>
    const md5: Md5
    /** The client nonce: the hex MD5 of the time, a random number and the process id, given as `seed`. */
    const cnonce: Bytes
    var nc: map<Value, nat>
    var stage: Stage

    /** The nonce counts are empty until the first stage, and every nonce has been counted once at most. */
    ghost predicate Valid()
      reads this
    {
      (stage == StageOne ==> nc == map[]) && (forall k :: k in nc ==> nc[k] == 1)
    }

    constructor (username: Option<Bytes>, password: Option<Bytes>, authzid: Option<Bytes>, md5: Md5, seed: Bytes)
      ensures Valid()
      ensures this.username == username && this.password == password && this.authzid == authzid
      ensures this.md5 == md5 && cnonce == Hex(md5(seed)) && IsLowerHex(cnonce)
      ensures nc == map[] && stage == StageOne
    {
      this.username := username;
      this.password := password;
      this.authzid := authzid;
      this.md5 := md5;
      cnonce := Hex(md5(seed));
      nc := map[];
      stage := StageOne;
    }

    /** `done?`: true once the stage is `nil`. */
    function Done(): (b: bool)
      reads this
      ensures b <==> stage == Finished
    {
      stage == Finished
    }

    /** `nc(nonce)`: counts one more use of `nonce` and returns the count. */
    method NextNc(nonce: Value) returns (n: nat)
      modifies this`nc
      ensures n == NcNext(old(nc), nonce)
      ensures nc == old(nc)[nonce := n]
      ensures stage == old(stage)
    {
      if nonce in nc {
        n := nc[nonce] + 1;
      } else {
        n := 1;
      }
      nc := nc[nonce := n];
    }

    /** The first stage once the challenge is parsed: check qop, count the nonce, build and serialize. */
    method RespondToParsed(parsed: Result<Params>) returns (r: Base.Reply)
      requires nc == map[]
      modifies this`nc
      ensures r == FirstReply(AsWritten, parsed, username, password, authzid, md5, cnonce, map[])
      ensures nc == FirstCounts(AsWritten, parsed)
    {
      if parsed.Raise? {
        return Raise(parsed.error);
      }
      var sp := parsed.value;
      var q := QopCheckAsWritten(Lookup(sp, QopKey));
      if q.Some? {
        return Raise(q.value);
      }
      var count := NextNc(FromParam(Lookup(sp, NonceKey)));
      r := Answer(AsWritten, sp, username, password, authzid, md5, cnonce, count);
    }

    /**
     * `process`: the stage moves on first, whatever follows; the first call
     * builds the response, the second acknowledges `rspauth`, later calls raise.
     */
    method Process(challenge: Base.Challenge) returns (r: Base.Reply)
      requires Valid()
      modifies this
      ensures Valid()
      ensures stage == NextStage(old(stage))
      ensures old(stage) == StageOne ==> r == StageOneReply(AsWritten, challenge, username, password, authzid, md5, cnonce, map[])
      ensures old(stage) == StageOne ==> nc == FirstCounts(AsWritten, ParseOpt(challenge))
      ensures old(stage) == StageTwo ==> r == StageTwoReply(challenge)
      ensures old(stage) == Finished ==> r == Raise(ChallengeParseError)
      ensures old(stage) != StageOne ==> nc == old(nc)
    {
      match stage
      case StageOne =>
        stage := StageTwo;
        var parsed := ParseChallenge(challenge);
        r := RespondToParsed(parsed);
      case StageTwo =>
        stage := Finished;
        r := StageTwoReply(challenge);
      case Finished =>
        r := Raise(ChallengeParseError);
    }
  }
}
