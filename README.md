# net-sasl client mechanisms, modelled in Dafny

This project models the client side of `Net::SASL`, the Ruby library for SASL
(RFC 4422) authentication. It covers the mechanisms the library ships: PLAIN,
LOGIN, CRAM-MD5, DIGEST-MD5, the SCRAM-SHA-* family and ANONYMOUS. It also
covers the base `Authenticator` class, the `Registry` that maps upcased
mechanism names to authenticator classes, and the default registry that
`Net::SASL.authenticator` uses.

Ruby strings are byte strings (`Strings.Bytes`), and `nil` is `None`. A call
to `process` returns a `Base.Reply`. That is either `Ok` with the response
(`None` when the method returns `nil`) or `Raise` with the Ruby exception
class. Module `Errors` models the exception hierarchy.

Each authenticator is a class whose fields are the instance variables the Ruby
code assigns. A `process` that changes state is a `method`, and its `ensures`
ties the reply and the new state to a specification function (for example
`Login.Response`/`Login.Next`, `DigestMD5.StageOneReply` or `Scram.Step`).
The lemmas next to those functions state the protocol properties:

- the PLAIN message splits back into its three identities;
- LOGIN's transcript;
- the HMAC pads strip off again;
- a server challenge written as `key=value` fields parses back to those fields;
- DIGEST-MD5's response value is the one RFC 2831 defines;
- a SCRAM proof lets the server recover ClientKey;
- a full SCRAM exchange with an honest server ends done;
- a registry lookup ignores letter case.

The modules follow the library's files:

| module | file |
|---|---|
| `Strings`, `Errors`, `Crypto` | shared vocabulary: `upcase`, `split`, `chomp`, hex and decimal rendering; the exception classes; XOR and base64 |
| `Readings` | the two readings of the lines under Findings |
| `Base` | `lib/net/sasl/authenticator.rb` |
| `Plain`, `Login`, `CramMD5`, `Anonymous` | the four small mechanisms |
| `DigestChallenge`, `DigestMD5` | `lib/net/sasl/digest_md5_authenticator.rb` (challenge scanner; response) |
| `Scram` | `lib/net/sasl/scram_authenticator.rb` |
| `Registry` | `lib/net/sasl/registry.rb` |
| `Sasl` | `lib/net/sasl.rb` (module functions and the default registry) |

Where the code and its evident intent part ways (see Findings), the
functions involved take a `Readings.Reading`. `AsWritten` follows the code
line by line, and both `process` methods run it. `Intended` is the corrected
behaviour. Lemmas relate the two readings: where they agree, and an input
where they differ.

The model also keeps these behaviours of the code:

- `Registry#authenticator` always passes three positional arguments to `new`. LOGIN and CRAM-MD5 accept only two, so building them through any registry raises `ArgumentError` (`Registry.TwoArgumentMechanismsNeverBuild`, `Sasl.DefaultNeverBuildsTwoArgument`).
- ANONYMOUS is not in the default registry (`Sasl.DefaultKnows`), and its `process` raises `ArgumentError` for every challenge.
- CRAM-MD5 never sets `@done`, so `done?` stays false.
- SCRAM does not check that the server's nonce extends the client nonce. It writes the username into `n=` without escaping `,` or `=`. The model does the same.

## Model

| member | source | states |
|---|---|---|
| Errors.SaslErrorFamily | lib/net/sasl.rb:32-43 | `Net::SASL::Error` is the superclass of exactly `Error`, `DataFormatError` and `ChallengeParseError` |
| Strings.Upcase | lib/net/sasl/registry.rb:40 | `String#upcase` keeps the length and upcases each ASCII byte, and no lower-case letter is left |
| Strings.UpcaseIdempotent | lib/net/sasl/registry.rb:26 | upcasing an upcased name changes nothing, so a stored key is found again |
| Strings.JoinRawSplit | lib/net/sasl/plain_authenticator.rb:47 | joining the fields of a split on a separator gives the string back |
| Strings.RawSplitJoin | lib/net/sasl/plain_authenticator.rb:47 | splitting a join of separator-free fields gives the fields back |
| Strings.Chomp | lib/net/sasl/scram_authenticator.rb:80 | `chomp` keeps a prefix, drops at most two bytes, and drops something exactly when the string ends in a line break |
| Strings.ChompLine | lib/net/sasl/scram_authenticator.rb:80 | `chomp` removes exactly a newline appended to a line that does not end in a carriage return |
| Strings.Hex | lib/net/sasl/scram_authenticator.rb:37 | `hexdigest` and `SecureRandom.hex` produce two lower-case hex digits per byte |
| Strings.HexPair | lib/net/sasl/scram_authenticator.rb:37 | digits 2i and 2i+1 of the hex rendering are the high and low halves of byte i |
| Strings.HexRoundTrip | lib/net/sasl/scram_authenticator.rb:37 | reading the hex rendering back two digits at a time gives the bytes |
| Strings.DecimalValue | lib/net/sasl/digest_md5_authenticator.rb:77 | the decimal rendering of a number reads back as that number |
| Strings.ZeroPaddedValue | lib/net/sasl/digest_md5_authenticator.rb:78 | `"%08d"` keeps the value and reaches the width |
| Strings.ToIDecimal | lib/net/sasl/scram_authenticator.rb:69 | `to_i` reads back what the decimal rendering writes |
| Strings.ToIUnderscore | lib/net/sasl/scram_authenticator.rb:69 | `to_i` reads one underscore between two runs of digits as nothing, so `i=4_096` is 4096 iterations |
| Strings.ToIRadixPrefix | lib/net/sasl/scram_authenticator.rb:69 | `to_i` skips a leading `0d` or `0D` before the digits, so `i=0d12` is 12 iterations |
| Strings.ToIDoubleUnderscore | lib/net/sasl/scram_authenticator.rb:69 | two underscores in a row end the number, whatever follows them |
| Crypto.XorBytes | lib/net/sasl/scram_authenticator.rb:77 | the zipped XOR of two equal-length strings has their length and XORs each pair of bytes |
| Crypto.XorBytesInvolution | lib/net/sasl/scram_authenticator.rb:77 | XOR-ing with the same string twice gives the first string back |
| Crypto.XorBitsInvolution | lib/net/sasl/cram_md5_authenticator.rb:56-57 | `(x ^ m) ^ m == x` for the byte values `ord` gives |
| Crypto.Base64 | lib/net/sasl/scram_authenticator.rb:80 | base64 without line breaks has four characters per started group of three bytes, all from the base64 alphabet |
| Crypto.QuantumRoundTrip | lib/net/sasl/scram_authenticator.rb:80 | each four-character group decodes to the one to three bytes it encodes |
| Crypto.Base64RoundTrip | lib/net/sasl/scram_authenticator.rb:80 | decoding base64 (section 4 of RFC 4648) gives the encoded bytes back |
| Base.Str | lib/net/sasl/plain_authenticator.rb:47 | interpolating `nil` gives the empty string, and a string gives itself |
| Base.Authenticator.constructor | lib/net/sasl/authenticator.rb:43-47 | the three positional arguments, or `nil` when left out, become username, password and authzid |
| Base.Authenticator.SupportsInitialResponse | lib/net/sasl/authenticator.rb:50-52 | the base class does not support an initial response |
| Base.Authenticator.Process | lib/net/sasl/authenticator.rb:67-69 | the base `process` raises `NotImplementedError`, which is not a `StandardError` |
| Base.Authenticator.Done | lib/net/sasl/authenticator.rb:75-77 | the base class is never done |
| Plain.CheckNoNul | lib/net/sasl/plain_authenticator.rb:32-34 | `ArgumentError` exactly when username, password or authzid holds a NUL byte |
| Plain.MessageSplitsBack | lib/net/sasl/plain_authenticator.rb:47 | for identities without NUL, the message splits on NUL into exactly authzid, username and password |
| Plain.MessageExamples | test/net/sasl_test.rb:18-22 | the two PLAIN messages of the test suite |
| Plain.New | lib/net/sasl/plain_authenticator.rb:31-37 | `new` raises `ArgumentError` exactly when an identity holds NUL; otherwise it stores the identities and is not done |
| Plain.PlainAuthenticator.constructor | lib/net/sasl/plain_authenticator.rb:31-37 | stores the identities and starts not done |
| Plain.PlainAuthenticator.SupportsInitialResponse | lib/net/sasl/plain_authenticator.rb:40-42 | PLAIN supports an initial response |
| Plain.PlainAuthenticator.Process | lib/net/sasl/plain_authenticator.rb:45-48 | marks the authenticator done and returns authzid NUL username NUL password |
| Login.DoneAfterTwoCalls | lib/net/sasl/login_authenticator.rb:34-48 | after k calls the state is USER, PASSWORD, then DONE; it is DONE exactly from the second call on |
| Login.Transcript | lib/net/sasl/login_authenticator.rb:34-43 | the replies are the username, then the password, then `nil` forever |
| Login.LoginAuthenticator.constructor | lib/net/sasl/login_authenticator.rb:28-31 | stores username and password and starts in USER |
| Login.LoginAuthenticator.SupportsInitialResponse | lib/net/sasl/authenticator.rb:50-52 | LOGIN inherits "no initial response" |
| Login.LoginAuthenticator.Process | lib/net/sasl/login_authenticator.rb:34-43 | replies for the current state and moves to the next one |
| CramMD5.KeyBlock | lib/net/sasl/cram_md5_authenticator.rb:49-54 | the key block HMAC uses (the key, hashed to 16 bytes when longer than 64, then zero-padded) is always 64 bytes long |
| CramMD5.PadsRecoverKeyBlock | lib/net/sasl/cram_md5_authenticator.rb:53-58 | XOR-ing the inner or outer pad with its mask again gives the key block back |
| CramMD5.XorPad | lib/net/sasl/cram_md5_authenticator.rb:53-58 | the loop over `0..63` leaves each byte of a fresh buffer XORed with the mask |
| CramMD5.HmacMd5 | lib/net/sasl/cram_md5_authenticator.rb:48-63 | `hmac_md5` is the hex rendering of HMAC-MD5 from section 2 of RFC 2104 |
| CramMD5.Response | lib/net/sasl/cram_md5_authenticator.rb:41 | the reply is the username, a space, then the digest, and both can be cut back out of it |
| CramMD5.CramMD5Authenticator.constructor | lib/net/sasl/cram_md5_authenticator.rb:31-36 | stores username and password and starts not done |
| CramMD5.CramMD5Authenticator.SupportsInitialResponse | lib/net/sasl/authenticator.rb:50-52 | CRAM-MD5 inherits "no initial response" |
| CramMD5.CramMD5Authenticator.Process | lib/net/sasl/cram_md5_authenticator.rb:39-42 | `NoMethodError` without a password and `TypeError` for a `nil` challenge; otherwise "username hex(HMAC-MD5(password, challenge))"; never done |
| Anonymous.AnonymousAuthenticator.constructor | lib/net/sasl/anonymous_authenticator.rb:12-14 | passes its arguments to the base constructor |
| Anonymous.AnonymousAuthenticator.SupportsInitialResponse | lib/net/sasl/authenticator.rb:50-52 | ANONYMOUS inherits "no initial response" |
| Anonymous.AnonymousAuthenticator.Process | lib/net/sasl/anonymous_authenticator.rb:17-19 | every challenge raises `ArgumentError`, which is not a SASL error |
| Anonymous.AnonymousAuthenticator.Done | lib/net/sasl/authenticator.rb:75-77 | ANONYMOUS is never done |
| DigestChallenge.ScanPair | lib/net/sasl/digest_md5_authenticator.rb:52 | one `scan` of the challenge pattern consumes at least one byte and stays inside the string |
| DigestChallenge.ParseChallenge | lib/net/sasl/digest_md5_authenticator.rb:51-63 | `TypeError` for `nil`; otherwise the scan loop stores each decoded value, and a remainder is a `DataFormatError` |
| DigestChallenge.Parse | lib/net/sasl/digest_md5_authenticator.rb:52-63 | the only error the parse of a present challenge raises is `DataFormatError` |
| DigestChallenge.ParseKeys | lib/net/sasl/digest_md5_authenticator.rb:52-53 | every key of a parsed challenge is a `\w+` word |
| DigestChallenge.DecodeAll | lib/net/sasl/digest_md5_authenticator.rb:54-60 | the decoded hash has exactly the keys the scanner matched |
| DigestChallenge.ParseEncode | lib/net/sasl/digest_md5_authenticator.rb:51-63 | comma-separated `key=value` and `key="value"` fields parse into exactly those fields; a quoted value loses its quotes and is split on commas; a later key overwrites an earlier one |
| DigestChallenge.TrailingCommaRejected | lib/net/sasl/digest_md5_authenticator.rb:63 | a trailing comma is a remainder, so the parse raises `DataFormatError` |
| DigestChallenge.CollectLastWins | lib/net/sasl/digest_md5_authenticator.rb:60 | the value stored under a key is the meaning of the last field with that key |
| DigestChallenge.ParseExample | test/net/sasl_test.rb:41-43 | the test's challenge parses into realm, nonce, qop, charset and algorithm, with the quotes removed |
| DigestMD5.Lookup | lib/net/sasl/digest_md5_authenticator.rb:70-79 | `sparams[k]` is the stored value when `k` is a key and `nil` otherwise |
| DigestMD5.A0MatchesRfc | lib/net/sasl/digest_md5_authenticator.rb:85-86 | `a0` is MD5 of username ":" realm ":" password |
| DigestMD5.A1MatchesRfc | lib/net/sasl/digest_md5_authenticator.rb:88-89 | `a1` is the A1 of section 2.1.2.1 of RFC 2831 for plain-string username, realm and nonce |
| DigestMD5.ResponseValue | lib/net/sasl/digest_md5_authenticator.rb:96-102 | the response value is 32 lower-case hex digits |
| DigestMD5.ResponseMatchesRfc | lib/net/sasl/digest_md5_authenticator.rb:85-102 | the digest sent is the response-value of section 2.1.2.1 of RFC 2831 with qop "auth" |
| DigestMD5.QuotedByName | lib/net/sasl/digest_md5_authenticator.rb:139 | a directive is quoted exactly when its name is one of username, authzid, realm, nonce, cnonce, digest-uri, qop |
| DigestMD5.EscapeRoundTrip | lib/net/sasl/digest_md5_authenticator.rb:140 | escaping `\` and `"` with a backslash loses nothing: unescaping gives the value back |
| DigestMD5.EscapePlain | lib/net/sasl/digest_md5_authenticator.rb:140 | a value without `\` or `"` is written unchanged |
| DigestMD5.EscapedTokenCloses | lib/net/sasl/digest_md5_authenticator.rb:140-141 | an escaped value followed by `"` is one quoted token for the challenge grammar, closing at that quote |
| DigestMD5.Qdval | lib/net/sasl/digest_md5_authenticator.rb:137-145 | `nil` gives `nil` (an empty item once joined); a quoted key with an array or number value raises `NoMethodError`; otherwise the text starts with `name=`; as written the quoted value goes through `GsubAsWritten`, corrected through `Escape` |
| DigestMD5.QdvalQuoted | lib/net/sasl/digest_md5_authenticator.rb:139-141 | a quoted directive reads back as its value: the token closes at the final quote and unescapes to the value |
| DigestMD5.GsubLosesQuote | lib/net/sasl/digest_md5_authenticator.rb:140 | as written, a `"` in the username reaches the server as a backslash and byte 0x01, while the corrected escape writes `\"` |
| DigestMD5.GsubAsWritten | lib/net/sasl/digest_md5_authenticator.rb:140 | as written, each `\` or `"` becomes a backslash and byte 0x01, so the text is at least as long as the value |
| DigestMD5.GsubReadsBack | lib/net/sasl/digest_md5_authenticator.rb:140 | a server unescaping the as-written text gets the value with every `\` and `"` turned into byte 0x01 |
| DigestMD5.GsubReadsBackPlain | lib/net/sasl/digest_md5_authenticator.rb:140 | so the server gets the value back exactly when it holds neither `\` nor `"` |
| DigestMD5.GsubPlain | lib/net/sasl/digest_md5_authenticator.rb:140 | as written, a value without `\` or `"` is written unchanged |
| DigestMD5.RenderAllEach | lib/net/sasl/digest_md5_authenticator.rb:104 | the directives render exactly when each one does, and then each part is that directive's text |
| DigestMD5.Serialize | lib/net/sasl/digest_md5_authenticator.rb:104 | the joined response exists exactly when every directive renders |
| DigestMD5.ServiceUri | lib/net/sasl/digest_md5_authenticator.rb:75 | digest-uri is "imap/" followed by the server's realm |
| DigestMD5.DirectivesListed | lib/net/sasl/digest_md5_authenticator.rb:69-82 | the response hash holds nonce, username, realm, cnonce, digest-uri, qop, maxbuf, nc, charset, authzid and response, in that order |
| DigestMD5.PlainDirectives | lib/net/sasl/digest_md5_authenticator.rb:137-145 | values that need no escape go out as `key="value"` or `key=value`, in order, joined by commas |
| DigestMD5.QopCheck | lib/net/sasl/digest_md5_authenticator.rb:64-67 | corrected: `Net::SASL::Error` exactly when "auth" is not one of the offered qop options |
| DigestMD5.QopCheckAsWritten | lib/net/sasl/digest_md5_authenticator.rb:64-67 | as written, the check passes exactly when `include?("auth")` holds; a missing qop raises `NoMethodError`, a failing string `NoMethodError` from `join`, a failing array `Net::SASL::Error` |
| DigestMD5.QopCheckAcceptsOffered | lib/net/sasl/digest_md5_authenticator.rb:64-67 | when the server sends qop, the check as written accepts whatever the corrected check accepts |
| DigestMD5.QopChecksAgreeOnLists | lib/net/sasl/digest_md5_authenticator.rb:56-64 | when the server lists several options, the check as written and the corrected one agree |
| DigestMD5.QopSubstringAccepted | lib/net/sasl/digest_md5_authenticator.rb:64-67 | as written, a server that offers only "auth-int" passes the check, and a missing qop raises `NoMethodError` |
| DigestMD5.NcNext | lib/net/sasl/digest_md5_authenticator.rb:127-134 | the count for a nonce is 1 the first time and otherwise one more than the stored count |
| DigestMD5.FirstCounts | lib/net/sasl/digest_md5_authenticator.rb:64-78 | after stage one the nonce count holds the challenge's nonce at 1 exactly when the qop check passed, and is empty otherwise |
| DigestMD5.FirstNc | lib/net/sasl/digest_md5_authenticator.rb:78 | the first use of a nonce is written `00000001` |
| DigestMD5.MaxBufDigits | lib/net/sasl/digest_md5_authenticator.rb:77 | maxbuf is written `65535` |
| DigestMD5.Answer | lib/net/sasl/digest_md5_authenticator.rb:69-104 | the reply succeeds exactly when every directive renders, and then it is a string |
| DigestMD5.FirstReply | lib/net/sasl/digest_md5_authenticator.rb:63-104 | a parse error is raised as it is; as written, a missing qop raises `NoMethodError` and a reply means qop includes "auth" (a substring of a string, an element of an array); corrected, a reply means "auth" was offered |
| DigestMD5.StageOneReply | lib/net/sasl/digest_md5_authenticator.rb:48-104 | in either reading, `TypeError` for a `nil` challenge and `DataFormatError` for a remainder |
| DigestMD5.StageTwoReply | lib/net/sasl/digest_md5_authenticator.rb:105-112 | the empty reply exactly when the challenge holds "rspauth=", else `ChallengeParseError` |
| DigestMD5.DoneAfterTwo | lib/net/sasl/digest_md5_authenticator.rb:121-123 | `done?` holds exactly after two calls and stays true |
| DigestMD5.ExampleExchange | test/net/sasl_test.rb:30-44 | as written and corrected, the test's challenge gets the reply the test expects: directives in order, nc 00000001, and the RFC response value |
| DigestMD5.DigestMD5Authenticator.constructor | lib/net/sasl/digest_md5_authenticator.rb:37-41 | stores the identities, an empty nonce count and stage one; the cnonce is the hex MD5 of its seed |
| DigestMD5.DigestMD5Authenticator.Done | lib/net/sasl/digest_md5_authenticator.rb:121-123 | done exactly when the stage is `nil` |
| DigestMD5.DigestMD5Authenticator.NextNc | lib/net/sasl/digest_md5_authenticator.rb:127-134 | counts one more use of the nonce and returns the count |
| DigestMD5.DigestMD5Authenticator.RespondToParsed | lib/net/sasl/digest_md5_authenticator.rb:63-104 | the stage-one reply as written for a parsed challenge; the nonce count becomes `FirstCounts`: the nonce at 1 once the qop check passes, empty otherwise |
| DigestMD5.DigestMD5Authenticator.Process | lib/net/sasl/digest_md5_authenticator.rb:46-116 | the stage advances first; stage one gives the as-written `StageOneReply` and the counts of `FirstCounts`, stage two acknowledges `rspauth`, and later calls raise `ChallengeParseError` |
| Scram.Piece | lib/net/sasl/scram_authenticator.rb:54 | multiple assignment takes the n-th piece, or `nil` past the end |
| Scram.PairFields | lib/net/sasl/scram_authenticator.rb:54 | in `k=v` followed by nothing or another `=`, the name is `k` and the value is `v` |
| Scram.CollectKeys | lib/net/sasl/scram_authenticator.rb:53-56 | the attribute hash has exactly the names of the comma-separated pieces as keys |
| Scram.CollectLastWins | lib/net/sasl/scram_authenticator.rb:55 | a name's value is the one from the last piece with that name |
| Scram.ParseServerMessage | lib/net/sasl/scram_authenticator.rb:53-56 | the `each_with_object` loop builds the attribute hash of the server message |
| Scram.Gs2Header | lib/net/sasl/scram_authenticator.rb:51 | the GS2 header is "n,,", or "n,a=" authzid "," |
| Scram.ClientFirst | lib/net/sasl/scram_authenticator.rb:85-87 | the first message starts with the GS2 header and ends with ",r=" and the client nonce |
| Scram.ClientFirstReadsBack | lib/net/sasl/scram_authenticator.rb:53-56 | the bare first message reads back as n = username and r = nonce |
| Scram.BiwsIsHeaderWithoutAuthzid | lib/net/sasl/scram_authenticator.rb:65 | "biws" is the base64 of the GS2 header exactly when there is no authzid |
| Scram.DeriveKeys | lib/net/sasl/scram_authenticator.rb:66-79 | ClientKey, StoredKey, ClientSignature and ServerSignature are each `digest_length` bytes long |
| Scram.ClientProof | lib/net/sasl/scram_authenticator.rb:77 | the proof is as long as ClientKey |
| Scram.ServerAcceptsProof | lib/net/sasl/scram_authenticator.rb:73-77 | XOR-ing the proof with ClientSignature gives ClientKey, so a server that holds StoredKey accepts it (section 3 of RFC 5802) |
| Scram.ClientFinal | lib/net/sasl/scram_authenticator.rb:80 | the final message starts with "c=biws,r=" nonce ",p=" |
| Scram.ClientFinalInjective | lib/net/sasl/scram_authenticator.rb:80 | two final messages with the same nonce are equal only when their proofs are |
| Scram.RoundTwoKeys | lib/net/sasl/scram_authenticator.rb:66-79 | the round-two keys and signatures are `digest_length` bytes long |
| Scram.FinalMessage | lib/net/sasl/scram_authenticator.rb:65-80 | in either reading, `NoMethodError` exactly when there is no password or no `s`; otherwise the final message for the server's nonce and a signature of `digest_length` bytes |
| Scram.FinalMessageProves | lib/net/sasl/scram_authenticator.rb:65-80 | round two sends the final message with the base64 proof the server accepts and expects that server's signature; corrected always, as written when the digest is at most 45 bytes |
| Scram.SentProofDecodes | lib/net/sasl/scram_authenticator.rb:80 | a server decoding the proof text of the sent final message gets a proof it accepts; corrected always, as written when the digest is at most 45 bytes |
| Scram.FinalReply | lib/net/sasl/scram_authenticator.rb:80 | the reply starts with the bare part and `,p=` and keeps the server signature; the proof text is `pack('m').chomp` as written and unbroken base64 corrected |
| Scram.PackMShort | lib/net/sasl/scram_authenticator.rb:80 | up to 45 bytes, `pack('m').chomp` is plain base64 |
| Scram.PackMLong | lib/net/sasl/scram_authenticator.rb:80 | past 45 bytes, a newline stays at position 60 after `chomp`, so the text is not base64 of the proof |
| Scram.AsWrittenAgreesShort | lib/net/sasl/scram_authenticator.rb:80 | for proofs of at most 45 bytes (SHA-1, SHA-224, SHA-256) the reply as written equals the corrected one |
| Scram.AsWrittenBreaksLong | lib/net/sasl/scram_authenticator.rb:80 | for longer proofs (SHA-384, SHA-512) the proof as written holds a newline, so the replies differ |
| Scram.FinalMessagesAgreeShort | lib/net/sasl/scram_authenticator.rb:65-80 | for a digest of at most 45 bytes, round two as written and corrected give the same result |
| Scram.FinalMessageBreaksLong | lib/net/sasl/scram_authenticator.rb:65-80 | for a digest longer than 45 bytes, the final message as written carries a proof text holding a newline and differs from the corrected one |
| Scram.StepsAgreeShort | lib/net/sasl/scram_authenticator.rb:50-81 | for SHA-1, SHA-224 and SHA-256, `process` as written behaves as the corrected one on every state and challenge |
| Scram.StepBreaksLong | lib/net/sasl/scram_authenticator.rb:50-81 | for SHA-384 and SHA-512, round two as written sends `pack('m').chomp` of the proof, which holds a newline, and differs from the corrected reply |
| Scram.Verified | lib/net/sasl/scram_authenticator.rb:59 | `NoMethodError` exactly when the message has no `v`; otherwise `done?` is whether the decoded `v` equals the stored signature |
| Scram.Step | lib/net/sasl/scram_authenticator.rb:50-81 | in either reading: a signature is stored once round two succeeds and then kept; `done?` changes only in the verification branch, where it becomes whether `v` decodes to the stored signature (so a bad `v` after a good one turns it back to false); `nil` is returned exactly on a successful verification, which leaves the authenticator done |
| Scram.InitialResponseRepeats | lib/net/sasl/scram_authenticator.rb:51 | `process(nil)` returns the client-first message and changes nothing, so asking again gives the same message |
| Scram.VerificationGatesDone | lib/net/sasl/scram_authenticator.rb:58-63 | once a signature is stored, done exactly when `v` decodes to it; otherwise `ChallengeParseError`, or `NoMethodError` without `v` |
| Scram.FullExchange | lib/net/sasl/scram_authenticator.rb:50-87 | corrected, and as written for SHA-1, SHA-224 and SHA-256: against a server that knows the password, client-first, then a final message whose base64 proof the server decodes and accepts, then `nil` and done |
| Scram.ScramAuthenticator.constructor | lib/net/sasl/scram_authenticator.rb:34-39 | stores identities and hash; the nonce is the `cnonce` option, else 64 hex digits of 32 random bytes; not done |
| Scram.ScramAuthenticator.SupportsInitialResponse | lib/net/sasl/scram_authenticator.rb:41-43 | SCRAM supports an initial response |
| Scram.ScramAuthenticator.Process | lib/net/sasl/scram_authenticator.rb:50-81 | the reply and the new signature and `done?` are those of `Scram.Step` as written |
| Registry.Lookup | lib/net/sasl/registry.rb:40-44 | the class is found exactly when the upcased name is a key; otherwise `ArgumentError` |
| Registry.Construct | lib/net/sasl/registry.rb:44-45 | `new` with three positional arguments raises only `ArgumentError` and otherwise builds the class it was called on |
| Registry.Build | lib/net/sasl/registry.rb:39-46 | a successful build is of the class stored under the upcased name; a failure is `ArgumentError` |
| Registry.BuildOutcome | lib/net/sasl/registry.rb:39-46 | a registered class is built exactly when it takes a third positional argument and, for PLAIN, no identity holds NUL |
| Registry.TwoArgumentMechanismsNeverBuild | lib/net/sasl/registry.rb:44-45 | LOGIN and CRAM-MD5 always raise `ArgumentError` through a registry |
| Registry.BuildIgnoresCase | lib/net/sasl/registry.rb:40 | names that differ only in ASCII letter case build the same class |
| Registry.AddedBuilds | lib/net/sasl/registry.rb:25-27 | after `add_authenticator(name, m)`, every spelling of the name builds `m`, raising exactly when constructing `m` raises |
| Registry.RemovedRaises | lib/net/sasl/registry.rb:31-33 | after `remove_authenticator(name)`, every spelling of the name raises `ArgumentError` |
| Registry.Instantiate | lib/net/sasl/registry.rb:44-45 | `new` on a class raises exactly when its construction raises; otherwise a fresh instance of that class holding the three identities, in its initial state (not done; DIGEST-MD5 at stage one with no nonce counted; SCRAM with no server signature and the `cnonce` option or the hex of the random bytes as nonce) |
| Registry.Registry.constructor | lib/net/sasl/registry.rb:13-15 | a new registry is empty |
| Registry.Registry.AddAuthenticator | lib/net/sasl/registry.rb:25-27 | stores the class under the upcased name, replacing any class there |
| Registry.Registry.RemoveAuthenticator | lib/net/sasl/registry.rb:31-33 | deletes the upcased name and returns what was stored there, or `nil` |
| Registry.Registry.StoredNamesFound | lib/net/sasl/registry.rb:25-27 | every name is stored upcased, so each stored entry is found again under its own name |
| Registry.Registry.Authenticator | lib/net/sasl/registry.rb:39-46 | raises `ArgumentError` exactly when the build does; otherwise a fresh instance of the built class holding the three identities, in its initial state |
| Sasl.NameUpper | lib/net/sasl.rb:61-69 | each default mechanism name is already upper-case, so it is its own key |
| Sasl.DefaultEntries | lib/net/sasl.rb:61-69 | the default registry holds exactly the nine names, each bound to its class |
| Sasl.Default | lib/net/sasl.rb:59-69 | a new registry after the nine `add_authenticator` calls holds exactly the default entries |
| Sasl.AddAuthenticator | lib/net/sasl.rb:47-49 | `Net::SASL.add_authenticator` updates the registry as `Registry#add_authenticator` does |
| Sasl.Authenticator | lib/net/sasl.rb:54-56 | `Net::SASL.authenticator` builds as `Registry#authenticator` does: a fresh instance in its initial state, or the same `ArgumentError` |
| Sasl.DefaultKnows | lib/net/sasl.rb:59-69 | the default registry knows a name, in any letter case, exactly when it is one of the nine; ANONYMOUS is not one of them |
| Sasl.ScramNamesBoundToTheirHash | lib/net/sasl.rb:65-69 | each SCRAM-SHA name is bound to SCRAM with the hash it names |
| Sasl.DefaultNeverBuildsTwoArgument | lib/net/sasl.rb:62-64 | through the default registry, LOGIN and CRAM-MD5 always raise `ArgumentError` |
| Sasl.DefaultBuildsDigest | lib/net/sasl.rb:63 | through the default registry, DIGEST-MD5 is built for every identity |
| Sasl.DefaultBuildsScram | lib/net/sasl.rb:65-69 | through the default registry, each SCRAM-SHA name builds SCRAM with its hash for every identity |

## Left out

- Hashes and library calls (MD5, the SHA family, HMAC, PBKDF2, SASLprep, base64 decoding) are abstract function inputs. Only their output lengths are fixed. Base64 encoding and XOR are written out.
- The clock, `rand`, the process id and `SecureRandom` are inputs. The DIGEST-MD5 cnonce is `Hex(md5(seed))` for a given seed, and the SCRAM nonce is `Hex(random)` for 32 given bytes.
- Keyword options other than `cnonce` (host, port, realm) play no part in any mechanism. `Registry.Environment` stands for the keyword arguments.
- `ScramAuthenticator.for(hash)` builds an anonymous subclass. Here the hash is an argument of `Registry.Scram` and of the SCRAM constructor.
- The registry holds only the six library classes (`Registry.Mechanism`). Arbitrary user classes passed to `add_authenticator` are not modelled.
- `DEFAULT_REGISTRY` is a global constant. `Sasl.Default` builds it as a fresh object, and the module functions take it as a parameter.
- Ruby's argument-count checks are reduced to how many positional arguments each `initialize` accepts.
- DigestMD5.StageOneReply: every string is treated as mutable. The file has `# frozen_string_literal: true`, so the `qop: "auth"` literal (digest_md5_authenticator.rb:76) is frozen. `String#gsub!` checks for a frozen receiver before it matches. On that reading, every stage-one reply that reaches line 140 would raise `FrozenError` there, and so would a frozen username, authzid or realm. This reading of Ruby's semantics was not run. The model returns the serialized directives instead.
- DigestMD5.Answer: Ruby's string encodings are not modelled, so the `Encoding::CompatibilityError` of digest_md5_authenticator.rb:89 is not either. `[a0, …].join(":")` at line 88 takes the binary encoding of the MD5 digest `a0`. Appending an authzid that is UTF-8 and holds a non-ASCII character then raises, when `a0` holds a byte of 0x80 or more, which it does for almost every digest. That happens before line 140 is reached. The model computes A1 over the bytes and returns the serialized directives. This reading of Ruby's semantics was not run.
- DigestMD5.StageOneReply: the same `Encoding::CompatibilityError` gap as `DigestMD5.Answer`.
- DigestMD5.FirstReply: the same `FrozenError` gap as `DigestMD5.StageOneReply`.
- DigestMD5.FirstReply: the same `Encoding::CompatibilityError` gap as `DigestMD5.Answer`.
- DigestMD5.DigestMD5Authenticator.RespondToParsed: the same `FrozenError` gap.
- DigestMD5.DigestMD5Authenticator.RespondToParsed: the same `Encoding::CompatibilityError` gap as `DigestMD5.Answer`.
- DigestMD5.DigestMD5Authenticator.Process: the same `FrozenError` gap.
- DigestMD5.DigestMD5Authenticator.Process: the same `Encoding::CompatibilityError` gap as `DigestMD5.Answer`.
- DigestMD5.Qdval: `gsub!` changes the caller's string in place (`@username`, `@authzid`, the parsed values). The model returns a new string, so neither that change nor the aliasing it creates is modelled.
- CramMD5.HmacMd5: Ruby measures and indexes the key by character (`key.length`, `k_ipad[i]`, `.ord`/`.chr`, cram_md5_authenticator.rb:49-58). The model works on bytes. For a non-ASCII UTF-8 password, Ruby raises an encoding error or `RangeError`, while the model computes the RFC 2104 HMAC over the password's bytes.
- CramMD5.CramMD5Authenticator.Process: for the same reason, it returns a digest where Ruby raises for a non-ASCII UTF-8 password.
- Scram.FinalMessage: `@password.encode("utf-8")` (scram_authenticator.rb:67) is dropped. The password is already bytes, so no transcoding takes place and an invalid encoding does not raise.
- Crypto.Unbase64 decodes only unbroken, padded base64. It states what a server reads from the proof. The suite's `unpackBase64` (`unpack("m")`, which also skips line breaks) stays abstract.
- DigestMD5.Inspect: the `Array#inspect` text of an array value puts each string between quotes without escaping its contents.
- DigestMD5.ResponseValue: the `:00000000000000000000000000000000` suffix of A2 for auth-int or auth-conf is left out. The qop is always "auth", so that branch never runs.
- DigestMD5.QopCheck: the corrected check reads a missing qop as "auth", as section 2.1.1 of RFC 2831 does.
- DigestMD5.DigestMD5Authenticator.RespondToParsed: it is stated for an empty nonce count. Stage one runs once per authenticator, so the count is always empty there, and nc is always `00000001`.
- CramMD5.XorPad: the Ruby loop XORs both pads in one pass. The model calls the in-place loop once per pad.
- The regular expressions become scanners written out byte by byte. This covers the DIGEST-MD5 challenge pattern, the `^"(.*)"$` unquoting and the SCRAM `split(/,/)` and `split(/=/)`. Character classes are ASCII.
- Strings.Upcase: only ASCII letters are upcased. Ruby's full Unicode case mapping is not modelled.

## Findings

| source | as written | input that shows it | evidently intended | confidence | as-written member | corrected member |
|---|---|---|---|---|---|---|
| lib/net/sasl/digest_md5_authenticator.rb:140 | in a double-quoted Ruby string, `"\\\1"` is a backslash followed by byte 0x01, so each `\` or `"` becomes backslash and 0x01 | username `"`: sent as `username="\` followed by 0x01 and `"` | a backslash before the matched byte, giving `username="\""` | high (not executed) | DigestMD5.GsubReadsBackPlain | DigestMD5.QdvalQuoted |
| lib/net/sasl/digest_md5_authenticator.rb:64-67 | `sparams["qop"].include?("auth")` is a substring test on a single qop string, and a missing qop raises `NoMethodError` | challenge with `qop="auth-int"`: accepted, and the client answers with qop "auth" | "auth" must be one of the offered options; a missing qop defaults to "auth" | medium (not executed) | DigestMD5.QopSubstringAccepted | DigestMD5.QopCheck |
| lib/net/sasl/scram_authenticator.rb:80 | `[client_proof].pack('m').chomp` breaks base64 lines after 60 characters and `chomp` removes only the last newline | SCRAM-SHA-384 or SCRAM-SHA-512: a proof of 48 or 64 bytes is sent with a newline after 60 characters | `pack('m0')`, base64 without line breaks | high (not executed) | Scram.StepBreaksLong | Scram.FullExchange |
