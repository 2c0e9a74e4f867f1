# go-away: challenges, tokens and the code around them

go-away is a reverse proxy that asks suspicious clients to pass challenges before it lets their
requests through to a backend. This project models its decision-making code in Dafny and proves
what that code promises. Functions and datatypes hold what is computed, classes and methods hold
what is updated step by step, and every method is proved against the function that specifies it.

| file | what it models |
|---|---|
| `Wrappers.dfy`, `Arithmetic.dfy`, `Bytes.dfy`, `Hex.dfy` | options; multiples and common divisors; byte strings as numbers; the shared hexadecimal codec |
| `Pow.dfy` | the SHA-256 proof of work: the server's runtime and the browser's worker |
| `Expiry.dfy` | rounded expiry times of keys, tokens and cookies |
| `Types.dfy`, `Register.dfy` | results and states; the challenge register |
| `Keys.dfy` | the key a token is bound to, and the key verifier |
| `Protocol.dfy`, `Request.dfy` | one request: the state as a value with its functions, and the mutable request data proved equal to them |
| `Answers.dfy`, `Effects.dfy`, `Ledger.dfy`, `Contexts.dfy`, `Cookies.dfy`, `Runs.dfy` | laws of rule trees, of what rules and actions do to the requests they meet, of issuing and tokens within a request, of the headers and backends that rules set and reach, of the cookie a client is left with, and of whole runs of requests |
| `Query.dfy`, `VerifyUrls.dfy` | raw queries; the verify URLs built on them |
| `DecayMap.dfy`, `Awaiter.dfy` | two concurrent objects as interleaved steps |
| `Grease.dfy`, `Numbers.dfy`, `Ja3.dfy`, `Ja4.dfy` | TLS fingerprint texts |
| `Mime.dfy`, `GeoIp.dfy` | canonical header keys and header maps; the country cache |

What a model cannot see is a parameter: the hash is any function from byte strings to 32 bytes
(`Collision` says where two texts collide); conditions, the issuing and verifying of challenges,
spot checks and the table of backends are arbitrary functions of the request's `Env`. Issuing keeps
the contract of the shipped challenges: a blocking challenge that returns None has written one
response, any other issuing none. The state cookie is a container only the server can make.

## What the code does that its documentation or intent does not say

Each of these is a lemma, with the exact condition where the intended property holds.

- A challenge's condition is documented as something that must hold for the challenge to be executed
  (lib/challenge/register.go:122-125), but it is looked at only when the request carries a token for
  the challenge: `Ledger.FalseConditionSettlesIff`, with `Ledger.FalseConditionIsStillIssued` as the
  first request that is challenged all the same.
- `verifyChallenge` leaves a token with a mismatched key alone, but its caller clears every token with
  an error, so such a token survives exactly when the challenge's condition is false:
  `Ledger.MismatchedTokenIsKeptIff`.
- The worker wants a digest strictly below the target, while the server also accepts the target itself:
  `ProofOfWork.WorkerVersusServer`.
- The difficulty is converted to a 32-bit integer in the WebAssembly runtime; the server's test means
  what it should exactly for difficulties up to 256 and those still above 256 after the conversion:
  `ProofOfWork.ServerAcceptsExactly`.
- A CONTEXT action writes into the headers of the request itself, and keys of challenges issued behind
  it are made of those. A token given there stands at the client's next request exactly when the bound
  headers were left with the client's own values, and otherwise stands for whoever sends the values
  that were set: `Contexts.GivenStandsIff`, `Contexts.GivenStandsForSender`, and two rules that show it
  in `Contexts.SetHeaderLosesPassIff` and `Contexts.SetHeaderPassesSender`.
- The state cookie always lives for a rounded seven days, so for many durations above half of that it
  can end before a window of the challenge does: `Expiry.CookieOutlivesExactly` says for which,
  `Expiry.SixDaysAreLost` shows one, and `Runs.PassStandsIff` says what that does to a pass.
- The option for another backend host is read and then not followed: `Answers.BackendHostOptionHasNoEffect`,
  `Contexts.OnlyNamedBackends`.
- A verify URL reads an argument from the first key that unescapes to its name, so a raw key of the
  original query that sorts before it, with a value that unescapes, is read in its place; without such
  keys, and only then, every verify URL reads back: `VerifyUrls.VerifyUrlsRoundTripIff`, with
  `VerifyUrls.EarlierAliasIsReadInstead` for what is read with one.
- The verify endpoint records a pass without a state of its own; the header stamping would panic on it
  exactly when the cookie of the request has no fitting token of the challenge yet, but that request is
  answered with a redirect before it comes to that: `Ledger.VerifiedPassIsStampableIff`.
- Byte 1 separates header values in a key's text, so values that contain it (which HTTP forbids)
  collide: `Keys.SeparatorInValueCollides`.
- The GREASE mask takes 256 values for the sixteen of section 2 of RFC 8701: `Grease.ReservedIffEqualBytes`.
- The readable part of a JA4 fingerprint is cut off for most versions without a name:
  `Ja4Texts.ReadableIsWhole`.

## Model

| member | source | states |
|---|---|---|
| `Hex.Encode` | utils/inline/hex.go:36-44 | two digits for every byte are written at the front of the destination, the rest of it is unchanged |
| `Hex.Decode` | utils/inline/hex.go:69-95 | the bytes written and the error are those of reading whole pairs up to the first problem; an odd tail is an error of its own kind |
| `Hex.EncodedAt` | utils/inline/hex.go:36-44 | every byte is its two digits, the higher one first |
| `Hex.DigitsAreThese` | utils/inline/hex.go:7-26 | the digits stand for their places, letters are read in both cases, and nothing else is a digit |
| `Hex.DecodeEncode` | utils/inline/hex.go:36-95 | decoding an encoded text gives the bytes back |
| `Hex.DecodeSucceeds` | utils/inline/hex.go:69-95 | decoding has no error exactly on an even number of digits |
| `ProofOfWork.CountLeadingZeroes` | embed/challenge/js-pow-sha256/runtime/runtime.go:88-95 | the loop with its early break counts the leading zero bits of the whole digest |
| `ProofOfWork.LeadingZerosAreAValueBound` | embed/challenge/js-pow-sha256/runtime/runtime.go:88-99 | at least d leading zero bits is the same as a big-endian value below 2 to the number of other bits |
| `ProofOfWork.ServerAcceptsMeaning` | embed/challenge/js-pow-sha256/runtime/runtime.go:97-99 | the comparison after the conversion means that the first d bits are zero, for difficulties up to 256 and those that stay above it |
| `ProofOfWork.ServerAcceptsExactly` | embed/challenge/js-pow-sha256/runtime/runtime.go:97-99 | it means so for every digest exactly under that condition on the difficulty |
| `ProofOfWork.BuildTarget` | embed/challenge/js-pow-sha256/runtime/runtime.go:38-52 | the bit loops build the target of value 2^(256-d)-1, for every difficulty (zero past the end) |
| `ProofOfWork.ChallengeBinds` | embed/challenge/js-pow-sha256/runtime/runtime.go:18-32 | different keys or difficulties have different challenges, unless the two hashed texts collide |
| `ProofOfWork.AcceptedForOneKey` | embed/challenge/js-pow-sha256/runtime/runtime.go:66-102 | one text accepted for two keys or difficulties exhibits such a collision |
| `ProofOfWork.ToIntIsSigned32` | embed/challenge/js-pow-sha256/runtime/runtime.go:97-99 | the converted difficulty is the signed 32-bit number of its low bits |
| `ProofOfWork.DefaultDifficultyIs` | embed/challenge/js-pow-sha256/runtime/runtime.go:18-25 | without a setting a digest is accepted exactly for two zero bytes and half a third |
| `ProofOfWork.MakeChallenge` | embed/challenge/js-pow-sha256/runtime/runtime.go:34-62 | the texts handed out decode to the challenge and a target of that value; a malformed difficulty is an error |
| `ProofOfWork.VerifyChallenge` | embed/challenge/js-pow-sha256/runtime/runtime.go:66-102 | for every difficulty OK exactly for a text that spells the challenge and eight more bytes whose digest passes the server's comparison, which are those that hash to enough zero bits where the conversion keeps the difficulty; the other outputs name what is wrong |
| `ProofOfWork.AcceptedProvesWork` | embed/challenge/js-pow-sha256/runtime/runtime.go:88-99 | what passes the comparison proves work for difficulties up to 256 and those that stay above it |
| `ProofOfWork.LessThan` | embed/challenge/js-pow-sha256/static/load.mjs:69-79 | the lexicographic comparison of equally long buffers is that of their big-endian values |
| `ProofOfWork.Increment` | embed/challenge/js-pow-sha256/static/load.mjs:81-90 | the carrying loop adds one to the little-endian value, wrapping at its end |
| `ProofOfWork.IncrementedValue` | embed/challenge/js-pow-sha256/static/load.mjs:81-90 | the same for byte strings of any length |
| `ProofOfWork.NonceValue` | embed/challenge/js-pow-sha256/static/load.mjs:81-90 | after k increments from zero the nonce has the value k modulo 2^64 |
| `ProofOfWork.NoncesEnumerate` | embed/challenge/js-pow-sha256/static/load.mjs:81-90 | the first 2^64 candidates are all eight-byte strings, each once |
| `ProofOfWork.SearchIsExhaustive` | embed/challenge/js-pow-sha256/static/load.mjs:92-113 | some nonce wins exactly when one of the first 2^64 candidates does |
| `ProofOfWork.DecodeHex` | embed/challenge/js-pow-sha256/static/load.mjs:56-63 | every pair of characters is stored as `parseInt` reads it, an odd one at the end is lost; on what the server can decode the two decoders agree |
| `ProofOfWork.EncodeHex` | embed/challenge/js-pow-sha256/static/load.mjs:65-67 | the worker's encoder agrees with the server's |
| `ProofOfWork.Search` | embed/challenge/js-pow-sha256/static/load.mjs:92-113 | the worker posts the challenge with the first winning nonce |
| `ProofOfWork.OnMessage` | embed/challenge/js-pow-sha256/static/load.mjs:92-113 | from the two texts of the message, as the worker reads them, to what is posted |
| `ProofOfWork.WorkerVersusServer` | embed/challenge/js-pow-sha256/static/load.mjs:69-79 | for the built target the worker stops exactly where the server accepts, except on the target itself |
| `ProofOfWork.NobodyStopsPast256` | embed/challenge/js-pow-sha256/runtime/runtime.go:88-99 | past 256 bits neither side ever succeeds |
| `ProofOfWork.WinnerIsAccepted` | embed/challenge/js-pow-sha256/runtime/runtime.go:66-102 | a winning candidate, encoded, proves work to the server and has the length it wants |
| `ProofOfWork.Exchange` | embed/challenge/js-pow-sha256/runtime/runtime.go:34-102 | a whole exchange between server and worker ends with OK |
| `Expiry.ExpirationBounds` | lib/challenge/data.go:319-321 | an expiration is more than half a duration and at most one and a half ahead |
| `Expiry.SameExpirationIffSameWindow` | lib/challenge/data.go:319-321 | two times share an expiration exactly when they are in one half-open window of the duration's length |
| `Expiry.SecondsSeparateWindows` | lib/challenge/key.go:65 | cutting expirations to whole seconds keeps windows apart, from any instant on, exactly for durations of at least a second |
| `Expiry.TokenOutlivesExactly` | lib/challenge/data.go:208-233 | tokens made from any instant on pass their expiry check for as long as their key's window lasts, exactly when a second less its common divisor with the duration is at most half the duration and a nanosecond |
| `Expiry.CookieOutlivesExactly` | lib/challenge/data.go:339-347 | so do cookies set from any instant on, exactly for the durations where no multiple of the common divisor with seven days lies between two bounds |
| `Expiry.CoveredExactly` | lib/challenge/data.go:208-233 | both together, exactly for the covered durations |
| `Expiry.CookieOutlivesWindow` | lib/challenge/data.go:428-433 | for a covered duration the cookie passes its expiry check at every time of the window it is set in |
| `Expiry.WhatIsSafe` | lib/challenge/register.go:35-36 | two seconds and more are safe for tokens, the seven-day default and all up to half of it for cookies, six days are not |
| `Expiry.SixDaysAreLost` | lib/challenge/data.go:339-347 | every six weeks there is a cookie of a six-day challenge that runs out a day too early |
| `Keys.GetChallengeKeyForRequest` | lib/challenge/key.go:43-79 | what is fed to the hasher piece by piece is the specified text, and the key is its hash with the family flag |
| `Keys.PreimageInjective` | lib/challenge/key.go:43-79 | equal texts mean the same name, network, header values, second and server, for names and values free of the separators |
| `Keys.SeparatorInValueCollides` | lib/challenge/key.go:48-62 | two different value lists with the separator in them have one text |
| `Keys.SamePrefixIffSameNetwork` | lib/challenge/data.go:147-158 | two addresses have the same sixteen prefix bytes exactly when both are IPv4 and agree in three bytes, or both are IPv6 and agree in eight, or neither is an address |
| `Keys.MappedIsSameNetwork` | lib/challenge/data.go:147-158 | an IPv4 address written as IPv6 is in the network of the IPv4 address |
| `Keys.SameClientIff` | lib/challenge/key.go:43-79 | what the hashed text holds of a client is its network, byte by byte, and the values it sent of the bound headers |
| `Keys.KeyBinds` | lib/challenge/key.go:43-79 | equal keys mean the same name, second, server, network and bound headers, or exhibit a collision of the hash |
| `Keys.KeyBindsClient` | lib/challenge/key.go:43-79 | equal keys of one challenge mean the same window end and the same network and values of every bound header, or a collision |
| `Keys.PrefixDeterminesFamily` | lib/challenge/data.go:147-158 | clients of one network have one address family |
| `Keys.IssuedTokenVerifies` | lib/challenge/helper.go:20-43 | the issued text of a key is accepted for it, and for no other key |
| `Keys.KeyVerifierExactly` | lib/challenge/helper.go:20-43 | for any key and text: OK exactly for a text that decodes to the key, and which error otherwise |
| `Keys.HappyEyeballs` | lib/challenge/helper.go:33-39 | that special mismatch is reported exactly for a token issued over IPv4 and sent over IPv6 |
| `Registers.Register.GetByName` | lib/challenge/register.go:23-31 | the one entry of that name, whatever order the map is searched in |
| `Registers.Register.Add` | lib/challenge/register.go:100-111 | a new entry gets a fresh id, a known name keeps the id it has |
| `Registers.Register.Create` | lib/challenge/register.go:51-98 | a challenge is entered exactly when its runtime is known and accepts it and its conditions compile; it takes over the id of its name or gets a fresh one, and a refused one leaves no entry |
| `Registers.PreparedLasts` | lib/challenge/register.go:57-66 | a challenge has the duration of its policy, and seven days when that sets none |
| `Registers.RegistrationKeeps` | lib/challenge/register.go:51-111 | adding keeps names and ids unique and below the counter |
| `Registers.ListingIsWellRegistered` | lib/challenge/register.go:16-31 | any listing of the register has unique ids and names, which the protocol needs |
| `Request.RequestData.ClearChallengeToken` | lib/challenge/data.go:203-206 | the token is gone and the cookie will be sent again |
| `Request.RequestData.IssueChallengeToken` | lib/challenge/data.go:208-217 | the token stored is made of the key, result, expiry and outcome it is given, and the cookie will be sent again |
| `Request.RequestData.VerifyChallengeToken` | lib/challenge/data.go:223-254 | the checks in their order give the specified verdict |
| `Request.RequestData.VerifyChallenge` | lib/challenge/data.go:256-291 | the verdict on a challenge, with the condition and the loop guard |
| `Request.RequestData.EvaluateChallenges` | lib/challenge/data.go:293-317 | the whole start of a request, from the cookie to the verdicts |
| `Request.RequestData.ResponseHeaders` | lib/challenge/data.go:327-347 | the cookie is sent exactly when the tokens changed, with the lifetime of the code |
| `Request.RequestData.RequestHeaders` | lib/challenge/data.go:349-369 | the stamps are those of the OK challenges, or a panic when one has no header text |
| `Request.RequestData.HandleAction` | lib/action/register.go:15 | every action updates the request as specified and says whether to go on |
| `Request.RequestData.SetContext` | lib/action/context.go:46-69 | settings are added, and each header setting takes the place of all values of its header, in the order they are taken |
| `Request.RequestData.HandleChallenge` | lib/action/challenge.go:118-156 | the first pass over the challenges |
| `Request.RequestData.IssueChallenges` | lib/action/challenge.go:158-217 | the second pass, with its early exits |
| `Request.RequestData.Decide` | lib/action/challenge.go:176-212 | what the result of an issuing decides |
| `Request.RequestData.EvaluateRule` | lib/rule.go:88-144 | condition, handler, then the children until one stops |
| `Request.RequestData.HandleRequest` | lib/http.go:218-304 | backend check, rules, default pass, error page |
| `Request.RequestData.HandleVerify` | lib/challenge/helper.go:160-203 | the verify endpoint |
| `Answers.HandleAnswers` | lib/action/challenge.go:118-217 | a handler of any depth that goes on has written nothing, one that stops has written one response, one that fails none; what was settled is not overwritten |
| `Answers.EvaluateAnswers` | lib/rule.go:88-144 | the same for rule trees |
| `Answers.OneResponsePerRequest` | lib/http.go:280-303 | every request is answered exactly once, whatever rules, conditions and challenges do |
| `Answers.LaterRulesAreIgnored` | lib/http.go:280-303 | rules behind the one that ends a request change nothing |
| `Answers.RulesCompose` | lib/http.go:280-303 | rules that go on hand their state to the next |
| `Answers.BackendHostOptionHasNoEffect` | lib/http.go:232-243 | a request that no rule ends is served by the backend of its own host, whatever the rules have set |
| `Answers.DefaultFailRefuses` | lib/action/challenge.go:87-92 | the denying actions neither go on nor reach a backend |
| `Answers.ChallengeGate` | lib/action/challenge.go:118-217 | past a challenge whose failure refuses, or at a backend through it, one of its challenges is OK |
| `Answers.ConjunctionOfChecks` | lib/rule.go:123-133 | past a row of such rules every one of them is met |
| `Answers.BackendOnlyThroughChecks` | lib/rule.go:123-133 | behind a row of checks no rules whatever reach a backend without all of them met |
| `Effects.Replaced` | lib/http.go:280-303 | rows of rules that do the same where they are reached can stand for one another, whatever stands around them |
| `Effects.MissedRuleHasNoEffect` | lib/rule.go:134-143 | a rule whose condition is false or gives nothing where it is reached might as well not be there |
| `Effects.BrokenRuleEndsInError` | lib/rule.go:99-101 | a condition that fails or is no truth value ends the request in the error page and a panic |
| `Effects.HitRuleIsActionThenChildren` | lib/rule.go:102-133 | a rule that applies is its action and then, when that goes on, its children in order |
| `Effects.ActionAnswers` | lib/action/register.go:15 | a request that gets as far as an action that ends it gets just the answer of that action, whatever stands behind |
| `Effects.MissingProxyEndsInError` | lib/action/proxy.go:62-68 | a PROXY action to a backend there is not ends in the error page |
| `Effects.NoActionIsChildren` | lib/action/none.go:19-21 | a rule without action is its children |
| `Effects.ContextIsSeen` | lib/action/context.go:46-69 | rules behind a CONTEXT action see its settings over the old ones, and nothing else has changed but headers |
| `Effects.PassedGetsPassAction` | lib/action/challenge.go:147-154 | a client that has passed one of the challenges gets the pass action, however the failure is handled |
| `Effects.PassedIsServed` | lib/action/challenge.go:118-156 | by default it is served by the backend of its host |
| `Effects.PassedCheckHasNoEffect` | lib/action/challenge.go:148-150 | a CHECK that has been passed might as well not be there |
| `Effects.PassedIsCleaned` | lib/action/challenge.go:125-146 | with arguments of ours in its query a client that has passed is redirected first |
| `Effects.StandingTokenIsServed` | lib/http.go:218-304 | a client with a standing token in its cookie is served through a first challenge rule |
| `Effects.NobodyDecides` | lib/action/challenge.go:158-217 | when every challenge is skipped or leaves the request open, the failure is handled in the state that issuing them left |
| `Effects.FirstDecides` | lib/action/challenge.go:158-212 | the first challenge that decides: OK goes on or passes, a blocking failure fails, an answered challenge stops |
| `Effects.IssuedInListOrder` | lib/action/challenge.go:158-174 | challenges are issued in the order of their list, each that is not settled |
| `Effects.BlockingPageIsShown` | lib/action/challenge.go:199-206 | the page of the first challenge is what the client gets |
| `Effects.SettledFails` | lib/action/challenge.go:161-165 | a client that comes back without having met its challenges gets the failure |
| `Effects.IssuedIff` | lib/http.go:218-304 | behind a first challenge rule, a client is given the challenge exactly without a standing token and without a reason to skip it |
| `Effects.OkIsNeverLost` | lib/action/challenge.go:158-174 | no request turns a challenge that was OK into anything else |
| `Effects.NoBackendIsUnavailable` | lib/http.go:225-230 | without a backend for its host a request is refused before any rule is looked at |
| `Effects.OptionWithoutBackend` | lib/http.go:232-243 | what passing on answers for any backend-host option and any table of backends |
| `Ledger.StartedPoint` | lib/challenge/data.go:293-317 | each challenge gets the verdict on its own token, in whatever order they are taken |
| `Ledger.PassedIffTokenStands` | lib/challenge/data.go:223-317 | a challenge is OK at the start exactly when a valid cookie holds a token for it that is in time, bound to this request, and checked or recorded as passed |
| `Ledger.VerdictIs` | lib/challenge/data.go:223-317 | how far the token of each challenge was looked at, and exactly when it is OK, skipped, not OK or failed |
| `Ledger.TokenIsKeptIff` | lib/challenge/data.go:256-312 | exactly which tokens of the cookie survive the start of a request |
| `Ledger.StartedIsStampable` | lib/challenge/data.go:359-368 | OK challenges at the start have a header text |
| `Ledger.FalseConditionSettlesIff` | lib/challenge/data.go:256-291 | a false condition keeps a challenge from being issued exactly when there is a token for it or the client just came back from it |
| `Ledger.FalseConditionIsStillIssued` | lib/challenge/data.go:256-291 | a first request is given a challenge whose condition is false |
| `Ledger.MismatchedTokenIsKeptIff` | lib/challenge/data.go:268-312 | a token with another key is kept exactly when the condition is false |
| `Ledger.RequestReached` | lib/action/challenge.go:158-174 | over a whole request each challenge is issued at most once and none that was settled; every token was there at the start or was given, bound to the request with the headers it had by then |
| `Ledger.NoChallengeLoop` | lib/challenge/data.go:280-291 | a client that comes back from a challenge is not given it again |
| `Ledger.StampsNeverPanic` | lib/challenge/types.go:38-49 | on the rule path stamping the headers cannot panic |
| `Ledger.StampTellsHow` | lib/challenge/data.go:359-368 | the stamp of a challenge that is OK says whether it was passed in this request, by a spot check, or by its token |
| `Ledger.VerifiedPassIsStampableIff` | lib/challenge/helper.go:187-196 | after the verify endpoint it would, exactly when the cookie of the request has no token of the challenge that is in time and bound to the request |
| `Ledger.VerifyBooked` | lib/challenge/helper.go:160-203 | the endpoint gives only passed tokens of the challenge it serves, made of the text that was sent to it |
| `Ledger.VerifyGivesIff` | lib/challenge/helper.go:177-196 | it gives a token exactly when the verification returned OK without an error |
| `Ledger.VerifyGives` | lib/challenge/helper.go:187-196 | and then just the one of this key, text and window, recorded as passed |
| `Ledger.VerifyAnswers` | lib/challenge/helper.go:126-203 | for every request and outcome what the client is answered: the error page, the refusal, or the redirect |
| `Contexts.OnlyNamedBackends` | lib/http.go:232-243 | whatever the rules and their settings, a request reaches the backend of its own host or one a PROXY action names, and only headers that a CONTEXT action names are set |
| `Contexts.KeyUnderRewritesIff` | lib/challenge/key.go:54-64 | a key made behind header settings is that of the request as it came exactly when they leave the bound headers with the client's own values, or the hash collides |
| `Contexts.GivenStandsIff` | lib/action/context.go:60-66 | a token given on the way stands at the same client's next request of the window exactly when it was given as passed and the CONTEXT actions executed by then left the bound headers so |
| `Contexts.GivenStandsForSender` | lib/action/context.go:60-66 | it stands for a client that sends the headers that were set |
| `Contexts.OwnHeadersKeepTokens` | lib/action/context.go:60-66 | where no CONTEXT action names a bound header, tokens have the key of the request as it came |
| `Contexts.SetHeaderLosesPassIff` | lib/action/context.go:60-66 | behind two rules that set a bound header and check, the client's pass is gone on its next request exactly when the value set was not its own |
| `Contexts.SetHeaderPassesSender` | lib/action/context.go:60-66 | with that cookie a client that sends the value set has the challenge passed |
| `Cookies.CookieOpensIff` | lib/challenge/data.go:428-476 | a cookie that was set opens exactly from a day before its making to the second of its rounded seven days |
| `Cookies.ClientHoldsTokens` | lib/challenge/data.go:327-347 | unless the connection is dropped, after a request the client holds just the tokens the request ended with, in the cookie it is sent or, without one, in that it came with |
| `Runs.PassLastsItsWindow` | lib/challenge/data.go:203-317 | in any run with the same network and bound headers a passed challenge stays OK through its window, whatever else is asked, issued or cleared |
| `Runs.PassIsCarriedOn` | lib/challenge/data.go:339-347 | one step of it: the cookie after a request still carries the pass |
| `Runs.VerifyingPasses` | lib/challenge/helper.go:187-196 | passing at the verify endpoint starts it |
| `Runs.GivenIsGenuine` | lib/challenge/helper.go:177-196 | a token given at a visit to the endpoint means that the verification of its text returned OK there; any other was stored by executing its challenge |
| `Runs.PassStandsIff` | lib/challenge/data.go:428-433 | at a later request of the window the challenge is still OK exactly when neither token nor cookie has run out |
| `Runs.TokensAreEarned` | lib/challenge/data.go:402-436 | whatever cookies clients replay, mix up or leave out, every token in one that opens was given at some earlier visit: at the endpoint for a text whose verification returned OK there, or by executing the challenge |
| `Runs.PassIsEarned` | lib/challenge/data.go:223-254 | whatever cookies are sent, a challenge is OK only if it was given such a token at an earlier visit of the same window, from the same /24 or /64 and with the same values of its bound headers as set by then, or the hash collided |
| `Query.ParseRawQuery` | utils/http.go:184-200 | the loop over the shrinking query collects the pairs in order and reports a semicolon |
| `Query.PartsAreReadInOrder` | utils/http.go:184-200 | the pairs of a query are those of its parts, one after the other |
| `Query.OnePart` | utils/http.go:184-200 | a part is cut at its first equals sign, an empty one or one with a semicolon gives no pair |
| `Query.ErrorIffSemicolon` | utils/http.go:184-200 | a parse error is reported exactly for a query with a semicolon |
| `Query.ParsedValues` | utils/http.go:184-200 | each key has the values of its pairs in the order they came |
| `Query.EncodeRawQuery` | utils/http.go:202-219 | the builder writes the pairs of the sorted keys with separators between them |
| `Query.FirstByteDecides` | utils/http.go:202-219 | the order of keys is that of the first byte they differ in |
| `Query.ParseEncode` | utils/http.go:184-219 | parsing an encoded map gives it back exactly for the maps a raw query can spell |
| `Query.EncodeParseIdempotent` | utils/http.go:184-219 | encoding what was parsed is idempotent |
| `Query.CleanupQuery` | lib/http.go:255-262 | of the cleaned query itself: a key is in it exactly when it was in the query and does not begin with our prefix, with the same values |
| `Query.CleanupKeepsExactlyTheirs` | lib/http.go:255-262 | for every key, cleaning keeps it with its values in order or drops it, exactly by its prefix |
| `VerifyUrls.VerifyUrl` | lib/challenge/helper.go:86-106 | the arguments are set in the parsed raw query of the request |
| `VerifyUrls.RedirectUrl` | lib/challenge/helper.go:108-124 | the arguments of the redirect are set in the parsed raw query |
| `VerifyUrls.RedirectNamesChallengeIff` | lib/challenge/helper.go:108-124 | coming back, a request names the challenge it was redirected for exactly without an earlier alias |
| `VerifyUrls.RedirectKeepsReferer` | lib/challenge/helper.go:117-119 | the referer of the first request comes back with it |
| `VerifyUrls.RedirectIsCleanedAway` | lib/http.go:255-262 | a backend sees the same query with the redirect as without it |
| `VerifyUrls.RedirectEndsLoop` | lib/challenge/data.go:285-288 | a client that follows the redirect is not given that challenge again |
| `VerifyUrls.LeastAliasIsRead` | lib/challenge/helper.go:58-84 | an argument is read from the least key that unescapes to its name and has a value that unescapes |
| `VerifyUrls.InformsIff` | lib/challenge/helper.go:58-84 | the arguments are taken exactly for the right challenge, an id of sixteen bytes in hexadecimal and a redirect that is allowed |
| `VerifyUrls.VerifyUrlIsRead` | lib/challenge/helper.go:58-106 | for any query, what the endpoint reads is the arguments or the values of their least earlier aliases |
| `VerifyUrls.VerifyUrlRoundTrip` | lib/challenge/helper.go:58-106 | reading a verify URL gives the id, the token and the redirect back when the query has no earlier alias of an argument |
| `VerifyUrls.VerifyUrlsRoundTripIff` | lib/challenge/helper.go:58-106 | every verify URL of a request reads back exactly when its query has no earlier alias that can be read |
| `VerifyUrls.EarlierAliasIsReadInstead` | lib/challenge/helper.go:58-106 | with an alias of the token the endpoint gets its first readable value, and the round trip holds exactly when that is the token |
| `DecayMaps.DecayMap.Get` | utils/decaymap.go:29-51 | without other callers a hit is exactly a live entry and only dead ones go |
| `DecayMaps.DecayMap.Set` | utils/decaymap.go:53-61 | the entry lives for the given time from now |
| `DecayMaps.DecayMap.Decay` | utils/decaymap.go:63-73 | exactly the dead entries go |
| `DecayMaps.OnlyDeadEntriesGo` | utils/decaymap.go:29-73 | no locked step of any interleaving removes an entry that has not expired, and the ground for it is invariant |
| `DecayMaps.RunsStaySound` | utils/decaymap.go:29-73 | at every event of every run no entry that has not expired is removed |
| `DecayMaps.GetAfterSet` | utils/decaymap.go:29-61 | a get begun after a set of its key, with no later one, hits exactly when it decides before the expiry |
| `DecayMaps.HitIsLiveAtRead` | utils/decaymap.go:29-51 | a hit returns the value that was in the map at its read |
| `DecayMaps.RefreshedEntryStays` | utils/decaymap.go:40-46 | an entry refreshed after it was seen dead is missed once but not removed |
| `DecayMaps.DeadEntriesGo` | utils/decaymap.go:40-73 | an entry whose time is over, and has not been refreshed, is gone after a get that saw it and after a decay |
| `DecayMaps.AloneIsSequential` | utils/decaymap.go:29-51 | a get whose steps nothing comes between does what the method does |
| `Awaiters.NextKeeps` | lib/challenge/awaiter.go:17-39 | every step of every caller keeps the invariant of callbacks, firings and results |
| `Awaiters.FiresAtMostOnce` | lib/challenge/awaiter.go:35-39 | no callback is fired twice |
| `Awaiters.ReturnsWhatWasFired` | lib/challenge/awaiter.go:17-33 | a result other than None was fired at that very callback |
| `Awaiters.WokenSeesResult` | lib/challenge/awaiter.go:23-32 | an await woken by its callback loads the result it was fired with |
| `Awaiters.SolveIsDelivered` | lib/challenge/awaiter.go:17-39 | a solve of an awaited key takes its callback, and once it has finished the await that still waits loads just its result, whatever ran in between |
| `Awaiters.UnsolvedReturnsNone` | lib/challenge/awaiter.go:27-32 | an await that is not solved returns None when its context ends |
| `Awaiters.NothingIsLeftBehind` | lib/challenge/awaiter.go:27-28 | when all awaits have returned the map is empty |
| `Grease.MaskTestsNibbles` | utils/fingerprint.go:80-81 | masking 16 bits is testing that both bytes end in the digit A |
| `Grease.ReservedIffEqualBytes` | utils/fingerprint.go:80-81 | the reserved values are the masked ones with equal bytes |
| `Grease.DroppedAreInvisible` | utils/fingerprint.go:219-246 | a filtered list does not see dropped values put in or taken out |
| `Grease.SortedIffPermutation` | utils/fingerprint.go:147-151 | sorted lists are equal exactly for permutations |
| `Ja3Texts.MaxVersion` | utils/fingerprint.go:111-122 | the loop finds the greatest version without GREASE and whether there was any |
| `Ja3Texts.Ja3VersionIs` | utils/fingerprint.go:111-131 | the version written is the greatest without GREASE, except TLS 1.2 exactly for newer clients with GREASE and the supported-versions extension |
| `Ja3Texts.AppendList` | utils/fingerprint.go:133-183 | a list with its last separator cut off by a counter is the plain joined list, also when empty |
| `Ja3Texts.Ja3` | utils/fingerprint.go:108-187 | the buffer is the five joined fields |
| `Ja3Texts.Ja3ReadsBack` | utils/fingerprint.go:108-187 | cut at commas and dashes and read as decimals, the text gives version, ciphers, extensions, curves and points back |
| `Ja3Texts.Ja3Determines` | utils/fingerprint.go:108-187 | texts are equal exactly for equal versions, lists without GREASE and points, with sorted extensions up to permutation |
| `Ja3Texts.Ja3IgnoresExtensionOrder` | utils/fingerprint.go:147-151 | with sorting the order of extensions does not show |
| `Ja4Texts.Uint16SliceToHex` | utils/fingerprint.go:301-314 | four hexadecimal digits each, with commas between them |
| `Ja4Texts.Fingerprint` | utils/fingerprint.go:189-299 | the three parts are those specified |
| `Ja4Texts.CountSaturates` | utils/fingerprint.go:261-277 | a count is two digits and stops at 99 |
| `Ja4Texts.ReadableIsWhole` | utils/fingerprint.go:189-285 | the readable part has ten bytes exactly for the named versions and those of two digits, and more otherwise |
| `Ja4Texts.NamedVersionIs` | utils/fingerprint.go:201-220 | how the five named versions are written |
| `Ja4Texts.OtherVersionIs` | utils/fingerprint.go:201-220 | how all others are written, with the subtraction wrapping around |
| `Ja4Texts.ReadableParts` | utils/fingerprint.go:189-285 | the ten bytes one after the other: version, server name, counts, protocol |
| `Ja4Texts.CipherTextDetermines` | utils/fingerprint.go:287 | the hashed text of the ciphers is the same exactly for permutations up to GREASE |
| `Ja4Texts.CipherTextReadsBack` | utils/fingerprint.go:287-314 | read back, it is the ciphers without GREASE in ascending order |
| `Ja4Texts.ExtensionTextDetermines` | utils/fingerprint.go:289-296 | that of extensions and schemes exactly for permuted extensions and equal schemes up to GREASE |
| `Ja4Texts.ExtensionTextReadsBack` | utils/fingerprint.go:289-314 | read back, it is the other extensions in ascending order and the schemes as they came |
| `Ja4Texts.HiddenIff` | utils/fingerprint.go:237-296 | an extension does not show in it exactly when it is GREASE, the server name or the protocols |
| `Ja4Texts.ShortHashIs` | utils/fingerprint.go:316-323 | the first six bytes of the hash, or zeros for an empty text |
| `Ja4Texts.PartsAreApart` | utils/fingerprint.go:287-299 | the second part depends on the ciphers alone and tells them apart up to collisions, the third on extensions and schemes |
| `Ja4Texts.Ja4IgnoresOrderAndGrease` | utils/fingerprint.go:189-299 | the fingerprint does not depend on the order of ciphers, extensions and versions, nor on GREASE anywhere |
| `Ja4Texts.PermutingAndGreasingAgree` | utils/fingerprint.go:189-299 | permuting lists and putting GREASE in are such differences |
| `Mime.BitmapIsTokenTable` | utils/inline/mime.go:95-121 | the two-word bitmap accepts exactly the token characters of section 3.2.6 of RFC 7230 |
| `Mime.CanonicalizeInPlace` | utils/inline/mime.go:133-180 | the bytes are rewritten to the canonical form, or left alone when one is invalid |
| `Mime.CanonicalMIMEHeaderKey` | utils/inline/mime.go:64-83 | the quick scan and the slow path agree on the canonical form |
| `Mime.CanonicalIdempotent` | utils/inline/mime.go:64-83 | canonicalizing twice is canonicalizing once; invalid keys stay |
| `Mime.CanonicalCase` | utils/inline/mime.go:133-180 | letters at the beginning and after a dash are upper case, all others lower case |
| `Mime.CanonicalIffSameKey` | utils/inline/mime.go:64-83 | keys have one form exactly when they are equal or are valid and differ only in case |
| `Mime.MIMEHeader.Add` | utils/inline/mime.go:11-14 | the value is appended for every way to write the key, other keys are unchanged |
| `Mime.MIMEHeader.Set` | utils/inline/mime.go:19-21 | the value is the only one for every way to write the key |
| `Mime.MIMEHeader.Del` | utils/inline/mime.go:52-54 | no way to write the key finds a value |
| `Mime.MIMEHeader.Values` | utils/inline/mime.go:44-49 | all values of the key |
| `Mime.MIMEHeader.Get` | utils/inline/mime.go:28-37 | the first value of the key, if there is one |
| `GeoIp.CountryCache.Country` | lib/conditions.go:71-153 | the answer is that of the database, whatever the cache holds; without a database a panic |
| `GeoIp.CountryCache.CountryList` | lib/conditions.go:154-240 | the answer is the disjunction of the single answers over the strings of the list |
| `GeoIp.NamesExactly` | lib/conditions.go:133-151 | a country is named by its own code and name in any case and spacing, and by nothing else |
| `GeoIp.UnfoundIsNowhere` | lib/conditions.go:108-136 | an address that the database does not have is in no country, whatever is asked for |
| `GeoIp.CachedIff` | lib/conditions.go:101-131 | what a lookup leaves in the cache: all that was there, and its address if it was not found or there was room |
| `GeoIp.CacheAfterKeeps` | lib/conditions.go:101-131 | a lookup keeps every cached answer equal to the database's, and only failures go in beyond the limit |
| `GeoIp.SizeIsBounded` | lib/conditions.go:101-131 | the cache holds at most the limit and one entry for each address not found |

## Left out

- The insides of SHA-256 and MD5: hashes are arbitrary functions, injective only where a lemma says what a collision would mean.
- Signing and encryption of the state cookie: it is a container nobody but the server can make, it opens at every request of a run (one host and one network, which its key depends on), and a request carries one cookie of its name.
- CEL conditions, policies, JSON in the WASM calls, templates, metrics, logging, TLS, DNS, ACME, reverse proxying and other I/O.
- Parsing of the difficulty setting and URL escaping: a setting is absent, malformed or a number; escaping is any pair of functions with the stated laws.
- Clock readings: the checks of one request's tokens share one reading.
- `Hex.Encode` and `Hex.Decode`: the source buffer is a value, so a destination that overlaps it is not modelled.
- `ProofOfWork.DecodeHex`: characters from 256 on are not modelled, as the server never sends any.
- `ProofOfWork.Search`: requires that some nonce wins, as the worker's loop otherwise does not end; `ProofOfWork.SearchIsExhaustive` says when one does.
- `ProofOfWork.OnMessage`: the same, and the target has 64 or 65 characters, as the server's has 64.
- `Registers.Register.Create`: a runtime fills in the challenge but leaves its name and id alone, as the shipped ones do.
- The preload-link challenge's own endpoints, resource challenges and the page each challenge shows.
- `Request.RequestData.RequestHeaders`: only the challenge stamps; the other X-Away, address and fingerprint headers are plain copies.
- `Request.RequestData.HandleAction`: the response headers of a CONTEXT action, which no later decision looks at, and the header writes of serving a backend (X-Away, Referer, Cookie), after which no key is made.
- `Request.RequestData.SetContext`: header names stand in canonical form, and the settings are a list in whatever order the map is iterated.
- The lookup of a backend by host, which is a table here.
- The table of common header strings in utils/inline/mime.go:172-179, which returns an equal string.
- Two awaits on one key at a time: the later one replaces the callback of the earlier, so no delivery to both is claimed.
- Concurrent use of the country cache, which the source does not guard.
- Addresses or arguments of the wrong type in country conditions, which panic before the cache is used.
- Network lists, tag fetching and the settings of listeners: constant tables and I/O with no hard property.
