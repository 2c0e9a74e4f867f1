/**
  What one request does, as functions of its state: checking the tokens of the
  cookie (lib/challenge/data.go), running action handlers (lib/action) and rule
  trees (lib/rule.go), and serving the request (lib/http.go).
 */
module Protocol {
  import opened Bytes
  import opened Types
  import opened Wrappers
  import opened Keys
  import opened Expiry

  // ------------------------------------------------------------------- vocabulary

  datatype Token = Token(key: Text, result: Text, ok: bool, expiry: int, notBefore: int)

  type TokenMap = map<Text, Token>

  /** The signed and encrypted state cookie, which only the server can make. */
  datatype Cookie = Cookie(tokens: TokenMap, expiry: int, notBefore: int)

  /** The cookie of a request: none, one that does not open, or a genuine one. */
  datatype CookieIn = NoCookie | Unreadable | Readable(cookie: Cookie)

  /** What a compiled condition can evaluate to. */
  datatype Condition = IsTrue | IsFalse | NotBool | Nil | Failed

  datatype CheckError = NoError | Problem | HappyEyeballs

  datatype Check = Check(result: VerifyResult, error: CheckError)

  datatype TokenWrite = TokenWrite(result: Text, ok: bool)

  /** What a challenge's issuing returns, and the token it stores on the way, if any. */
  datatype Issuance = Issuance(result: VerifyResult, token: Option<TokenWrite>)

  datatype Response =
    | Backend(host: Text) | Unavailable | Redirected | ErrorPage(code: int)
    | Blocked | Coded(code: int) | Dropped | ChallengePage(id: Id) | OtherPage

  type Headers = map<Text, seq<Text>>

  /** A setting of a request header: its canonical name and its new values. */
  type Rewrite = (Text, seq<Text>)

  /** A token given to the client, and the header settings in force at that time. */
  datatype Given = Given(reg: Registration, token: Token, rewrites: seq<Rewrite>)

  /** The mutable part of a request and its response; `rewrites`, `issued` and `given` only record. */
  datatype Snap = Snap(
    verify: map<Id, VerifyResult>,
    state: map<Id, VerifyState>,
    tokens: TokenMap,
    modified: bool,
    opts: map<Text, Text>,
    headers: Headers,
    rewrites: seq<Rewrite>,
    setCookie: Option<Cookie>,
    responses: seq<Response>,
    issued: seq<Id>,
    given: seq<Given>)

  datatype Server = Server(H: Hash, fingerprint: Text, challenges: seq<Registration>)

  /** The fixed part of a request; conditions, challenges and spot checks may do anything. */
  datatype Env = Env(
    server: Server,
    client: Client,
    time: int,
    now: int,
    host: Text,
    issuedChallenge: Text,
    cleansQuery: bool,
    hasBackend: Text -> bool,
    spotCheck: Registration -> bool,
    verify: (Registration, Key, Text) -> Check,
    challengeCondition: Registration -> Condition,
    ruleCondition: (Rule, Snap) -> Condition,
    issue: (Registration, Snap) -> Issuance)
  {
    function KeyExpiry(reg: Registration): int { Expiration(time, reg.duration) }

    /** The key of a challenge for the request as it came in. */
    function KeyFor(reg: Registration): Key { KeyWith(reg, client.headers) }

    /** The key while the request has these headers. */
    function KeyWith(reg: Registration, headers: Headers): Key
    {
      KeyOf(server.H, server.fingerprint, reg, client.(headers := headers), Unix(KeyExpiry(reg)))
    }
  }

  datatype Handler =
    | Pass
    | Proxy(backend: Text)
    | Deny
    | Block
    | Code(code: int)
    | Drop
    | NoAction
    | Context(settings: map<Text, Text>, requestHeaders: seq<Rewrite>)
    | Challenge(cont: bool, regs: seq<Registration>, pass: Handler, fail: Handler)

  datatype Rule = Rule(name: Text, hasCondition: bool, handler: Handler, children: seq<Rule>)

  /** The state after a handler, whether to go on, and whether it failed. */
  datatype Handled = Handled(s: Snap, next: bool, err: bool)

  // ----------------------------------------------------------------- token checks

  function ResultOf(s: Snap, id: Id): VerifyResult
  {
    if id in s.verify then s.verify[id] else ResultNone
  }

  function StateOf(s: Snap, id: Id): VerifyState
  {
    if id in s.state then s.state[id] else StateNone
  }

  datatype TokenError = Fine | Expired | NotYetValid | KeyMismatch | SpotCheckFailed

  datatype TokenVerdict = TokenVerdict(result: VerifyResult, state: VerifyState, error: TokenError)

  function VerifyChallengeToken(e: Env, reg: Registration, token: Token): TokenVerdict
  {
    if FromUnix(token.expiry) < e.now then TokenVerdict(ResultFail, StateNone, Expired)
    else if FromUnix(token.notBefore) > e.now then TokenVerdict(ResultFail, StateNone, NotYetValid)
    else if token.key != e.KeyFor(reg) then TokenVerdict(ResultFail, StateNone, KeyMismatch)
    else if reg.hasVerify && e.spotCheck(reg) then
      var check := e.verify(reg, e.KeyFor(reg), token.result);
      if check.error != NoError then TokenVerdict(ResultFail, StateFull, SpotCheckFailed)
      else if check.result == ResultNotOK then TokenVerdict(ResultNotOK, StateFull, Fine)
      else if !check.result.Ok() then TokenVerdict(check.result, StateFull, SpotCheckFailed)
      else TokenVerdict(check.result, StateFull, Fine)
    else if !token.ok then TokenVerdict(ResultNotOK, StateBrief, Fine)
    else TokenVerdict(ResultOK, StateBrief, Fine)
  }

  datatype Checked = Checked(verdict: TokenVerdict, cleared: bool)

  /** `verifyChallenge`: the verdict on one challenge and whether its token was dropped on the way. */
  function VerifyChallenge(e: Env, reg: Registration, tokens: TokenMap): Checked
  {
    if reg.name !in tokens then
      Checked(LoopGuard(e, reg, TokenVerdict(ResultFail, StateNone, Fine)), false)
    else
      var v := VerifyChallengeToken(e, reg, tokens[reg.name]);
      var cleared := v.error != Fine && v.error != KeyMismatch;
      if !v.result.Ok() && reg.hasCondition && e.challengeCondition(reg) == IsFalse then
        Checked(TokenVerdict(ResultSkip, v.state, Fine), cleared)
      else
        Checked(LoopGuard(e, reg, v), cleared)
  }

  /** A challenge the client just came back from is skipped when it is still not met. */
  function LoopGuard(e: Env, reg: Registration, v: TokenVerdict): TokenVerdict
  {
    if !v.result.Ok() && e.issuedChallenge == reg.name then v.(result := ResultSkip) else v
  }

  /** One round of `EvaluateChallenges`. */
  function EvaluateOne(e: Env, reg: Registration, s: Snap): Snap
  {
    var c := VerifyChallenge(e, reg, s.tokens);
    var clear := c.cleared || c.verdict.error != Fine;
    s.(verify := s.verify[reg.id := c.verdict.result],
       state := s.state[reg.id := c.verdict.state],
       tokens := if clear then s.tokens - {reg.name} else s.tokens,
       modified := s.modified || clear)
  }

  function EvaluateEach(e: Env, regs: seq<Registration>, s: Snap): Snap
  {
    if regs == [] then s else EvaluateEach(e, regs[1..], EvaluateOne(e, regs[0], s))
  }

  predicate CookieValid(e: Env, c: Cookie)
  {
    FromUnix(c.expiry) >= e.now && FromUnix(c.notBefore) <= e.now
  }

  /** The tokens a request starts from. */
  function LoadedTokens(e: Env, c: CookieIn): TokenMap
  {
    if c.Readable? && CookieValid(e, c.cookie) then c.cookie.tokens else map[]
  }

  function Loaded(e: Env, c: CookieIn): Snap
  {
    Snap(map[], map[], LoadedTokens(e, c), !(c.NoCookie? || (c.Readable? && CookieValid(e, c.cookie))),
         map[], e.client.headers, [], None, [], [], [])
  }

  /** `EvaluateChallenges`, from the cookie to the first verdicts. */
  function Started(e: Env, c: CookieIn): Snap
  {
    EvaluateEach(e, e.server.challenges, Loaded(e, c))
  }

  // --------------------------------------------------------------------- handlers

  /** `ResponseHeaders`: the cookie is sent again when the tokens changed. */
  function EmitHeaders(e: Env, s: Snap): Snap
  {
    if !s.modified then s
    else s.(setCookie := Some(Cookie(s.tokens, Unix(Expiration(e.time, DEFAULT_DURATION)), Unix(e.now - DAY))))
  }

  function Write(s: Snap, r: Response): Snap { s.(responses := s.responses + [r]) }

  function Respond(e: Env, s: Snap, r: Response): Snap { Write(EmitHeaders(e, s), r) }

  /** "backend-host". */
  const BACKEND_HOST: Text := [98, 97, 99, 107, 101, 110, 100, 45, 104, 111, 115, 116]

  function Opt(s: Snap, name: Text): Text { if name in s.opts then s.opts[name] else [] }

  /** `done()`: clean the request, emit the headers, pick the backend of the host. */
  function Done(e: Env, s: Snap): Snap
  {
    var opt := Opt(s, BACKEND_HOST);
    var t := EmitHeaders(e, s);
    if opt != [] && opt != e.host && !e.hasBackend(e.host) then Write(t, Unavailable) else t
  }

  function PassOn(e: Env, s: Snap): Snap
  {
    var opt := Opt(s, BACKEND_HOST);
    if opt != [] && opt != e.host && !e.hasBackend(e.host) then Done(e, s)
    else Write(Done(e, s), Backend(e.host))
  }

  /** Headers after some settings, each of which replaces all values of its name. */
  function Rewritten(headers: Headers, rewrites: seq<Rewrite>): Headers
    decreases |rewrites|
  {
    if rewrites == [] then headers else Rewritten(headers[rewrites[0].0 := rewrites[0].1], rewrites[1..])
  }

  /** `Context`: settings for later actions, and headers of the request itself, in the order they are taken. */
  function SetContext(s: Snap, settings: map<Text, Text>, requestHeaders: seq<Rewrite>): Snap
  {
    s.(opts := s.opts + settings, headers := Rewritten(s.headers, requestHeaders), rewrites := s.rewrites + requestHeaders)
  }

  /** `IssueChallengeToken`. */
  function StoreToken(reg: Registration, token: Token, s: Snap): Snap
  {
    s.(tokens := s.tokens[reg.name := token], modified := true, given := s.given + [Given(reg, token, s.rewrites)])
  }

  /** A token bound to the request as it is now, for the window of the challenge. */
  function GiveToken(e: Env, reg: Registration, w: TokenWrite, s: Snap): Snap
  {
    StoreToken(reg, Token(e.KeyWith(reg, s.headers), w.result, w.ok, Unix(e.KeyExpiry(reg)), 0), s)
  }

  /**
    Executing a challenge. A blocking challenge that returns None has answered the
    request itself; in every other case nothing has been written.
   */
  function Executed(e: Env, reg: Registration, s: Snap): Snap
  {
    var i := e.issue(reg, s);
    var t := if i.token.Some? then GiveToken(e, reg, i.token.value, s) else s;
    if reg.cls.Blocking? && i.result.ResultNone? then Respond(e, t, ChallengePage(reg.id)) else t
  }

  /** Issuing a challenge: executing it and recording what it returned. */
  function IssueOne(e: Env, reg: Registration, s: Snap): Snap
  {
    var t := Executed(e, reg, s);
    t.(verify := t.verify[reg.id := e.issue(reg, s).result], state := t.state[reg.id := StatePass],
       issued := t.issued + [reg.id])
  }

  predicate HasValid(regs: seq<Registration>, s: Snap)
  {
    exists reg :: reg in regs && ResultOf(s, reg.id).Ok()
  }

  /** A challenge in one of these situations is never issued in this request. */
  predicate Settled(s: Snap, id: Id)
  {
    ResultOf(s, id).Ok() || ResultOf(s, id) == ResultSkip || StateOf(s, id) == StatePass
  }

  function Handle(h: Handler, e: Env, s: Snap): Handled
    decreases h, 2, 0
  {
    match h
    case Pass => Handled(PassOn(e, s), false, false)
    case Proxy(backend) =>
      if !e.hasBackend(backend) then Handled(s, false, true)
      else Handled(Write(Done(e, s), Backend(backend)), false, false)
    case Deny => Handled(Respond(e, s, ErrorPage(403)), false, false)
    case Block => Handled(Respond(e, s, Blocked), false, false)
    case Code(code) => Handled(Respond(e, s, Coded(code)), false, false)
    case Drop => Handled(Write(s, Dropped), false, false)
    case NoAction => Handled(s, true, false)
    case Context(settings, requestHeaders) => Handled(SetContext(s, settings, requestHeaders), true, false)
    case Challenge(cont, regs, pass, fail) =>
      if HasValid(regs, s) then
        if e.cleansQuery then Handled(Respond(e, s, Redirected), false, false)
        else if cont then Handled(s, true, false)
        else Handle(pass, e, s)
      else IssueFrom(h, 0, e, s)
  }

  /** The second pass over the challenges of a handler, from the i-th on. */
  function IssueFrom(h: Handler, i: nat, e: Env, s: Snap): Handled
    requires h.Challenge? && i <= |h.regs|
    decreases h, 1, |h.regs| - i
  {
    if i == |h.regs| then Handle(h.fail, e, s)
    else
      var reg := h.regs[i];
      if Settled(s, reg.id) then IssueFrom(h, i + 1, e, s)
      else
        var t := IssueOne(e, reg, s);
        var d := Decide(h, reg, e, t);
        if d.Some? then d.value else IssueFrom(h, i + 1, e, t)
  }

  /** What the result of an issuing decides; None leaves it to the challenges behind it. */
  function Decide(h: Handler, reg: Registration, e: Env, t: Snap): Option<Handled>
    requires h.Challenge?
    decreases h, 0, 0
  {
    match ResultOf(t, reg.id)
    case ResultOK => Some(if h.cont then Handled(t, true, false) else Handle(h.pass, e, t))
    case ResultFail => if reg.cls.Transparent? then None else Some(Handle(h.fail, e, t))
    case ResultNone => if reg.cls.Transparent? then None else Some(Handled(t, false, false))
    case ResultNotOK => None
    case ResultSkip => None
  }

  // ------------------------------------------------------------------------ rules

  function RuleOutcome(e: Env, rule: Rule, s: Snap): Condition
  {
    if rule.hasCondition then e.ruleCondition(rule, s) else IsTrue
  }

  function Evaluate(rule: Rule, e: Env, s: Snap): Handled
    decreases rule, 1
  {
    match RuleOutcome(e, rule, s)
    case Failed => Handled(s, false, true)
    case NotBool => Handled(s, false, true)
    case IsFalse => Handled(s, true, false)
    case Nil => Handled(s, true, false)
    case IsTrue =>
      var r := Handle(rule.handler, e, s);
      if r.err || !r.next then r.(next := false) else EvaluateSeq(rule.children, e, r.s)
  }

  /** Rules in order: the first one that fails or stops decides. */
  function EvaluateSeq(rules: seq<Rule>, e: Env, s: Snap): Handled
    decreases rules, 0
  {
    if rules == [] then Handled(s, true, false)
    else
      var r := Evaluate(rules[0], e, s);
      if r.err || !r.next then r.(next := false) else EvaluateSeq(rules[1..], e, r.s)
  }

  /** The whole of `handleRequest`; `err` says that it panicked after the error page. */
  function HandleRequest(rules: seq<Rule>, e: Env, s: Snap): Handled
  {
    if !e.hasBackend(e.host) then Handled(Write(s, Unavailable), false, false)
    else
      var r := EvaluateSeq(rules, e, s);
      if r.err then Handled(Respond(e, r.s, ErrorPage(500)), false, true)
      else if !r.next then r
      else Handle(Pass, e, r.s)
  }

  /** The challenge is known and its state has a header text. */
  predicate Stampable(e: Env, s: Snap, id: Id)
  {
    (exists k :: 0 <= k < |e.server.challenges| && e.server.challenges[k].id == id) && StateOf(s, id) != StateNone
  }

  // -------------------------------------------------------------- verify endpoint

  /** `VerifyHandlerFunc`, given what the query of the request carried. */
  function HandleVerify(reg: Registration, token: Option<Text>, e: Env, s: Snap): Snap
  {
    if token.None? then Respond(e, s, ErrorPage(400))
    else
      var check := e.verify(reg, e.KeyWith(reg, s.headers), token.value);
      if check.error == HappyEyeballs then Respond(e, s, Redirected)
      else if check.error == Problem then Respond(e, s, ErrorPage(400))
      else if !check.result.Ok() then Respond(e, s, ErrorPage(403))
      else
        var t := GiveToken(e, reg, TokenWrite(token.value, true), s);
        Respond(e, t.(verify := t.verify[reg.id := check.result]), Redirected)
  }
}
