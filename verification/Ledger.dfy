/** What a request may do to challenges and tokens: issue each at most once, keep what is settled, sign only what was earned. */
module Ledger {
  import opened Types
  import opened Wrappers
  import opened Expiry
  import opened Keys
  import opened Protocol

  // ---------------------------------------------------------------- registrations

  /** Ids and names are unique, as the register keeps them. */
  ghost predicate WellRegistered(regs: seq<Registration>)
  {
    forall i, j :: 0 <= i < j < |regs| ==> regs[i].id != regs[j].id && regs[i].name != regs[j].name
  }

  /** A handler names only challenges of the register, at every depth. */
  predicate UsesOnly(h: Handler, known: seq<Registration>)
  {
    h.Challenge? ==>
      (forall reg :: reg in h.regs ==> reg in known) && UsesOnly(h.pass, known) && UsesOnly(h.fail, known)
  }

  predicate RuleUsesOnly(rule: Rule, known: seq<Registration>)
    decreases rule, 1
  {
    UsesOnly(rule.handler, known) && RulesUseOnly(rule.children, known)
  }

  predicate RulesUseOnly(rules: seq<Rule>, known: seq<Registration>)
    decreases rules, 0
  {
    rules != [] ==> RuleUsesOnly(rules[0], known) && RulesUseOnly(rules[1..], known)
  }

  // --------------------------------------------------------- evaluating the cookie

  predicate Clears(e: Env, reg: Registration, tokens: TokenMap)
  {
    var c := VerifyChallenge(e, reg, tokens);
    c.cleared || c.verdict.error != Fine
  }

  /** Evaluating some challenges leaves the others and their tokens alone. */
  lemma {:induction false} EvaluateEachFrame(e: Env, regs: seq<Registration>, s: Snap)
    ensures var t := EvaluateEach(e, regs, s);
      && t.issued == s.issued && t.given == s.given && t.responses == s.responses && t.setCookie == s.setCookie
      && t.opts == s.opts && t.headers == s.headers && t.rewrites == s.rewrites
      && (forall id :: (forall k :: 0 <= k < |regs| ==> regs[k].id != id) ==>
            ResultOf(t, id) == ResultOf(s, id) && StateOf(t, id) == StateOf(s, id))
      && (forall name :: name in t.tokens ==> name in s.tokens && t.tokens[name] == s.tokens[name])
      && (forall name :: name in s.tokens && (forall k :: 0 <= k < |regs| ==> regs[k].name != name) ==> name in t.tokens)
  {
    if regs != [] {
      var u := EvaluateOne(e, regs[0], s);
      EvaluateEachFrame(e, regs[1..], u);
      assert forall k :: 1 <= k < |regs| ==> regs[k] == regs[1..][k - 1];
    }
  }

  /** Each challenge gets the verdict on its own token, whatever order they are taken in. */
  lemma {:induction false} EvaluateEachPoint(e: Env, regs: seq<Registration>, s: Snap, i: nat)
    requires WellRegistered(regs) && i < |regs|
    ensures var t, c := EvaluateEach(e, regs, s), VerifyChallenge(e, regs[i], s.tokens);
      && ResultOf(t, regs[i].id) == c.verdict.result && StateOf(t, regs[i].id) == c.verdict.state
      && (regs[i].name in t.tokens <==> regs[i].name in s.tokens && !Clears(e, regs[i], s.tokens))
  {
    var u := EvaluateOne(e, regs[0], s);
    if i > 0 {
      assert regs[1..][i - 1] == regs[i];
      WellRegisteredTail(regs);
      EvaluateEachPoint(e, regs[1..], u, i - 1);
    } else {
      EvaluateEachFrame(e, regs[1..], u);
      assert forall k :: 0 <= k < |regs[1..]| ==> regs[1..][k] == regs[k + 1];
    }
  }

  lemma WellRegisteredTail(regs: seq<Registration>)
    requires WellRegistered(regs) && regs != []
    ensures WellRegistered(regs[1..])
  {
  }

  /** The verdict on a registered challenge at the start of a request. */
  lemma StartedPoint(e: Env, c: CookieIn, reg: Registration)
    requires WellRegistered(e.server.challenges) && reg in e.server.challenges
    ensures var t, checked := Started(e, c), VerifyChallenge(e, reg, LoadedTokens(e, c));
      && ResultOf(t, reg.id) == checked.verdict.result && StateOf(t, reg.id) == checked.verdict.state
      && (reg.name in t.tokens <==> reg.name in LoadedTokens(e, c) && !Clears(e, reg, LoadedTokens(e, c)))
      && (reg.name in t.tokens ==> t.tokens[reg.name] == LoadedTokens(e, c)[reg.name])
  {
    var i :| 0 <= i < |e.server.challenges| && e.server.challenges[i] == reg;
    EvaluateEachPoint(e, e.server.challenges, Loaded(e, c), i);
    EvaluateEachFrame(e, e.server.challenges, Loaded(e, c));
  }

  /** A token is in time and bound to this request. */
  predicate TokenFits(e: Env, reg: Registration, token: Token)
  {
    e.now <= FromUnix(token.expiry) && FromUnix(token.notBefore) <= e.now && token.key == e.KeyFor(reg)
  }

  /** A token stands: it fits, and it is either spot-checked now or recorded as passed. */
  predicate TokenStands(e: Env, reg: Registration, token: Token)
  {
    && TokenFits(e, reg, token)
    && if reg.hasVerify && e.spotCheck(reg) then
         var check := e.verify(reg, e.KeyFor(reg), token.result);
         check.error == NoError && check.result.Ok()
       else token.ok
  }

  /** A challenge is passed at the start of a request exactly when the cookie holds a standing token for it. */
  lemma PassedIffTokenStands(e: Env, c: CookieIn, reg: Registration)
    requires WellRegistered(e.server.challenges) && reg in e.server.challenges
    ensures ResultOf(Started(e, c), reg.id).Ok()
       <==> c.Readable? && CookieValid(e, c.cookie) && reg.name in c.cookie.tokens
            && TokenStands(e, reg, c.cookie.tokens[reg.name])
  {
    StartedPoint(e, c, reg);
  }

  lemma UnknownIsNotPassed(e: Env, c: CookieIn, id: Id)
    requires forall k :: 0 <= k < |e.server.challenges| ==> e.server.challenges[k].id != id
    ensures ResultOf(Started(e, c), id) == ResultNone
  {
    EvaluateEachFrame(e, e.server.challenges, Loaded(e, c));
  }

  lemma PassedHasState(e: Env, reg: Registration, tokens: TokenMap)
    requires VerifyChallenge(e, reg, tokens).verdict.result.Ok()
    ensures VerifyChallenge(e, reg, tokens).verdict.state != StateNone
  {
  }

  /** Passed challenges have a state with a header text, and belong to the register. */
  lemma StartedIsStampable(e: Env, c: CookieIn, id: Id)
    requires WellRegistered(e.server.challenges) && ResultOf(Started(e, c), id).Ok()
    ensures Stampable(e, Started(e, c), id)
  {
    if k :| 0 <= k < |e.server.challenges| && e.server.challenges[k].id == id {
      StartedPoint(e, c, e.server.challenges[k]);
      PassedHasState(e, e.server.challenges[k], LoadedTokens(e, c));
    } else {
      UnknownIsNotPassed(e, c, id);
    }
  }

  /** The verification of a fitting token that is spot-checked. */
  function SpotCheck(e: Env, reg: Registration, token: Token): Check { e.verify(reg, e.KeyFor(reg), token.result) }

  predicate IsSpotChecked(e: Env, reg: Registration) { reg.hasVerify && e.spotCheck(reg) }

  /**
    A challenge that is not asked of this client: it just came back from it, or it has a token and
    the condition is false, or the spot check of its token says so.
   */
  predicate IsSkipped(e: Env, reg: Registration, tokens: TokenMap)
  {
    || e.issuedChallenge == reg.name
    || (reg.name in tokens && reg.hasCondition && e.challengeCondition(reg) == IsFalse)
    || (reg.name in tokens && TokenFits(e, reg, tokens[reg.name]) && IsSpotChecked(e, reg)
        && SpotCheck(e, reg, tokens[reg.name]) == Check(ResultSkip, NoError))
  }

  /**
    The verdict on a challenge: how far its token was looked at, and whether it is passed, skipped,
    or was looked at and is not OK.
   */
  lemma VerdictIs(e: Env, c: CookieIn, reg: Registration)
    requires WellRegistered(e.server.challenges) && reg in e.server.challenges
    ensures var s, m := Started(e, c), LoadedTokens(e, c);
      var fits, stands := reg.name in m && TokenFits(e, reg, m[reg.name]), reg.name in m && TokenStands(e, reg, m[reg.name]);
      && (StateOf(s, reg.id) == StateNone <==> !fits)
      && (StateOf(s, reg.id) == StateFull <==> fits && IsSpotChecked(e, reg))
      && (StateOf(s, reg.id) == StateBrief <==> fits && !IsSpotChecked(e, reg))
      && (ResultOf(s, reg.id) == ResultOK <==> stands)
      && (ResultOf(s, reg.id) == ResultSkip <==> !stands && IsSkipped(e, reg, m))
      && (!IsSkipped(e, reg, m) && fits && !IsSpotChecked(e, reg) && !m[reg.name].ok ==> ResultOf(s, reg.id) == ResultNotOK)
      && (!IsSkipped(e, reg, m) && !fits ==> ResultOf(s, reg.id) == ResultFail)
  {
    StartedPoint(e, c, reg);
  }

  /** A token stays in the cookie when it fits and no spot check failed, or when it does not match and the condition is false. */
  lemma TokenIsKeptIff(e: Env, c: CookieIn, reg: Registration)
    requires WellRegistered(e.server.challenges) && reg in e.server.challenges && reg.name in LoadedTokens(e, c)
    ensures var token := LoadedTokens(e, c)[reg.name];
      reg.name in Started(e, c).tokens <==>
        if TokenFits(e, reg, token) then
          !IsSpotChecked(e, reg) ||
          (SpotCheck(e, reg, token).error == NoError && SpotCheck(e, reg, token).result in {ResultOK, ResultNotOK})
        else
          e.now <= FromUnix(token.expiry) && FromUnix(token.notBefore) <= e.now &&
          reg.hasCondition && e.challengeCondition(reg) == IsFalse
  {
    StartedPoint(e, c, reg);
  }

  /**
    A condition that is false keeps a challenge from being executed only when a token for it is
    present or the client just came back from it: without a token the condition is not looked at.
   */
  lemma FalseConditionSettlesIff(e: Env, c: CookieIn, reg: Registration)
    requires WellRegistered(e.server.challenges) && reg in e.server.challenges
    requires reg.hasCondition && e.challengeCondition(reg) == IsFalse
    ensures Settled(Started(e, c), reg.id) <==> reg.name in LoadedTokens(e, c) || e.issuedChallenge == reg.name
  {
    StartedPoint(e, c, reg);
  }

  /** So a first request is given the challenge although its condition says that it must not be. */
  lemma FalseConditionIsStillIssued(e: Env, reg: Registration, h: Handler)
    requires WellRegistered(e.server.challenges) && reg in e.server.challenges
    requires reg.hasCondition && e.challengeCondition(reg) == IsFalse && e.issuedChallenge != reg.name
    requires h.Challenge? && h.regs == [reg] && h.fail == Deny && e.issue(reg, Started(e, NoCookie)).result == ResultNone
    ensures Handle(h, e, Started(e, NoCookie)).s.issued == [reg.id]
  {
    FalseConditionSettlesIff(e, NoCookie, reg);
    StartedPoint(e, NoCookie, reg);
    EvaluateEachFrame(e, e.server.challenges, Loaded(e, NoCookie));
    var s := Started(e, NoCookie);
    var t := IssueOne(e, reg, s);
    assert !HasValid(h.regs, s) && h.regs[0] == reg;
    assert ResultOf(t, reg.id) == ResultNone && t.issued == [reg.id];
    assert IssueFrom(h, 1, e, t) == Handle(Deny, e, t);
    assert IssueFrom(h, 0, e, s).s.issued == t.issued;
  }

  /** A token bound to another key is dropped, except when the challenge's condition is false. */
  lemma MismatchedTokenIsKeptIff(e: Env, reg: Registration, s: Snap)
    requires reg.name in s.tokens && VerifyChallengeToken(e, reg, s.tokens[reg.name]).error == KeyMismatch
    ensures reg.name in EvaluateOne(e, reg, s).tokens <==> reg.hasCondition && e.challengeCondition(reg) == IsFalse
  {
  }

  // ------------------------------------------------------------------- the ledger

  predicate Distinct(ids: seq<Id>)
  {
    forall i, j :: 0 <= i < j < |ids| ==> ids[i] != ids[j]
  }

  ghost predicate Wrote(given: seq<Given>, name: Text, token: Token)
  {
    exists k :: 0 <= k < |given| && given[k].reg.name == name && given[k].token == token
  }

  /** Every token of m was already in base or was given; nothing of base is missing. */
  ghost predicate TokensFrom(base: TokenMap, given: seq<Given>, m: TokenMap)
  {
    && (forall name :: name in base ==> name in m)
    && (forall name :: name in m ==> (name in base && m[name] == base[name]) || Wrote(given, name, m[name]))
  }

  /** A given token is bound to this request, with the headers it had by then, and expires with its key. */
  predicate WellGiven(e: Env, g: Given)
  {
    && g.reg in e.server.challenges
    && g.token.key == e.KeyWith(g.reg, Rewritten(e.client.headers, g.rewrites))
    && g.token.expiry == Unix(e.KeyExpiry(g.reg)) && g.token.notBefore == 0
  }

  /** The tokens of t, and those of a cookie sent on the way, come from the start of the request or were given in it. */
  ghost predicate Booked(e: Env, s0: Snap, t: Snap)
  {
    && t.headers == Rewritten(e.client.headers, t.rewrites)
    && (forall k :: 0 <= k < |t.given| ==> WellGiven(e, t.given[k]) && t.given[k].rewrites <= t.rewrites)
    && TokensFrom(s0.tokens, t.given, t.tokens)
    && (t.setCookie.Some? ==>
          && TokensFrom(s0.tokens, t.given, t.setCookie.value.tokens)
          && t.setCookie.value.expiry == Unix(Expiration(e.time, DEFAULT_DURATION))
          && t.setCookie.value.notBefore == Unix(e.now - DAY))
  }

  /** The token is what executing the challenge in some state of the request stored. */
  ghost predicate WasIssued(e: Env, g: Given)
  {
    exists s: Snap :: e.issue(g.reg, s).token == Some(TokenWrite(g.token.result, g.token.ok))
  }

  /** Each challenge was issued at most once, none that was settled, and only issued ones changed. */
  ghost predicate IssuedOnce(e: Env, s0: Snap, t: Snap)
  {
    && Distinct(t.issued)
    && (forall k :: 0 <= k < |t.issued| ==> !Settled(s0, t.issued[k]) && StateOf(t, t.issued[k]) == StatePass)
    && (forall id :: id !in t.issued ==> ResultOf(t, id) == ResultOf(s0, id) && StateOf(t, id) == StateOf(s0, id))
    && (forall id :: id in t.issued ==> exists k :: 0 <= k < |e.server.challenges| && e.server.challenges[k].id == id)
    && (forall k :: 0 <= k < |t.given| ==> t.given[k].reg.id in t.issued && WasIssued(e, t.given[k]))
  }

  ghost predicate Reached(e: Env, s0: Snap, t: Snap)
  {
    Booked(e, s0, t) && IssuedOnce(e, s0, t)
  }

  lemma GiveTokenBooked(e: Env, reg: Registration, w: TokenWrite, s0: Snap, s: Snap)
    requires Booked(e, s0, s) && reg in e.server.challenges
    ensures Booked(e, s0, GiveToken(e, reg, w, s))
  {
    var t := GiveToken(e, reg, w, s);
    forall name, token | Wrote(s.given, name, token) ensures Wrote(t.given, name, token) {
      var k :| 0 <= k < |s.given| && s.given[k].reg.name == name && s.given[k].token == token;
      assert t.given[k] == s.given[k];
    }
    assert t.given[|s.given|].reg == reg;
    assert Wrote(t.given, reg.name, t.tokens[reg.name]);
  }

  /** Responses and options are not part of the books. */
  lemma SameBooks(e: Env, s0: Snap, s: Snap, t: Snap)
    requires Booked(e, s0, s)
    requires t.verify == s.verify && t.state == s.state && t.tokens == s.tokens && t.setCookie == s.setCookie
    requires t.issued == s.issued && t.given == s.given && t.headers == s.headers && t.rewrites == s.rewrites
    ensures Booked(e, s0, t) && (IssuedOnce(e, s0, s) ==> IssuedOnce(e, s0, t))
  {
  }

  lemma {:induction false} RewrittenConcat(headers: Headers, a: seq<Rewrite>, b: seq<Rewrite>)
    ensures Rewritten(headers, a + b) == Rewritten(Rewritten(headers, a), b)
    decreases |a|
  {
    if a == [] {
      assert a + b == b;
    } else {
      assert (a + b)[0] == a[0] && (a + b)[1..] == a[1..] + b;
      RewrittenConcat(headers[a[0].0 := a[0].1], a[1..], b);
    }
  }

  lemma ContextBooked(e: Env, s0: Snap, s: Snap, settings: map<Text, Text>, requestHeaders: seq<Rewrite>)
    requires Reached(e, s0, s)
    ensures Reached(e, s0, SetContext(s, settings, requestHeaders))
  {
    RewrittenConcat(e.client.headers, s.rewrites, requestHeaders);
  }

  lemma EmitBooked(e: Env, s0: Snap, s: Snap)
    requires Booked(e, s0, s)
    ensures Booked(e, s0, EmitHeaders(e, s)) && (IssuedOnce(e, s0, s) ==> IssuedOnce(e, s0, EmitHeaders(e, s)))
  {
  }

  lemma RespondBooked(e: Env, s0: Snap, s: Snap, r: Response)
    requires Booked(e, s0, s)
    ensures Booked(e, s0, Write(s, r)) && (IssuedOnce(e, s0, s) ==> IssuedOnce(e, s0, Write(s, r)))
    ensures Booked(e, s0, Respond(e, s, r)) && (IssuedOnce(e, s0, s) ==> IssuedOnce(e, s0, Respond(e, s, r)))
  {
    SameBooks(e, s0, s, Write(s, r));
    EmitBooked(e, s0, s);
    SameBooks(e, s0, EmitHeaders(e, s), Respond(e, s, r));
  }

  lemma DoneBooked(e: Env, s0: Snap, s: Snap, t: Snap)
    requires Reached(e, s0, s)
    requires t == EmitHeaders(e, s).(responses := t.responses)
    ensures Reached(e, s0, t)
  {
    EmitBooked(e, s0, s);
    SameBooks(e, s0, EmitHeaders(e, s), t);
  }

  lemma ExecutedBooked(e: Env, reg: Registration, s0: Snap, s: Snap)
    requires Booked(e, s0, s) && reg in e.server.challenges
    ensures Booked(e, s0, Executed(e, reg, s))
    ensures var t := Executed(e, reg, s);
      && t.verify == s.verify && t.state == s.state && t.issued == s.issued
      && s.given <= t.given && forall k :: |s.given| <= k < |t.given| ==> t.given[k].reg == reg && WasIssued(e, t.given[k])
  {
    var i := e.issue(reg, s);
    if i.token.Some? {
      GiveTokenBooked(e, reg, i.token.value, s0, s);
    }
    RespondBooked(e, s0, if i.token.Some? then GiveToken(e, reg, i.token.value, s) else s, ChallengePage(reg.id));
  }

  lemma RecordedOnce(e: Env, reg: Registration, s0: Snap, s: Snap, t: Snap, result: VerifyResult)
    requires IssuedOnce(e, s0, s) && reg in e.server.challenges && !Settled(s, reg.id)
    requires t.verify == s.verify && t.state == s.state && t.issued == s.issued
    requires s.given <= t.given && forall k :: |s.given| <= k < |t.given| ==> t.given[k].reg == reg && WasIssued(e, t.given[k])
    ensures IssuedOnce(e, s0, t.(verify := t.verify[reg.id := result], state := t.state[reg.id := StatePass],
                                 issued := t.issued + [reg.id]))
  {
    var u := t.(verify := t.verify[reg.id := result], state := t.state[reg.id := StatePass],
                issued := t.issued + [reg.id]);
    assert reg.id !in s.issued;
    forall k | 0 <= k < |u.issued| ensures !Settled(s0, u.issued[k]) && StateOf(u, u.issued[k]) == StatePass {
      if k < |s.issued| {
        assert u.issued[k] == s.issued[k];
      }
    }
    forall k | 0 <= k < |u.given| ensures u.given[k].reg.id in u.issued && WasIssued(e, u.given[k]) {
      if k < |s.given| {
        assert u.given[k] == s.given[k];
      }
    }
  }

  lemma IssueOneReached(e: Env, reg: Registration, s0: Snap, s: Snap)
    requires Reached(e, s0, s) && reg in e.server.challenges && !Settled(s, reg.id)
    ensures Reached(e, s0, IssueOne(e, reg, s))
  {
    var t := Executed(e, reg, s);
    ExecutedBooked(e, reg, s0, s);
    RecordedOnce(e, reg, s0, s, t, e.issue(reg, s).result);
  }

  /** Serving a backend emits the headers and writes responses. */
  lemma DoneEmits(e: Env, s: Snap)
    ensures Done(e, s) == EmitHeaders(e, s).(responses := Done(e, s).responses)
    ensures PassOn(e, s) == EmitHeaders(e, s).(responses := PassOn(e, s).responses)
  {
  }

  lemma ServeReached(h: Handler, e: Env, s0: Snap, s: Snap)
    requires Reached(e, s0, s) && (h.Pass? || h.Proxy?)
    ensures Reached(e, s0, Handle(h, e, s).s)
  {
    DoneEmits(e, s);
    if h.Pass? {
      DoneBooked(e, s0, s, PassOn(e, s));
    } else if e.hasBackend(h.backend) {
      DoneBooked(e, s0, s, Write(Done(e, s), Backend(h.backend)));
    } else {
      assert Handle(h, e, s).s == s;
    }
  }

  lemma LeafReached(h: Handler, e: Env, s0: Snap, s: Snap)
    requires Reached(e, s0, s) && !h.Challenge?
    ensures Reached(e, s0, Handle(h, e, s).s)
  {
    if h.Pass? || h.Proxy? {
      ServeReached(h, e, s0, s);
    } else if h.Context? {
      ContextBooked(e, s0, s, h.settings, h.requestHeaders);
    } else if !h.NoAction? {
      var answer := match h
        case Deny => ErrorPage(403)
        case Block => Blocked
        case Code(code) => Coded(code)
        case _ => Dropped;
      RespondBooked(e, s0, s, answer);
      assert Handle(h, e, s).s == if h.Drop? then Write(s, answer) else Respond(e, s, answer);
    }
  }

  lemma {:induction false} HandleReached(h: Handler, e: Env, s0: Snap, s: Snap)
    requires Reached(e, s0, s) && UsesOnly(h, e.server.challenges)
    ensures Reached(e, s0, Handle(h, e, s).s)
    decreases h, 2, 0
  {
    if !h.Challenge? {
      LeafReached(h, e, s0, s);
    } else if !HasValid(h.regs, s) {
      IssueReached(h, 0, e, s0, s);
    } else if e.cleansQuery {
      RespondBooked(e, s0, s, Redirected);
    } else if !h.cont {
      HandleReached(h.pass, e, s0, s);
    }
  }

  lemma {:induction false} DecideReached(h: Handler, reg: Registration, e: Env, s0: Snap, t: Snap)
    requires h.Challenge? && Reached(e, s0, t) && UsesOnly(h, e.server.challenges)
    ensures Decide(h, reg, e, t).Some? ==> Reached(e, s0, Decide(h, reg, e, t).value.s)
    decreases h, 0, 0
  {
    HandleReached(h.pass, e, s0, t);
    HandleReached(h.fail, e, s0, t);
  }

  lemma {:induction false} IssueReached(h: Handler, i: nat, e: Env, s0: Snap, s: Snap)
    requires h.Challenge? && i <= |h.regs| && Reached(e, s0, s) && UsesOnly(h, e.server.challenges)
    ensures Reached(e, s0, IssueFrom(h, i, e, s).s)
    decreases h, 1, |h.regs| - i
  {
    if i == |h.regs| {
      HandleReached(h.fail, e, s0, s);
    } else if Settled(s, h.regs[i].id) {
      IssueReached(h, i + 1, e, s0, s);
    } else {
      var reg := h.regs[i];
      var t := IssueOne(e, reg, s);
      IssueOneReached(e, reg, s0, s);
      DecideReached(h, reg, e, s0, t);
      if Decide(h, reg, e, t).None? {
        IssueReached(h, i + 1, e, s0, t);
      }
    }
  }

  lemma {:induction false} EvaluateReached(rule: Rule, e: Env, s0: Snap, s: Snap)
    requires Reached(e, s0, s) && RuleUsesOnly(rule, e.server.challenges)
    ensures Reached(e, s0, Evaluate(rule, e, s).s)
    decreases rule, 1
  {
    if RuleOutcome(e, rule, s) == IsTrue {
      HandleReached(rule.handler, e, s0, s);
      EvaluateSeqReached(rule.children, e, s0, Handle(rule.handler, e, s).s);
    }
  }

  lemma {:induction false} EvaluateSeqReached(rules: seq<Rule>, e: Env, s0: Snap, s: Snap)
    requires Reached(e, s0, s) && RulesUseOnly(rules, e.server.challenges)
    ensures Reached(e, s0, EvaluateSeq(rules, e, s).s)
    decreases rules, 0
  {
    if rules != [] {
      EvaluateReached(rules[0], e, s0, s);
      EvaluateSeqReached(rules[1..], e, s0, Evaluate(rules[0], e, s).s);
    }
  }

  /** Over a whole request each challenge is issued at most once, and never one that was passed or skipped before. */
  lemma RequestReached(rules: seq<Rule>, e: Env, c: CookieIn)
    requires RulesUseOnly(rules, e.server.challenges)
    ensures Reached(e, Started(e, c), HandleRequest(rules, e, Started(e, c)).s)
  {
    var s := Started(e, c);
    StartIsReached(e, c);
    EvaluateSeqReached(rules, e, s, s);
    var r := EvaluateSeq(rules, e, s);
    HandleReached(Pass, e, s, r.s);
    RespondBooked(e, s, r.s, ErrorPage(500));
    RespondBooked(e, s, s, Unavailable);
  }

  lemma StartIsReached(e: Env, c: CookieIn)
    ensures Reached(e, Started(e, c), Started(e, c))
  {
    EvaluateEachFrame(e, e.server.challenges, Loaded(e, c));
  }

  /** A client that comes back from a challenge without having met it is not given it again. */
  lemma NoChallengeLoop(rules: seq<Rule>, e: Env, c: CookieIn, reg: Registration)
    requires RulesUseOnly(rules, e.server.challenges) && WellRegistered(e.server.challenges)
    requires reg in e.server.challenges && e.issuedChallenge == reg.name
    ensures reg.id !in HandleRequest(rules, e, Started(e, c)).s.issued
  {
    RequestReached(rules, e, c);
    StartedPoint(e, c, reg);
    assert Settled(Started(e, c), reg.id);
  }

  /** Stamping the headers for a backend cannot panic: every passed challenge is known and has a state. */
  lemma StampsNeverPanic(e: Env, c: CookieIn, t: Snap, id: Id)
    requires WellRegistered(e.server.challenges) && Reached(e, Started(e, c), t)
    requires ResultOf(t, id).Ok()
    ensures Stampable(e, t, id)
  {
    if id in t.issued {
      var k :| 0 <= k < |t.issued| && t.issued[k] == id;
    } else {
      StartedIsStampable(e, c, id);
    }
  }

  /** The check of a token leaves a state exactly when the token fits. */
  lemma StateIffFits(e: Env, reg: Registration, tokens: TokenMap)
    ensures VerifyChallenge(e, reg, tokens).verdict.state != StateNone <==>
            reg.name in tokens && TokenFits(e, reg, tokens[reg.name])
  {
  }

  /** What the verify endpoint records of a pass. */
  lemma VerifiedIsRecorded(e: Env, reg: Registration, token: Text, s: Snap)
    requires s.headers == e.client.headers
    requires e.verify(reg, e.KeyFor(reg), token) == Check(ResultOK, NoError)
    ensures var t := HandleVerify(reg, Some(token), e, s);
      t.verify == s.verify[reg.id := ResultOK] && t.state == s.state
  {
  }

  /**
    The verify endpoint records a pass without a state of its own: it could be stamped exactly when
    the cookie of the request already had a fitting token of the challenge, passed or not.
   */
  lemma VerifiedPassIsStampableIff(e: Env, c: CookieIn, reg: Registration, token: Text)
    requires WellRegistered(e.server.challenges) && reg in e.server.challenges
    requires e.verify(reg, e.KeyFor(reg), token) == Check(ResultOK, NoError)
    ensures var t := HandleVerify(reg, Some(token), e, Started(e, c));
      && ResultOf(t, reg.id).Ok()
      && (Stampable(e, t, reg.id) <==> reg.name in LoadedTokens(e, c) && TokenFits(e, reg, LoadedTokens(e, c)[reg.name]))
  {
    StartedPoint(e, c, reg);
    EvaluateEachFrame(e, e.server.challenges, Loaded(e, c));
    VerifiedIsRecorded(e, reg, token, Started(e, c));
    StateIffFits(e, reg, LoadedTokens(e, c));
  }

  /** The verification of what the client sent to the verify endpoint returned OK without an error. */
  predicate VerifiedOK(reg: Registration, token: Option<Text>, e: Env, s: Snap)
  {
    token.Some? && e.verify(reg, e.KeyWith(reg, s.headers), token.value) == Check(ResultOK, NoError)
  }

  lemma VerifyGives(reg: Registration, token: Text, e: Env, s: Snap)
    requires VerifiedOK(reg, Some(token), e, s)
    ensures var t, made := HandleVerify(reg, Some(token), e, s),
                           Token(e.KeyWith(reg, s.headers), token, true, Unix(e.KeyExpiry(reg)), 0);
      t.given == s.given + [Given(reg, made, s.rewrites)] && t.tokens == s.tokens[reg.name := made]
  {
  }

  lemma RespondGivesNothing(e: Env, s: Snap, r: Response)
    ensures Respond(e, s, r).given == s.given && Respond(e, s, r).tokens == s.tokens
  {
  }

  /** Without a verification that returned OK the endpoint only answers. */
  lemma RefusalIs(reg: Registration, token: Option<Text>, e: Env, s: Snap) returns (answer: Response)
    requires !VerifiedOK(reg, token, e, s)
    ensures HandleVerify(reg, token, e, s) == Respond(e, s, answer)
  {
    answer := ErrorPage(400);
    if token.Some? {
      var check := e.verify(reg, e.KeyWith(reg, s.headers), token.value);
      answer := if check.error == HappyEyeballs then Redirected
                else if check.error == Problem then ErrorPage(400) else ErrorPage(403);
    }
  }

  lemma VerifyRefuses(reg: Registration, token: Option<Text>, e: Env, s: Snap)
    requires !VerifiedOK(reg, token, e, s)
    ensures HandleVerify(reg, token, e, s).given == s.given && HandleVerify(reg, token, e, s).tokens == s.tokens
  {
    var answer := RefusalIs(reg, token, e, s);
    RespondGivesNothing(e, s, answer);
  }

  /** The verify endpoint gives a token exactly when the verification returned OK without an error. */
  lemma VerifyGivesIff(reg: Registration, token: Option<Text>, e: Env, s: Snap)
    ensures HandleVerify(reg, token, e, s).given != s.given <==>
      token.Some? && e.verify(reg, e.KeyWith(reg, s.headers), token.value) == Check(ResultOK, NoError)
  {
    if VerifiedOK(reg, token, e, s) {
      VerifyGives(reg, token.value, e, s);
      assert |HandleVerify(reg, token, e, s).given| == |s.given| + 1;
    } else {
      VerifyRefuses(reg, token, e, s);
    }
  }

  /** What the client is told: to go on only when it passed or is to try again, with the status of its failure otherwise. */
  lemma VerifyAnswers(reg: Registration, token: Option<Text>, e: Env, s: Snap)
    ensures HandleVerify(reg, token, e, s).responses == s.responses + [
      if token.None? || e.verify(reg, e.KeyWith(reg, s.headers), token.value).error == Problem then ErrorPage(400)
      else if e.verify(reg, e.KeyWith(reg, s.headers), token.value).error == HappyEyeballs then Redirected
      else if e.verify(reg, e.KeyWith(reg, s.headers), token.value).result != ResultOK then ErrorPage(403)
      else Redirected]
  {
    if token.Some? {
      CheckedAnswers(reg, token.value, e.verify(reg, e.KeyWith(reg, s.headers), token.value), e, s);
    }
  }

  lemma CheckedAnswers(reg: Registration, token: Text, check: Check, e: Env, s: Snap)
    requires check == e.verify(reg, e.KeyWith(reg, s.headers), token)
    ensures check.error == Problem ==> HandleVerify(reg, Some(token), e, s).responses == s.responses + [ErrorPage(400)]
    ensures check.error == HappyEyeballs ==> HandleVerify(reg, Some(token), e, s).responses == s.responses + [Redirected]
    ensures check.error == NoError && check.result != ResultOK ==>
      HandleVerify(reg, Some(token), e, s).responses == s.responses + [ErrorPage(403)]
    ensures check == Check(ResultOK, NoError) ==> HandleVerify(reg, Some(token), e, s).responses == s.responses + [Redirected]
  {
  }

  /** What the verify endpoint gives is a passed token for the challenge it serves. */
  lemma VerifyBooked(reg: Registration, token: Option<Text>, e: Env, s: Snap)
    requires reg in e.server.challenges && Booked(e, s, s) && s.given == [] && s.rewrites == []
    ensures Booked(e, s, HandleVerify(reg, token, e, s))
    ensures forall g :: g in HandleVerify(reg, token, e, s).given ==>
      g.reg == reg && g.token.ok && g.rewrites == [] && token == Some(g.token.result)
  {
    if VerifiedOK(reg, token, e, s) {
      VerifiedBooked(reg, token.value, ResultOK, e, s);
    } else {
      var answer := RefusalIs(reg, token, e, s);
      RespondBooked(e, s, s, answer);
      RespondGivesNothing(e, s, answer);
    }
  }

  lemma VerifiedBooked(reg: Registration, token: Text, result: VerifyResult, e: Env, s: Snap)
    requires reg in e.server.challenges && Booked(e, s, s) && s.given == [] && s.rewrites == []
    ensures var t := GiveToken(e, reg, TokenWrite(token, true), s);
      var u := Respond(e, t.(verify := t.verify[reg.id := result]), Redirected);
      Booked(e, s, u) && forall g :: g in u.given ==>
        g.reg == reg && g.token.ok && g.rewrites == [] && g.token.result == token
  {
    var t := GiveToken(e, reg, TokenWrite(token, true), s);
    GiveTokenBooked(e, reg, TokenWrite(token, true), s, s);
    var u := t.(verify := t.verify[reg.id := result]);
    assert Booked(e, s, u);
    RespondBooked(e, s, u, Redirected);
  }

  /** The stamp of a passed challenge tells how it was passed: in this request, by a spot check, or by what its token records. */
  lemma StampTellsHow(e: Env, c: CookieIn, t: Snap, reg: Registration)
    requires WellRegistered(e.server.challenges) && reg in e.server.challenges && Reached(e, Started(e, c), t)
    requires ResultOf(t, reg.id).Ok()
    ensures StateOf(t, reg.id).Header() ==
      Some(if reg.id in t.issued then "PASS" else if IsSpotChecked(e, reg) then "FULL" else "BRIEF")
  {
    VerdictIs(e, c, reg);
    if reg.id in t.issued {
      var k :| 0 <= k < |t.issued| && t.issued[k] == reg.id;
    }
  }
}
