/**
  What rules can reach and set: the backends a request can be served by, and the headers that
  CONTEXT actions (lib/action/context.go) put in the place of the client's own.
 */
module Contexts {
  import opened Types
  import opened Wrappers
  import opened Arithmetic
  import opened Expiry
  import opened Keys
  import opened Protocol
  import Answers
  import opened Ledger

  // ------------------------------------------------------------- limits of rule trees

  /** A handler proxies only to these hosts and sets only these request headers, at every depth. */
  predicate Within(h: Handler, hosts: set<Text>, names: set<Text>)
  {
    match h
    case Proxy(backend) => backend in hosts
    case Context(_, requestHeaders) => forall i :: 0 <= i < |requestHeaders| ==> requestHeaders[i].0 in names
    case Challenge(_, _, pass, fail) => Within(pass, hosts, names) && Within(fail, hosts, names)
    case _ => true
  }

  predicate RuleWithin(rule: Rule, hosts: set<Text>, names: set<Text>)
    decreases rule, 1
  {
    Within(rule.handler, hosts, names) && RulesWithin(rule.children, hosts, names)
  }

  predicate RulesWithin(rules: seq<Rule>, hosts: set<Text>, names: set<Text>)
    decreases rules, 0
  {
    rules != [] ==> RuleWithin(rules[0], hosts, names) && RulesWithin(rules[1..], hosts, names)
  }

  /** Only these hosts were newly reached. */
  ghost predicate NewHosts(s: seq<Response>, t: seq<Response>, hosts: set<Text>)
  {
    s <= t && forall k :: |s| <= k < |t| && t[k].Backend? ==> t[k].host in hosts
  }

  /** Only these headers were newly set. */
  ghost predicate NewNames(s: seq<Rewrite>, t: seq<Rewrite>, names: set<Text>)
  {
    s <= t && forall k :: |s| <= k < |t| ==> t[k].0 in names
  }

  ghost predicate Limited(s: Snap, t: Snap, hosts: set<Text>, names: set<Text>)
  {
    NewHosts(s.responses, t.responses, hosts) && NewNames(s.rewrites, t.rewrites, names)
  }

  lemma LimitedCompose(s: Snap, t: Snap, u: Snap, hosts: set<Text>, names: set<Text>)
    requires Limited(s, t, hosts, names) && Limited(t, u, hosts, names)
    ensures Limited(s, u, hosts, names)
  {
  }

  lemma LeafLimited(h: Handler, e: Env, s: Snap, hosts: set<Text>, names: set<Text>)
    requires !h.Challenge? && Within(h, hosts, names) && e.host in hosts
    ensures Limited(s, Handle(h, e, s).s, hosts, names)
  {
  }

  lemma IssueOneLimited(reg: Registration, e: Env, s: Snap, hosts: set<Text>, names: set<Text>)
    ensures Limited(s, IssueOne(e, reg, s), hosts, names)
  {
    Answers.ExecutedWrites(e, reg, s);
    ExecutedKeepsRewrites(reg, e, s);
    PageIsLimited(reg.id, s, IssueOne(e, reg, s), hosts, names);
  }

  lemma ExecutedKeepsRewrites(reg: Registration, e: Env, s: Snap)
    ensures Executed(e, reg, s).rewrites == s.rewrites
  {
  }

  lemma PageIsLimited(id: Id, s: Snap, t: Snap, hosts: set<Text>, names: set<Text>)
    requires t.rewrites == s.rewrites
    requires t.responses == s.responses || t.responses == s.responses + [ChallengePage(id)]
    ensures Limited(s, t, hosts, names)
  {
  }

  lemma {:induction false} HandleLimited(h: Handler, e: Env, s: Snap, hosts: set<Text>, names: set<Text>)
    requires Within(h, hosts, names) && e.host in hosts
    ensures Limited(s, Handle(h, e, s).s, hosts, names)
    decreases h, 2, 0
  {
    if !h.Challenge? {
      LeafLimited(h, e, s, hosts, names);
    } else if !HasValid(h.regs, s) {
      IssueLimited(h, 0, e, s, hosts, names);
    } else if !e.cleansQuery && !h.cont {
      HandleLimited(h.pass, e, s, hosts, names);
    }
  }

  lemma {:induction false} DecideLimited(h: Handler, reg: Registration, e: Env, t: Snap, hosts: set<Text>, names: set<Text>)
    requires h.Challenge? && Within(h, hosts, names) && e.host in hosts
    ensures Decide(h, reg, e, t).Some? ==> Limited(t, Decide(h, reg, e, t).value.s, hosts, names)
    decreases h, 0, 0
  {
    HandleLimited(h.pass, e, t, hosts, names);
    HandleLimited(h.fail, e, t, hosts, names);
  }

  lemma {:induction false} IssueLimited(h: Handler, i: nat, e: Env, s: Snap, hosts: set<Text>, names: set<Text>)
    requires h.Challenge? && i <= |h.regs| && Within(h, hosts, names) && e.host in hosts
    ensures Limited(s, IssueFrom(h, i, e, s).s, hosts, names)
    decreases h, 1, |h.regs| - i
  {
    if i == |h.regs| {
      HandleLimited(h.fail, e, s, hosts, names);
    } else if Settled(s, h.regs[i].id) {
      IssueLimited(h, i + 1, e, s, hosts, names);
    } else {
      var reg := h.regs[i];
      var t := IssueOne(e, reg, s);
      IssueOneLimited(reg, e, s, hosts, names);
      DecideLimited(h, reg, e, t, hosts, names);
      if Decide(h, reg, e, t).None? {
        IssueLimited(h, i + 1, e, t, hosts, names);
      }
      LimitedCompose(s, t, IssueFrom(h, i, e, s).s, hosts, names);
    }
  }

  lemma {:induction false} EvaluateLimited(rule: Rule, e: Env, s: Snap, hosts: set<Text>, names: set<Text>)
    requires RuleWithin(rule, hosts, names) && e.host in hosts
    ensures Limited(s, Evaluate(rule, e, s).s, hosts, names)
    decreases rule, 1
  {
    if RuleOutcome(e, rule, s) == IsTrue {
      var t := Handle(rule.handler, e, s).s;
      HandleLimited(rule.handler, e, s, hosts, names);
      EvaluateSeqLimited(rule.children, e, t, hosts, names);
      LimitedCompose(s, t, EvaluateSeq(rule.children, e, t).s, hosts, names);
    }
  }

  lemma {:induction false} EvaluateSeqLimited(rules: seq<Rule>, e: Env, s: Snap, hosts: set<Text>, names: set<Text>)
    requires RulesWithin(rules, hosts, names) && e.host in hosts
    ensures Limited(s, EvaluateSeq(rules, e, s).s, hosts, names)
    decreases rules, 0
  {
    if rules != [] {
      var t := Evaluate(rules[0], e, s).s;
      EvaluateLimited(rules[0], e, s, hosts, names);
      EvaluateSeqLimited(rules[1..], e, t, hosts, names);
      LimitedCompose(s, t, EvaluateSeq(rules[1..], e, t).s, hosts, names);
    }
  }

  /**
    A request is served by the backend of its own host or by one that a PROXY action names: no
    setting of a CONTEXT action, not even that of another backend host, brings it anywhere else.
   */
  lemma OnlyNamedBackends(rules: seq<Rule>, e: Env, s: Snap, hosts: set<Text>, names: set<Text>)
    requires RulesWithin(rules, hosts, names)
    ensures Limited(s, HandleRequest(rules, e, s).s, hosts + {e.host}, names)
  {
    var t := EvaluateSeq(rules, e, s).s;
    WithinMore(rules, hosts, hosts + {e.host}, names);
    EvaluateSeqLimited(rules, e, s, hosts + {e.host}, names);
    HandleLimited(Pass, e, t, hosts + {e.host}, names);
    LimitedCompose(s, t, Handle(Pass, e, t).s, hosts + {e.host}, names);
  }

  lemma {:induction false} HandlerWithinMore(h: Handler, hosts: set<Text>, more: set<Text>, names: set<Text>)
    requires Within(h, hosts, names) && hosts <= more
    ensures Within(h, more, names)
  {
    if h.Challenge? {
      HandlerWithinMore(h.pass, hosts, more, names);
      HandlerWithinMore(h.fail, hosts, more, names);
    }
  }

  lemma {:induction false} RuleWithinMore(rule: Rule, hosts: set<Text>, more: set<Text>, names: set<Text>)
    requires RuleWithin(rule, hosts, names) && hosts <= more
    ensures RuleWithin(rule, more, names)
    decreases rule, 1
  {
    HandlerWithinMore(rule.handler, hosts, more, names);
    WithinMore(rule.children, hosts, more, names);
  }

  lemma {:induction false} WithinMore(rules: seq<Rule>, hosts: set<Text>, more: set<Text>, names: set<Text>)
    requires RulesWithin(rules, hosts, names) && hosts <= more
    ensures RulesWithin(rules, more, names)
    decreases rules, 0
  {
    if rules != [] {
      RuleWithinMore(rules[0], hosts, more, names);
      WithinMore(rules[1..], hosts, more, names);
    }
  }

  // ---------------------------------------------------------------- rewritten headers

  /** The values that the last setting of a header gave it. */
  function LastValues(rewrites: seq<Rewrite>, k: Text): Option<seq<Text>>
    decreases |rewrites|
  {
    if rewrites == [] then None
    else if rewrites[|rewrites| - 1].0 == k then Some(rewrites[|rewrites| - 1].1)
    else LastValues(rewrites[..|rewrites| - 1], k)
  }

  function WithHeaders(client: Client, rewrites: seq<Rewrite>): Client
  {
    client.(headers := Rewritten(client.headers, rewrites))
  }

  lemma {:induction false} RewrittenValues(client: Client, rewrites: seq<Rewrite>, k: Text)
    ensures HeaderValues(WithHeaders(client, rewrites), k) ==
      if LastValues(rewrites, k).Some? then LastValues(rewrites, k).value else HeaderValues(client, k)
    decreases |rewrites|
  {
    if rewrites != [] {
      var n := |rewrites| - 1;
      assert rewrites == rewrites[..n] + [rewrites[n]];
      var last := [rewrites[n]];
      RewrittenConcat(client.headers, rewrites[..n], last);
      assert Rewritten(Rewritten(client.headers, rewrites[..n]), last)
          == Rewritten(client.headers, rewrites[..n])[last[0].0 := last[0].1];
      RewrittenValues(client, rewrites[..n], k);
    }
  }

  /** The settings leave every header that a key of the challenge is bound to with the client's own values. */
  predicate LeavesBound(reg: Registration, client: Client, rewrites: seq<Rewrite>)
  {
    forall i :: 0 <= i < |reg.keyHeaders| && LastValues(rewrites, reg.keyHeaders[i]).Some? ==>
      LastValues(rewrites, reg.keyHeaders[i]).value == HeaderValues(client, reg.keyHeaders[i])
  }

  lemma LeavesBoundIff(reg: Registration, client: Client, rewrites: seq<Rewrite>)
    ensures LeavesBound(reg, client, rewrites) <==>
            BoundHeaders(reg.keyHeaders, WithHeaders(client, rewrites)) == BoundHeaders(reg.keyHeaders, client)
  {
    var a, b := BoundHeaders(reg.keyHeaders, WithHeaders(client, rewrites)), BoundHeaders(reg.keyHeaders, client);
    forall i | 0 <= i < |reg.keyHeaders|
      ensures a[i] == b[i] <==>
        (LastValues(rewrites, reg.keyHeaders[i]).Some? ==>
          LastValues(rewrites, reg.keyHeaders[i]).value == HeaderValues(client, reg.keyHeaders[i]))
    {
      RewrittenValues(client, rewrites, reg.keyHeaders[i]);
    }
  }

  lemma {:induction false} NoLastValues(rewrites: seq<Rewrite>, k: Text, names: set<Text>)
    requires k !in names && forall i :: 0 <= i < |rewrites| ==> rewrites[i].0 in names
    ensures LastValues(rewrites, k).None?
    decreases |rewrites|
  {
    if rewrites != [] {
      NoLastValues(rewrites[..|rewrites| - 1], k, names);
    }
  }

  // ------------------------------------------------------------- tokens given on the way

  /** Two hash inputs of the challenge at e, with and without the settings, that collide. */
  ghost predicate RewriteCollided(e: Env, reg: Registration, rewrites: seq<Rewrite>)
  {
    Collision(e.server.H,
              RequestPreimage(reg, WithHeaders(e.client, rewrites), Unix(e.KeyExpiry(reg)), e.server.fingerprint),
              RequestPreimage(reg, e.client, Unix(e.KeyExpiry(reg)), e.server.fingerprint))
  }

  /**
    The key of a challenge under header settings is that of the request as it came exactly when they
    leave the bound headers with the client's own values, unless the hash collides.
   */
  lemma KeyUnderRewritesIff(e: Env, reg: Registration, rewrites: seq<Rewrite>)
    requires CleanRequest(reg, e.client, Unix(e.KeyExpiry(reg)))
    requires CleanRequest(reg, WithHeaders(e.client, rewrites), Unix(e.KeyExpiry(reg)))
    ensures RewriteCollided(e, reg, rewrites) ||
      (e.KeyWith(reg, Rewritten(e.client.headers, rewrites)) == e.KeyFor(reg) <==> LeavesBound(reg, e.client, rewrites))
  {
    LeavesBoundIff(reg, e.client, rewrites);
    assert e.client.(headers := e.client.headers) == e.client;
    if e.KeyWith(reg, Rewritten(e.client.headers, rewrites)) == e.KeyFor(reg) {
      KeyBinds(e.server.H, e.server.fingerprint, reg, WithHeaders(e.client, rewrites), Unix(e.KeyExpiry(reg)),
               e.server.fingerprint, reg, e.client, Unix(e.KeyExpiry(reg)));
    }
  }

  /** The next request of the same client: same network, bound headers and window, no spot check. */
  ghost predicate NextOf(f: Env, e: Env, reg: Registration)
  {
    && f.server == e.server && !f.spotCheck(reg) && SameClient(f.client, e.client, reg)
    && FromUnix(0) <= f.now && reg.duration > 0 && TokenSafe(reg.duration)
    && SameWindow(f.time, e.time, reg.duration) && SameWindow(e.time, f.now, reg.duration)
  }

  /**
    A token given in the middle of a request stands at the next request of the same client exactly
    when it was given as passed and the CONTEXT actions executed by then had left every bound header
    with the client's own values (unless the hash collides).
   */
  lemma GivenStandsIff(e: Env, f: Env, g: Given)
    requires WellGiven(e, g) && NextOf(f, e, g.reg)
    requires CleanRequest(g.reg, e.client, Unix(e.KeyExpiry(g.reg)))
    requires CleanRequest(g.reg, WithHeaders(e.client, g.rewrites), Unix(e.KeyExpiry(g.reg)))
    ensures RewriteCollided(e, g.reg, g.rewrites) ||
      (TokenStands(f, g.reg, g.token) <==> g.token.ok && LeavesBound(g.reg, e.client, g.rewrites))
  {
    KeyUnderRewritesIff(e, g.reg, g.rewrites);
    SameKeyInWindow(e, f, g.reg);
    TokenOutlivesExactly(g.reg.duration, if e.time < f.now then e.time else f.now);
    assert !TokenLost(e.time, f.now, g.reg.duration);
  }

  /** Inside one window the key and the expiry of a challenge do not depend on the request. */
  lemma SameKeyInWindow(e: Env, f: Env, reg: Registration)
    requires reg.duration > 0 && SameWindow(f.time, e.time, reg.duration)
    requires e.server == f.server && SameClient(f.client, e.client, reg)
    ensures e.KeyExpiry(reg) == f.KeyExpiry(reg) && e.KeyFor(reg) == f.KeyFor(reg)
  {
    SameExpirationIffSameWindow(f.time, e.time, reg.duration);
    SameClientSameKey(e.server.H, e.server.fingerprint, reg, f.client, e.client, Unix(e.KeyExpiry(reg)));
    assert e.client.(headers := e.client.headers) == e.client && f.client.(headers := f.client.headers) == f.client;
  }

  /** Where no CONTEXT action sets a header the challenge is bound to, its tokens have the key of the request as it came. */
  lemma OwnHeadersKeepTokens(rules: seq<Rule>, e: Env, c: CookieIn, hosts: set<Text>, names: set<Text>, i: nat)
    requires RulesUseOnly(rules, e.server.challenges) && RulesWithin(rules, hosts, names)
    requires var t := HandleRequest(rules, e, Started(e, c)).s;
      i < |t.given| && forall k :: k in t.given[i].reg.keyHeaders ==> k !in names
    ensures var g := HandleRequest(rules, e, Started(e, c)).s.given[i];
      LeavesBound(g.reg, e.client, g.rewrites) && g.token.key == e.KeyFor(g.reg)
  {
    var s, t := Started(e, c), HandleRequest(rules, e, Started(e, c)).s;
    var g := t.given[i];
    RequestReached(rules, e, c);
    OnlyNamedBackends(rules, e, s, hosts, names);
    EvaluateEachFrame(e, e.server.challenges, Loaded(e, c));
    assert g.rewrites <= t.rewrites;
    forall k | 0 <= k < |g.reg.keyHeaders| ensures LastValues(g.rewrites, g.reg.keyHeaders[k]).None? {
      NoLastValues(g.rewrites, g.reg.keyHeaders[k], names);
    }
    LeavesBoundIff(g.reg, e.client, g.rewrites);
    assert e.client.(headers := e.client.headers) == e.client;
  }

  /** A client that itself sends the rewritten headers has the token standing. */
  lemma GivenStandsForSender(e: Env, f: Env, g: Given)
    requires WellGiven(e, g) && NextOf(f, e.(client := WithHeaders(e.client, g.rewrites)), g.reg)
    ensures TokenStands(f, g.reg, g.token) <==> g.token.ok
  {
    SameKeyInWindow(e.(client := WithHeaders(e.client, g.rewrites)), f, g.reg);
    TokenOutlivesExactly(g.reg.duration, if e.time < f.now then e.time else f.now);
    assert !TokenLost(e.time, f.now, g.reg.duration);
  }

  // ------------------------------------------------------- a header set before a check

  /** Two rules: one sets a request header for everyone, the next checks a challenge. */
  function SetThenCheck(first: Text, second: Text, header: Rewrite, reg: Registration): seq<Rule>
  {
    [Rule(first, false, Context(map[], [header]), []), Rule(second, false, Challenge(true, [reg], Pass, Deny), [])]
  }

  /** What executing the challenge does in any state: it passes at once and gives a token. */
  ghost predicate PassesAtOnce(e: Env, reg: Registration, result: Text)
  {
    forall s: Snap :: e.issue(reg, s) == Issuance(ResultOK, Some(TokenWrite(result, true)))
  }

  function TokenUnder(e: Env, reg: Registration, header: Rewrite, result: Text): Token
  {
    Token(e.KeyWith(reg, e.client.headers[header.0 := header.1]), result, true, Unix(e.KeyExpiry(reg)), 0)
  }

  /** A challenge that passes at once, in a state that has nothing on it yet. */
  lemma PassedNow(e: Env, reg: Registration, s: Snap, result: Text)
    requires PassesAtOnce(e, reg, result) && !Settled(s, reg.id)
    ensures var t, token := IssueOne(e, reg, s), Token(e.KeyWith(reg, s.headers), result, true, Unix(e.KeyExpiry(reg)), 0);
      && Handle(Challenge(true, [reg], Pass, Deny), e, s) == Handled(t, true, false)
      && t.tokens == s.tokens[reg.name := token] && t.modified && t.opts == s.opts
      && t.given == s.given + [Given(reg, token, s.rewrites)] && t.responses == s.responses
  {
    var h := Challenge(true, [reg], Pass, Deny);
    assert h.regs[0] == reg && !HasValid(h.regs, s);
    var t := IssueOne(e, reg, s);
    assert e.issue(reg, s) == Issuance(ResultOK, Some(TokenWrite(result, true)));
    assert Decide(h, reg, e, t) == Some(Handled(t, true, false));
    assert IssueFrom(h, 0, e, s) == Handled(t, true, false);
  }

  /** The state in which the check finds the request. */
  lemma CheckedAfterSet(e: Env, reg: Registration, header: Rewrite, result: Text) returns (s: Snap, t: Snap)
    requires WellRegistered(e.server.challenges) && reg in e.server.challenges
    requires e.issuedChallenge != reg.name && PassesAtOnce(e, reg, result)
    ensures s == SetContext(Started(e, NoCookie), map[], [header])
    ensures Handle(Challenge(true, [reg], Pass, Deny), e, s) == Handled(t, true, false)
    ensures t.tokens == map[reg.name := TokenUnder(e, reg, header, result)] && t.modified && t.opts == map[]
    ensures t.given == [Given(reg, TokenUnder(e, reg, header, result), [header])] && t.responses == []
  {
    var start := Started(e, NoCookie);
    StartedPoint(e, NoCookie, reg);
    EvaluateEachFrame(e, e.server.challenges, Loaded(e, NoCookie));
    assert start.tokens == map[];
    s := SetContext(start, map[], [header]);
    assert [header][1..] == [];
    assert s.headers == Rewritten(e.client.headers[header.0 := header.1], []) && s.rewrites == [header];
    PassedNow(e, reg, s, result);
    t := IssueOne(e, reg, s);
  }

  /** The cookie that such a request is answered with. */
  lemma CookieAfterSetThenCheck(e: Env, reg: Registration, first: Text, second: Text, header: Rewrite, result: Text)
    requires WellRegistered(e.server.challenges) && reg in e.server.challenges && e.hasBackend(e.host)
    requires e.issuedChallenge != reg.name && PassesAtOnce(e, reg, result)
    ensures var t := HandleRequest(SetThenCheck(first, second, header, reg), e, Started(e, NoCookie)).s;
      && t.given == [Given(reg, TokenUnder(e, reg, header, result), [header])]
      && t.setCookie == Some(Cookie(map[reg.name := TokenUnder(e, reg, header, result)],
                                    Unix(Expiration(e.time, DEFAULT_DURATION)), Unix(e.now - DAY)))
  {
    var s, t := CheckedAfterSet(e, reg, header, result);
    var rules := SetThenCheck(first, second, header, reg);
    var start := Started(e, NoCookie);
    assert Evaluate(rules[0], e, start) == EvaluateSeq([], e, s) == Handled(s, true, false);
    assert Evaluate(rules[1], e, s) == EvaluateSeq([], e, t) == Handled(t, true, false);
    assert rules[1..] == [rules[1]] && [rules[1]][1..] == [];
    assert EvaluateSeq([rules[1]], e, s) == EvaluateSeq([], e, t) == Handled(t, true, false);
    assert EvaluateSeq(rules, e, start) == EvaluateSeq([rules[1]], e, s);
    assert HandleRequest(rules, e, start) == Handle(Pass, e, t);
  }

  /**
    A challenge that passed the client on its first request is asked again on the next one when the
    rules had set a bound header to anything but the client's own values, unless the hash collides.
   */
  lemma SetHeaderLosesPassIff(e: Env, f: Env, reg: Registration, first: Text, second: Text, header: Rewrite, result: Text)
    requires WellRegistered(e.server.challenges) && reg in e.server.challenges && e.hasBackend(e.host)
    requires e.issuedChallenge != reg.name && PassesAtOnce(e, reg, result) && header.0 in reg.keyHeaders
    requires NextOf(f, e, reg) && e.now <= f.now && CookieSafe(reg.duration)
    requires CleanRequest(reg, e.client, Unix(e.KeyExpiry(reg)))
    requires CleanRequest(reg, WithHeaders(e.client, [header]), Unix(e.KeyExpiry(reg)))
    ensures var t := HandleRequest(SetThenCheck(first, second, header, reg), e, Started(e, NoCookie)).s;
      && t.setCookie.Some?
      && (RewriteCollided(e, reg, [header]) ||
          (ResultOf(Started(f, Readable(t.setCookie.value)), reg.id).Ok() <==> header.1 == HeaderValues(e.client, header.0)))
  {
    CookieAfterSetThenCheck(e, reg, first, second, header, result);
    var token := TokenUnder(e, reg, header, result);
    var cookie := Cookie(map[reg.name := token], Unix(Expiration(e.time, DEFAULT_DURATION)), Unix(e.now - DAY));
    var g := Given(reg, token, [header]);
    assert [header][1..] == [];
    assert Rewritten(e.client.headers, [header]) == Rewritten(e.client.headers[header.0 := header.1], []);
    CookieOutlivesWindow(e.time, f.now, reg.duration);
    PassedIffTokenStands(f, Readable(cookie), reg);
    GivenStandsIff(e, f, g);
    OneSettingLeavesBound(reg, e.client, header);
  }

  lemma OneSettingLeavesBound(reg: Registration, client: Client, header: Rewrite)
    requires header.0 in reg.keyHeaders
    ensures LeavesBound(reg, client, [header]) <==> header.1 == HeaderValues(client, header.0)
  {
    assert [header][..0] == [];
    assert forall k :: LastValues([header], k) == if header.0 == k then Some(header.1) else LastValues([], k);
  }

  /** While a client that sends that header itself has the challenge passed with this cookie. */
  lemma SetHeaderPassesSender(e: Env, f: Env, reg: Registration, first: Text, second: Text, header: Rewrite, result: Text)
    requires WellRegistered(e.server.challenges) && reg in e.server.challenges && e.hasBackend(e.host)
    requires e.issuedChallenge != reg.name && PassesAtOnce(e, reg, result)
    requires NextOf(f, e.(client := WithHeaders(e.client, [header])), reg) && e.now <= f.now && CookieSafe(reg.duration)
    ensures var t := HandleRequest(SetThenCheck(first, second, header, reg), e, Started(e, NoCookie)).s;
      t.setCookie.Some? && ResultOf(Started(f, Readable(t.setCookie.value)), reg.id).Ok()
  {
    CookieAfterSetThenCheck(e, reg, first, second, header, result);
    var token := TokenUnder(e, reg, header, result);
    var cookie := Cookie(map[reg.name := token], Unix(Expiration(e.time, DEFAULT_DURATION)), Unix(e.now - DAY));
    assert [header][1..] == [];
    assert Rewritten(e.client.headers, [header]) == Rewritten(e.client.headers[header.0 := header.1], []);
    CookieOutlivesWindow(e.time, f.now, reg.duration);
    PassedIffTokenStands(f, Readable(cookie), reg);
    GivenStandsForSender(e, f, Given(reg, token, [header]));
  }
}
