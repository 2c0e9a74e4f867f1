/** What the client holds after a request: exactly the tokens the request ended with (lib/challenge/data.go, lib/http.go). */
module Cookies {
  import opened Types
  import opened Wrappers
  import opened Expiry
  import opened Protocol
  import opened Answers
  import opened Ledger

  /** The cookie of a request that ends with these tokens. */
  function CookieOf(e: Env, tokens: TokenMap): Cookie
  {
    Cookie(tokens, Unix(Expiration(e.time, DEFAULT_DURATION)), Unix(e.now - DAY))
  }

  /** A cookie opens from the second of its making, less a day, to the second of its rounded seven days. */
  lemma CookieOpensIff(e: Env, f: Env, tokens: TokenMap)
    ensures var from, until := e.now - DAY, Expiration(e.time, DEFAULT_DURATION);
      CookieValid(f, CookieOf(e, tokens)) <==> from - from % SECOND <= f.now <= until - until % SECOND
  {
    CutToSecond(e.now - DAY);
    CutToSecond(Expiration(e.time, DEFAULT_DURATION));
  }

  /** Tokens do not change without the mark that they did. */
  predicate Marked(s: Snap, t: Snap)
  {
    (s.modified ==> t.modified) && (!t.modified ==> t.tokens == s.tokens)
  }

  /** The cookie sent is that of the tokens, if they changed. */
  predicate Told(e: Env, s: Snap, t: Snap)
  {
    t.setCookie == if t.modified then Some(CookieOf(e, t.tokens)) else s.setCookie
  }

  predicate IsDropped(t: Snap) { t.responses != [] && t.responses[|t.responses| - 1] == Dropped }

  /** Going on and failing send no cookie, stopping sends that of the tokens, unless the connection is dropped. */
  ghost predicate Honest(e: Env, s: Snap, r: Handled)
  {
    && Marked(s, r.s)
    && (r.next || r.err ==> r.s.setCookie == s.setCookie)
    && (!r.next && !r.err && !IsDropped(r.s) ==> Told(e, s, r.s))
  }

  lemma HonestBehind(e: Env, s: Snap, t: Snap, r: Handled)
    requires Marked(s, t) && t.setCookie == s.setCookie && Honest(e, t, r)
    ensures Honest(e, s, r)
  {
  }

  lemma ServeHonest(h: Handler, e: Env, s: Snap)
    requires h.Pass? || h.Proxy?
    ensures Honest(e, s, Handle(h, e, s))
  {
    DoneEmits(e, s);
    if h.Proxy? && e.hasBackend(h.backend) {
      assert Handle(h, e, s).s == Write(Done(e, s), Backend(h.backend));
    }
  }

  lemma LeafHonest(h: Handler, e: Env, s: Snap)
    requires !h.Challenge?
    ensures Honest(e, s, Handle(h, e, s))
  {
    if h.Pass? || h.Proxy? {
      ServeHonest(h, e, s);
    }
  }

  lemma IssueOneHonest(reg: Registration, e: Env, s: Snap)
    ensures var t, page := IssueOne(e, reg, s), reg.cls.Blocking? && e.issue(reg, s).result.ResultNone?;
      Marked(s, t) && (page ==> Told(e, s, t)) && (!page ==> t.setCookie == s.setCookie)
  {
  }

  lemma {:induction false} HandleHonest(h: Handler, e: Env, s: Snap)
    ensures Honest(e, s, Handle(h, e, s))
    decreases h, 2, 0
  {
    if !h.Challenge? {
      LeafHonest(h, e, s);
    } else if !HasValid(h.regs, s) {
      IssueHonest(h, 0, e, s);
    } else if !e.cleansQuery && !h.cont {
      HandleHonest(h.pass, e, s);
    }
  }

  lemma {:induction false} DecideHonest(h: Handler, reg: Registration, e: Env, t: Snap)
    requires h.Challenge? && !(reg.cls.Blocking? && ResultOf(t, reg.id).ResultNone?)
    ensures Decide(h, reg, e, t).Some? ==> Honest(e, t, Decide(h, reg, e, t).value)
    decreases h, 0, 0
  {
    HandleHonest(h.pass, e, t);
    HandleHonest(h.fail, e, t);
  }

  lemma {:induction false} IssueHonest(h: Handler, i: nat, e: Env, s: Snap)
    requires h.Challenge? && i <= |h.regs|
    ensures Honest(e, s, IssueFrom(h, i, e, s))
    decreases h, 1, |h.regs| - i
  {
    if i == |h.regs| {
      HandleHonest(h.fail, e, s);
    } else if Settled(s, h.regs[i].id) {
      IssueHonest(h, i + 1, e, s);
    } else {
      var reg := h.regs[i];
      var t := IssueOne(e, reg, s);
      IssueOneHonest(reg, e, s);
      assert ResultOf(t, reg.id) == e.issue(reg, s).result;
      if reg.cls.Blocking? && ResultOf(t, reg.id).ResultNone? {
        assert Decide(h, reg, e, t) == Some(Handled(t, false, false));
      } else {
        DecideHonest(h, reg, e, t);
        if Decide(h, reg, e, t).None? {
          IssueHonest(h, i + 1, e, t);
        }
        HonestBehind(e, s, t, IssueFrom(h, i, e, s));
      }
    }
  }

  lemma {:induction false} EvaluateHonest(rule: Rule, e: Env, s: Snap)
    ensures Honest(e, s, Evaluate(rule, e, s))
    decreases rule, 1
  {
    if RuleOutcome(e, rule, s) == IsTrue {
      var r := Handle(rule.handler, e, s);
      HandleHonest(rule.handler, e, s);
      if r.next && !r.err {
        EvaluateSeqHonest(rule.children, e, r.s);
        HonestBehind(e, s, r.s, EvaluateSeq(rule.children, e, r.s));
      }
    }
  }

  lemma {:induction false} EvaluateSeqHonest(rules: seq<Rule>, e: Env, s: Snap)
    ensures Honest(e, s, EvaluateSeq(rules, e, s))
    decreases rules, 0
  {
    if rules != [] {
      var r := Evaluate(rules[0], e, s);
      EvaluateHonest(rules[0], e, s);
      if r.next && !r.err {
        EvaluateSeqHonest(rules[1..], e, r.s);
        HonestBehind(e, s, r.s, EvaluateSeq(rules[1..], e, r.s));
      }
    }
  }

  lemma {:induction false} EvaluateEachMarks(e: Env, regs: seq<Registration>, s: Snap)
    ensures Marked(s, EvaluateEach(e, regs, s))
    decreases |regs|
  {
    if regs != [] {
      EvaluateEachMarks(e, regs[1..], EvaluateOne(e, regs[0], s));
    }
  }

  lemma RequestHonest(rules: seq<Rule>, e: Env, s: Snap)
    requires e.hasBackend(e.host)
    ensures var t := HandleRequest(rules, e, s).s; Marked(s, t) && (!IsDropped(t) ==> Told(e, s, t))
  {
    var r := EvaluateSeq(rules, e, s);
    EvaluateSeqHonest(rules, e, s);
    if r.err {
      RespondTells(e, r.s, ErrorPage(500));
    } else if r.next {
      LeafHonest(Pass, e, r.s);
      HonestBehind(e, s, r.s, Handle(Pass, e, r.s));
      EvaluateSeqAnswers(rules, e, s);
    }
  }

  lemma RespondTells(e: Env, s: Snap, answer: Response)
    ensures Marked(s, Respond(e, s, answer)) && Told(e, s, Respond(e, s, answer))
  {
  }

  /** The verify endpoint always tells. */
  lemma VerifyTells(reg: Registration, token: Option<Text>, e: Env, s: Snap)
    ensures Marked(s, HandleVerify(reg, token, e, s)) && Told(e, s, HandleVerify(reg, token, e, s))
  {
    if VerifiedOK(reg, token, e, s) {
      var t := GiveToken(e, reg, TokenWrite(token.value, true), s);
      RespondTells(e, t.(verify := t.verify[reg.id := ResultOK]), Redirected);
    } else {
      var answer := RefusalIs(reg, token, e, s);
      RespondTells(e, s, answer);
    }
  }

  /**
    Unless the connection is dropped, the client holds exactly the tokens the request ended with: in
    the cookie it is sent, or, when it is sent none, in the one it came with.
   */
  lemma ClientHoldsTokens(rules: seq<Rule>, e: Env, c: CookieIn)
    requires e.hasBackend(e.host) && !IsDropped(HandleRequest(rules, e, Started(e, c)).s)
    ensures var t := HandleRequest(rules, e, Started(e, c)).s;
      && (t.setCookie.Some? ==> t.setCookie.value == CookieOf(e, t.tokens))
      && (t.setCookie.None? ==> t.tokens == LoadedTokens(e, c) && (c.NoCookie? || (c.Readable? && CookieValid(e, c.cookie))))
  {
    var s := Started(e, c);
    EvaluateEachMarks(e, e.server.challenges, Loaded(e, c));
    EvaluateEachFrame(e, e.server.challenges, Loaded(e, c));
    RequestHonest(rules, e, s);
  }
}
