/**
  What rules and actions do to the requests they meet: which rule decides, what each action answers,
  in what order challenges are issued and what their results lead to (lib/rule.go, lib/action, lib/http.go).
 */
module Effects {
  import opened Types
  import opened Wrappers
  import opened Protocol
  import opened Answers
  import opened Ledger

  // ----------------------------------------------------------------- rows of rules

  /** A row of rules is its first part and, when that goes on, the rest in the state it leaves. */
  lemma SeqConcat(a: seq<Rule>, b: seq<Rule>, e: Env, s: Snap)
    ensures EvaluateSeq(a + b, e, s) ==
      if EvaluateSeq(a, e, s).next then EvaluateSeq(b, e, EvaluateSeq(a, e, s).s) else EvaluateSeq(a, e, s)
  {
    if EvaluateSeq(a, e, s).next {
      RulesCompose(a, b, e, s);
    } else {
      LaterRulesAreIgnored(a, b, e, s);
    }
  }

  lemma OneRule(rule: Rule, e: Env, s: Snap)
    ensures EvaluateSeq([rule], e, s) == if Evaluate(rule, e, s).next && !Evaluate(rule, e, s).err then Evaluate(rule, e, s)
                                         else Evaluate(rule, e, s).(next := false)
  {
    var r := Evaluate(rule, e, s);
    assert [rule][1..] == [];
    if r.next && !r.err {
      assert EvaluateSeq([], e, r.s) == Handled(r.s, true, false);
    }
  }

  /** Rows that do the same in the state they are reached in can stand for one another. */
  lemma Replaced(a: seq<Rule>, x: seq<Rule>, y: seq<Rule>, b: seq<Rule>, e: Env, s: Snap)
    requires EvaluateSeq(a, e, s).next ==> EvaluateSeq(x, e, EvaluateSeq(a, e, s).s) == EvaluateSeq(y, e, EvaluateSeq(a, e, s).s)
    ensures HandleRequest(a + x + b, e, s) == HandleRequest(a + y + b, e, s)
  {
    SeqConcat(a, x, e, s);
    SeqConcat(a, y, e, s);
    SeqConcat(a + x, b, e, s);
    SeqConcat(a + y, b, e, s);
  }

  /** A rule whose condition is false, or gives nothing, where it is reached might as well not be there. */
  lemma MissedRuleHasNoEffect(a: seq<Rule>, rule: Rule, b: seq<Rule>, e: Env, s: Snap)
    requires rule.hasCondition && e.ruleCondition(rule, EvaluateSeq(a, e, s).s) in {IsFalse, Nil}
    ensures HandleRequest(a + [rule] + b, e, s) == HandleRequest(a + b, e, s)
  {
    OneRule(rule, e, EvaluateSeq(a, e, s).s);
    Replaced(a, [rule], [], b, e, s);
    assert a + [] == a;
  }

  /** A condition that fails or is no truth value ends the request in the error page and a panic. */
  lemma BrokenRuleEndsInError(a: seq<Rule>, rule: Rule, b: seq<Rule>, e: Env, s: Snap)
    requires e.hasBackend(e.host) && EvaluateSeq(a, e, s).next
    requires rule.hasCondition && e.ruleCondition(rule, EvaluateSeq(a, e, s).s) in {Failed, NotBool}
    ensures var r := HandleRequest(a + [rule] + b, e, s);
      r.err && r.s.responses == s.responses + [ErrorPage(500)]
  {
    var t := EvaluateSeq(a, e, s).s;
    EvaluateSeqAnswers(a, e, s);
    OneRule(rule, e, t);
    SeqConcat(a, [rule], e, s);
    SeqConcat(a + [rule], b, e, s);
  }

  /** A rule without condition that takes just this action. */
  function Plain(name: Text, h: Handler): Rule { Rule(name, false, h, []) }

  lemma PlainIs(name: Text, h: Handler, e: Env, s: Snap)
    ensures EvaluateSeq([Plain(name, h)], e, s) ==
      if Handle(h, e, s).next && !Handle(h, e, s).err then Handle(h, e, s) else Handle(h, e, s).(next := false)
  {
    var r := Handle(h, e, s);
    OneRule(Plain(name, h), e, s);
    if r.next && !r.err {
      assert EvaluateSeq([], e, r.s) == Handled(r.s, true, false);
    }
  }

  /** A rule that applies is its action and then, when that goes on, its children in order. */
  lemma HitRuleIsActionThenChildren(a: seq<Rule>, rule: Rule, b: seq<Rule>, e: Env, s: Snap)
    requires rule.hasCondition ==> e.ruleCondition(rule, EvaluateSeq(a, e, s).s) == IsTrue
    ensures HandleRequest(a + [rule] + b, e, s) ==
            HandleRequest(a + ([Plain(rule.name, rule.handler)] + rule.children) + b, e, s)
  {
    var t := EvaluateSeq(a, e, s).s;
    var r := Handle(rule.handler, e, t);
    PlainIs(rule.name, rule.handler, e, t);
    SeqConcat([Plain(rule.name, rule.handler)], rule.children, e, t);
    OneRule(rule, e, t);
    if r.next && !r.err {
      SeqErrStops(rule.children, e, r.s);
    }
    Replaced(a, [rule], [Plain(rule.name, rule.handler)] + rule.children, b, e, s);
  }

  /** What fails does not go on. */
  lemma {:induction false} SeqErrStops(rules: seq<Rule>, e: Env, s: Snap)
    ensures EvaluateSeq(rules, e, s).err ==> !EvaluateSeq(rules, e, s).next
    decreases |rules|
  {
    if rules != [] {
      SeqErrStops(rules[1..], e, Evaluate(rules[0], e, s).s);
    }
  }

  // ------------------------------------------------------------------------ actions

  /** A rule that is reached and whose action ends the request decides the request. */
  lemma ReachedActionDecides(a: seq<Rule>, name: Text, h: Handler, b: seq<Rule>, e: Env, s: Snap)
    requires e.hasBackend(e.host) && EvaluateSeq(a, e, s).next
    requires !Handle(h, e, EvaluateSeq(a, e, s).s).next && !Handle(h, e, EvaluateSeq(a, e, s).s).err
    ensures HandleRequest(a + [Plain(name, h)] + b, e, s) == Handle(h, e, EvaluateSeq(a, e, s).s)
    ensures EvaluateSeq(a, e, s).s.responses == s.responses
  {
    EvaluateSeqAnswers(a, e, s);
    PlainIs(name, h, e, EvaluateSeq(a, e, s).s);
    SeqConcat(a, [Plain(name, h)], e, s);
    SeqConcat(a + [Plain(name, h)], b, e, s);
  }

  /** What the client gets of each action that ends the request. */
  function AnswerOf(h: Handler, host: Text): Response
    requires h.Pass? || h.Proxy? || h.Deny? || h.Block? || h.Code? || h.Drop?
  {
    match h
    case Pass => Backend(host)
    case Proxy(backend) => Backend(backend)
    case Deny => ErrorPage(403)
    case Block => Blocked
    case Code(code) => Coded(code)
    case Drop => Dropped
  }

  /** A request that gets as far as such an action gets exactly its answer, whatever rules stand behind it. */
  lemma ActionAnswers(a: seq<Rule>, name: Text, h: Handler, b: seq<Rule>, e: Env, s: Snap)
    requires e.hasBackend(e.host) && EvaluateSeq(a, e, s).next
    requires h.Pass? || (h.Proxy? && e.hasBackend(h.backend)) || h.Deny? || h.Block? || h.Code? || h.Drop?
    ensures HandleRequest(a + [Plain(name, h)] + b, e, s).s.responses == s.responses + [AnswerOf(h, e.host)]
  {
    ReachedActionDecides(a, name, h, b, e, s);
  }

  /** A PROXY action that names a backend there is not ends in the error page. */
  lemma MissingProxyEndsInError(a: seq<Rule>, name: Text, backend: Text, b: seq<Rule>, e: Env, s: Snap)
    requires e.hasBackend(e.host) && EvaluateSeq(a, e, s).next && !e.hasBackend(backend)
    ensures HandleRequest(a + [Plain(name, Proxy(backend))] + b, e, s).err
    ensures HandleRequest(a + [Plain(name, Proxy(backend))] + b, e, s).s.responses == s.responses + [ErrorPage(500)]
  {
    var t := EvaluateSeq(a, e, s).s;
    EvaluateSeqAnswers(a, e, s);
    PlainIs(name, Proxy(backend), e, t);
    SeqConcat(a, [Plain(name, Proxy(backend))], e, s);
    SeqConcat(a + [Plain(name, Proxy(backend))], b, e, s);
  }

  /** A rule that takes no action is its children. */
  lemma NoActionIsChildren(a: seq<Rule>, rule: Rule, b: seq<Rule>, e: Env, s: Snap)
    requires rule.handler == NoAction && (rule.hasCondition ==> e.ruleCondition(rule, EvaluateSeq(a, e, s).s) == IsTrue)
    ensures HandleRequest(a + [rule] + b, e, s) == HandleRequest(a + rule.children + b, e, s)
  {
    var t := EvaluateSeq(a, e, s).s;
    HitRuleIsActionThenChildren(a, rule, b, e, s);
    PlainIs(rule.name, NoAction, e, t);
    SeqConcat([Plain(rule.name, NoAction)], rule.children, e, t);
    Replaced(a, [Plain(rule.name, NoAction)] + rule.children, rule.children, b, e, s);
  }

  /** What a CONTEXT action leaves to the rules behind it: its settings over the old ones, and nothing else but headers. */
  lemma ContextIsSeen(name: Text, settings: map<Text, Text>, headers: seq<Rewrite>, e: Env, s: Snap, k: Text)
    ensures var r := EvaluateSeq([Plain(name, Context(settings, headers))], e, s);
      && r.next && Opt(r.s, k) == (if k in settings then settings[k] else Opt(s, k))
      && r.s.(opts := s.opts, headers := s.headers, rewrites := s.rewrites) == s && r.s.rewrites == s.rewrites + headers
  {
    PlainIs(name, Context(settings, headers), e, s);
  }

  // --------------------------------------------------------------- passed challenges

  /** A client that has passed one of the challenges gets the pass action, however the failure is handled. */
  lemma PassedGetsPassAction(a: seq<Rule>, name: Text, regs: seq<Registration>, pass: Handler, fail: Handler, b: seq<Rule>,
                             e: Env, s: Snap)
    requires EvaluateSeq(a, e, s).next ==> HasValid(regs, EvaluateSeq(a, e, s).s)
    requires !e.cleansQuery
    ensures HandleRequest(a + [Plain(name, Challenge(false, regs, pass, fail))] + b, e, s) ==
            HandleRequest(a + [Plain(name, pass)] + b, e, s)
  {
    var t := EvaluateSeq(a, e, s).s;
    PlainIs(name, Challenge(false, regs, pass, fail), e, t);
    PlainIs(name, pass, e, t);
    Replaced(a, [Plain(name, Challenge(false, regs, pass, fail))], [Plain(name, pass)], b, e, s);
  }

  /** So by default it is served by its backend. */
  lemma PassedIsServed(a: seq<Rule>, name: Text, regs: seq<Registration>, fail: Handler, b: seq<Rule>, e: Env, s: Snap)
    requires e.hasBackend(e.host) && !e.cleansQuery
    requires EvaluateSeq(a, e, s).next && HasValid(regs, EvaluateSeq(a, e, s).s)
    ensures HandleRequest(a + [Plain(name, Challenge(false, regs, Pass, fail))] + b, e, s).s.responses ==
            s.responses + [Backend(e.host)]
  {
    PassedGetsPassAction(a, name, regs, Pass, fail, b, e, s);
    ActionAnswers(a, name, Pass, b, e, s);
  }

  /** A CHECK that the client has passed does not show. */
  lemma PassedCheckHasNoEffect(a: seq<Rule>, name: Text, regs: seq<Registration>, pass: Handler, fail: Handler, b: seq<Rule>,
                               e: Env, s: Snap)
    requires EvaluateSeq(a, e, s).next ==> HasValid(regs, EvaluateSeq(a, e, s).s)
    requires !e.cleansQuery
    ensures HandleRequest(a + [Plain(name, Challenge(true, regs, pass, fail))] + b, e, s) == HandleRequest(a + b, e, s)
  {
    PlainIs(name, Challenge(true, regs, pass, fail), e, EvaluateSeq(a, e, s).s);
    Replaced(a, [Plain(name, Challenge(true, regs, pass, fail))], [], b, e, s);
    assert a + [] == a;
  }

  /** With arguments of ours left in its query, a client that has passed is redirected to the clean URL first. */
  lemma PassedIsCleaned(a: seq<Rule>, name: Text, h: Handler, b: seq<Rule>, e: Env, s: Snap)
    requires h.Challenge? && e.hasBackend(e.host) && e.cleansQuery
    requires EvaluateSeq(a, e, s).next && HasValid(h.regs, EvaluateSeq(a, e, s).s)
    ensures HandleRequest(a + [Plain(name, h)] + b, e, s).s.responses == s.responses + [Redirected]
  {
    ReachedActionDecides(a, name, h, b, e, s);
  }

  /** The first rule being a challenge, a client with a standing token for it is served, whatever its failure would be. */
  lemma StandingTokenIsServed(name: Text, regs: seq<Registration>, fail: Handler, b: seq<Rule>, e: Env, c: CookieIn, reg: Registration)
    requires WellRegistered(e.server.challenges) && reg in e.server.challenges && reg in regs
    requires e.hasBackend(e.host) && !e.cleansQuery
    requires c.Readable? && CookieValid(e, c.cookie) && reg.name in c.cookie.tokens && TokenStands(e, reg, c.cookie.tokens[reg.name])
    ensures HandleRequest([Plain(name, Challenge(false, regs, Pass, fail))] + b, e, Started(e, c)).s.responses == [Backend(e.host)]
  {
    PassedIffTokenStands(e, c, reg);
    EvaluateEachFrame(e, e.server.challenges, Loaded(e, c));
    assert reg in regs && ResultOf(Started(e, c), reg.id).Ok();
    PassedIsServed([], name, regs, fail, b, e, Started(e, c));
    assert [] + [Plain(name, Challenge(false, regs, Pass, fail))] == [Plain(name, Challenge(false, regs, Pass, fail))];
  }

  // --------------------------------------------------------------- issuing in order

  /** The state after looking at the first i challenges, when none of them decides: each that is not settled was issued. */
  function StateAfter(regs: seq<Registration>, i: nat, e: Env, s: Snap): Snap
    requires i <= |regs|
  {
    if i == 0 then s else LookedAt(regs[i - 1], e, StateAfter(regs, i - 1, e, s))
  }

  function LookedAt(reg: Registration, e: Env, t: Snap): Snap
  {
    if Settled(t, reg.id) then t else IssueOne(e, reg, t)
  }

  /** The results that leave the request to the next challenge. */
  predicate LeavesOpen(reg: Registration, result: VerifyResult)
  {
    result in {ResultNotOK, ResultSkip} || (reg.cls == Transparent && result in {ResultFail, ResultNone})
  }

  function ResultAt(regs: seq<Registration>, i: nat, e: Env, s: Snap): VerifyResult
    requires i < |regs|
  {
    e.issue(regs[i], StateAfter(regs, i, e, s)).result
  }

  /** The challenge is not issued in this state, or its result is left to the next one. */
  predicate PassedOver(reg: Registration, e: Env, t: Snap)
  {
    Settled(t, reg.id) || LeavesOpen(reg, e.issue(reg, t).result)
  }

  /** None of the first i challenges decides. */
  predicate NoneDecides(regs: seq<Registration>, i: nat, e: Env, s: Snap)
    requires i <= |regs|
  {
    i > 0 ==> NoneDecides(regs, i - 1, e, s) && PassedOver(regs[i - 1], e, StateAfter(regs, i - 1, e, s))
  }

  lemma DecideIs(h: Handler, reg: Registration, e: Env, s: Snap)
    requires h.Challenge?
    ensures var t, result := IssueOne(e, reg, s), e.issue(reg, s).result;
      && (Decide(h, reg, e, t).None? <==> LeavesOpen(reg, result))
      && (result == ResultOK ==> Decide(h, reg, e, t) == Some(if h.cont then Handled(t, true, false) else Handle(h.pass, e, t)))
      && (result == ResultFail && reg.cls == Blocking ==> Decide(h, reg, e, t) == Some(Handle(h.fail, e, t)))
      && (result == ResultNone && reg.cls == Blocking ==> Decide(h, reg, e, t) == Some(Handled(t, false, false)))
  {
    var t := IssueOne(e, reg, s);
    assert ResultOf(t, reg.id) == e.issue(reg, s).result;
  }

  lemma OneIsPassedOver(h: Handler, i: nat, e: Env, t: Snap, u: Snap)
    requires h.Challenge? && i < |h.regs| && PassedOver(h.regs[i], e, t) && u == LookedAt(h.regs[i], e, t)
    ensures IssueFrom(h, i, e, t) == IssueFrom(h, i + 1, e, u)
  {
    DecideIs(h, h.regs[i], e, t);
  }

  lemma NextState(regs: seq<Registration>, i: nat, e: Env, s: Snap) returns (t: Snap, u: Snap)
    requires i < |regs|
    ensures t == StateAfter(regs, i, e, s) && u == StateAfter(regs, i + 1, e, s) && u == LookedAt(regs[i], e, t)
  {
    t, u := StateAfter(regs, i, e, s), StateAfter(regs, i + 1, e, s);
  }

  /** Looking at the challenges from the front: those that do not decide are passed over in order. */
  lemma {:induction false} OpenOnesArePassedOver(h: Handler, i: nat, e: Env, s: Snap)
    requires h.Challenge? && i <= |h.regs| && NoneDecides(h.regs, i, e, s)
    ensures IssueFrom(h, 0, e, s) == IssueFrom(h, i, e, StateAfter(h.regs, i, e, s))
  {
    if i > 0 {
      OpenOnesArePassedOver(h, i - 1, e, s);
      var t, u := NextState(h.regs, i - 1, e, s);
      OneIsPassedOver(h, i - 1, e, t, u);
    }
  }

  /** When no challenge decides, the failure is handled. */
  lemma NobodyDecides(h: Handler, e: Env, s: Snap)
    requires h.Challenge? && !HasValid(h.regs, s) && NoneDecides(h.regs, |h.regs|, e, s)
    ensures Handle(h, e, s) == Handle(h.fail, e, StateAfter(h.regs, |h.regs|, e, s))
  {
    OpenOnesArePassedOver(h, |h.regs|, e, s);
  }

  /**
    The first challenge that decides: OK goes on or gets the pass action, a failure of a blocking
    challenge is handled, and one that answered for itself ends the request.
   */
  lemma FirstDecides(h: Handler, i: nat, e: Env, s: Snap)
    requires h.Challenge? && !HasValid(h.regs, s) && i < |h.regs| && NoneDecides(h.regs, i, e, s)
    requires !PassedOver(h.regs[i], e, StateAfter(h.regs, i, e, s))
    ensures var t, result := StateAfter(h.regs, i + 1, e, s), ResultAt(h.regs, i, e, s);
      Handle(h, e, s) ==
        if result == ResultOK && h.cont then Handled(t, true, false)
        else if result == ResultOK then Handle(h.pass, e, t)
        else if result == ResultFail then Handle(h.fail, e, t)
        else Handled(t, false, false)
  {
    OpenOnesArePassedOver(h, i, e, s);
    var t, u := NextState(h.regs, i, e, s);
    DecideIs(h, h.regs[i], e, t);
  }

  /** The ids of the first i challenges of a list that are not settled, in its order. */
  function Unsettled(regs: seq<Registration>, i: nat, s: Snap): seq<Id>
    requires i <= |regs|
  {
    if i == 0 then [] else Unsettled(regs, i - 1, s) + if Settled(s, regs[i - 1].id) then [] else [regs[i - 1].id]
  }

  /** Looking at challenges changes only what is known of them. */
  lemma {:induction false} OthersAreLeft(regs: seq<Registration>, i: nat, e: Env, s: Snap, id: Id)
    requires i <= |regs| && forall j :: 0 <= j < i ==> regs[j].id != id
    ensures ResultOf(StateAfter(regs, i, e, s), id) == ResultOf(s, id)
    ensures StateOf(StateAfter(regs, i, e, s), id) == StateOf(s, id)
  {
    if i > 0 {
      OthersAreLeft(regs, i - 1, e, s, id);
      ExecutedWrites(e, regs[i - 1], StateAfter(regs, i - 1, e, s));
    }
  }

  lemma LookedAtIssues(reg: Registration, e: Env, t: Snap, u: Snap)
    requires u == LookedAt(reg, e, t)
    ensures u.issued == t.issued + if Settled(t, reg.id) then [] else [reg.id]
  {
    ExecutedWrites(e, reg, t);
  }

  predicate DistinctRegs(regs: seq<Registration>)
  {
    forall j, k :: 0 <= j < k < |regs| ==> regs[j].id != regs[k].id
  }

  /** Challenges are issued in the order of their list, every one that is not settled, until one decides. */
  lemma {:induction false} IssuedInListOrder(regs: seq<Registration>, i: nat, e: Env, s: Snap)
    requires i <= |regs| && DistinctRegs(regs)
    ensures StateAfter(regs, i, e, s).issued == s.issued + Unsettled(regs, i, s)
  {
    if i > 0 {
      var reg := regs[i - 1];
      IssuedInListOrder(regs, i - 1, e, s);
      OthersAreLeft(regs, i - 1, e, s, reg.id);
      var t, u := NextState(regs, i - 1, e, s);
      LookedAtIssues(reg, e, t, u);
    }
  }

  /** A blocking challenge that is the first to be issued and answers for itself: the client gets its page. */
  lemma BlockingPageIsShown(a: seq<Rule>, name: Text, h: Handler, b: seq<Rule>, e: Env, s: Snap)
    requires h.Challenge? && e.hasBackend(e.host) && EvaluateSeq(a, e, s).next && h.regs != []
    requires var t := EvaluateSeq(a, e, s).s;
      && !HasValid(h.regs, t) && !Settled(t, h.regs[0].id)
      && h.regs[0].cls == Blocking && e.issue(h.regs[0], t).result == ResultNone
    ensures HandleRequest(a + [Plain(name, h)] + b, e, s).s.responses == s.responses + [ChallengePage(h.regs[0].id)]
  {
    var t := EvaluateSeq(a, e, s).s;
    assert StateAfter(h.regs, 0, e, t) == t && !PassedOver(h.regs[0], e, t);
    FirstDecides(h, 0, e, t);
    assert StateAfter(h.regs, 1, e, t) == IssueOne(e, h.regs[0], t);
    ExecutedWrites(e, h.regs[0], t);
    ReachedActionDecides(a, name, h, b, e, s);
  }

  /** A request that comes back from the only challenge without having met it gets the failure handled. */
  lemma SettledFails(h: Handler, e: Env, s: Snap)
    requires h.Challenge? && !HasValid(h.regs, s) && forall i :: 0 <= i < |h.regs| ==> Settled(s, h.regs[i].id)
    ensures Handle(h, e, s) == Handle(h.fail, e, s)
  {
    AllSettled(h.regs, |h.regs|, e, s);
    NobodyDecides(h, e, s);
  }

  lemma {:induction false} AllSettled(regs: seq<Registration>, i: nat, e: Env, s: Snap)
    requires i <= |regs| && forall j :: 0 <= j < |regs| ==> Settled(s, regs[j].id)
    ensures StateAfter(regs, i, e, s) == s && NoneDecides(regs, i, e, s)
  {
    if i > 0 {
      AllSettled(regs, i - 1, e, s);
    }
  }

  // ---------------------------------------------------------- who is asked, who is kept

  /** The first rule being a challenge of one registration: it is issued exactly to clients that have not passed it and are not skipped. */
  lemma IssuedIff(name: Text, h: Handler, b: seq<Rule>, e: Env, c: CookieIn, reg: Registration)
    requires WellRegistered(e.server.challenges) && reg in e.server.challenges && h.Challenge? && h.regs == [reg]
    requires e.hasBackend(e.host) && RulesUseOnly([Plain(name, h)] + b, e.server.challenges)
    ensures reg.id in HandleRequest([Plain(name, h)] + b, e, Started(e, c)).s.issued <==>
      !(reg.name in LoadedTokens(e, c) && TokenStands(e, reg, LoadedTokens(e, c)[reg.name])) &&
      !IsSkipped(e, reg, LoadedTokens(e, c))
  {
    var s := Started(e, c);
    VerdictIs(e, c, reg);
    NotStatePass(e, c, reg);
    assert Settled(s, reg.id) <==>
      (reg.name in LoadedTokens(e, c) && TokenStands(e, reg, LoadedTokens(e, c)[reg.name])) || IsSkipped(e, reg, LoadedTokens(e, c));
    RequestReached([Plain(name, h)] + b, e, c);
    if !Settled(s, reg.id) {
      FirstIsIssued(name, h, b, e, s);
    }
  }

  lemma NotStatePass(e: Env, c: CookieIn, reg: Registration)
    requires WellRegistered(e.server.challenges) && reg in e.server.challenges
    ensures StateOf(Started(e, c), reg.id) != StatePass
  {
    StartedPoint(e, c, reg);
  }

  lemma FirstIsIssued(name: Text, h: Handler, b: seq<Rule>, e: Env, s: Snap)
    requires h.Challenge? && |h.regs| == 1 && e.hasBackend(e.host) && !Settled(s, h.regs[0].id)
    ensures h.regs[0].id in HandleRequest([Plain(name, h)] + b, e, s).s.issued
  {
    var reg := h.regs[0];
    var t := IssueOne(e, reg, s);
    assert !HasValid(h.regs, s);
    IssueOneKeeps(reg, e, s);
    ExecutedWrites(e, reg, s);
    assert t.issued[|s.issued|] == reg.id;
    DecideAnswers(h, reg, e, t);
    if Decide(h, reg, e, t).None? {
      IssueAnswers(h, 1, e, t);
    }
    assert t.issued <= Handle(h, e, s).s.issued;
    RequestIssuedGrows(name, h, b, e, s);
  }

  lemma RequestIssuedGrows(name: Text, h: Handler, b: seq<Rule>, e: Env, s: Snap)
    requires e.hasBackend(e.host)
    ensures Handle(h, e, s).s.issued <= HandleRequest([Plain(name, h)] + b, e, s).s.issued
  {
    var u := Handle(h, e, s).s;
    PlainIs(name, h, e, s);
    SeqConcat([Plain(name, h)], b, e, s);
    EvaluateSeqAnswers(b, e, u);
    HandleAnswers(Pass, e, EvaluateSeq(b, e, u).s);
  }

  /** Over a whole request no challenge that was OK is ever anything else. */
  lemma OkIsNeverLost(rules: seq<Rule>, e: Env, s: Snap, id: Id)
    requires ResultOf(s, id) == ResultOK
    ensures ResultOf(HandleRequest(rules, e, s).s, id) == ResultOK
  {
    if e.hasBackend(e.host) {
      EvaluateSeqAnswers(rules, e, s);
      HandleAnswers(Pass, e, EvaluateSeq(rules, e, s).s);
    }
  }

  /** Without a backend for its host a request is refused before any rule is looked at. */
  lemma NoBackendIsUnavailable(rules: seq<Rule>, e: Env, s: Snap)
    requires !e.hasBackend(e.host)
    ensures var r := HandleRequest(rules, e, s);
      !r.err && r.s.responses == s.responses + [Unavailable] && r.s.issued == s.issued && r.s.given == s.given
  {
  }

  /** Passing a request on serves it from its own host, unless that has no backend and the option names another host. */
  lemma OptionWithoutBackend(e: Env, s: Snap)
    ensures var opt := Opt(s, BACKEND_HOST);
      Handle(Pass, e, s).s.responses == s.responses + [
        if opt in {[], e.host} || e.hasBackend(e.host) then Backend(e.host) else Unavailable]
  {
  }
}
