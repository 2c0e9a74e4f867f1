/** One request, one answer: laws of handlers and rule trees of any depth. */
module Answers {
  import opened Types
  import opened Wrappers
  import opened Protocol

  /** What is settled stays as it is, and nothing written is taken back. */
  ghost predicate Keeps(s: Snap, t: Snap)
  {
    && s.responses <= t.responses && s.issued <= t.issued
    && forall id :: Settled(s, id) ==> ResultOf(t, id) == ResultOf(s, id) && StateOf(t, id) == StateOf(s, id)
  }

  /** Going on has written nothing, failing has written nothing, stopping has written one response. */
  ghost predicate OneAnswer(s: Snap, r: Handled)
  {
    && (r.err ==> !r.next && r.s.responses == s.responses)
    && (r.next ==> r.s.responses == s.responses)
    && (!r.next && !r.err ==> |r.s.responses| == |s.responses| + 1)
  }

  /** Executing a challenge leaves the results alone and writes at most its own page. */
  lemma ExecutedWrites(e: Env, reg: Registration, s: Snap)
    ensures var t, page := Executed(e, reg, s), reg.cls.Blocking? && e.issue(reg, s).result.ResultNone?;
      && t.verify == s.verify && t.state == s.state && t.issued == s.issued
      && (page ==> t.responses == s.responses + [ChallengePage(reg.id)]) && (!page ==> t.responses == s.responses)
  {
  }

  lemma IssueOneKeeps(reg: Registration, e: Env, s: Snap)
    requires !Settled(s, reg.id)
    ensures Keeps(s, IssueOne(e, reg, s))
    ensures StateOf(IssueOne(e, reg, s), reg.id) == StatePass
    ensures |IssueOne(e, reg, s).responses| == |s.responses| +
      if reg.cls.Blocking? && ResultOf(IssueOne(e, reg, s), reg.id).ResultNone? then 1 else 0
  {
    ExecutedWrites(e, reg, s);
  }

  lemma {:induction false} HandleAnswers(h: Handler, e: Env, s: Snap)
    requires e.hasBackend(e.host)
    ensures Keeps(s, Handle(h, e, s).s) && OneAnswer(s, Handle(h, e, s))
    decreases h, 2, 0
  {
    if h.Challenge? {
      if !HasValid(h.regs, s) {
        IssueAnswers(h, 0, e, s);
      } else if !e.cleansQuery && !h.cont {
        HandleAnswers(h.pass, e, s);
      }
    }
  }

  lemma {:induction false} IssueAnswers(h: Handler, i: nat, e: Env, s: Snap)
    requires h.Challenge? && i <= |h.regs| && e.hasBackend(e.host)
    ensures Keeps(s, IssueFrom(h, i, e, s).s) && OneAnswer(s, IssueFrom(h, i, e, s))
    decreases h, 1, |h.regs| - i
  {
    if i == |h.regs| {
      HandleAnswers(h.fail, e, s);
    } else if Settled(s, h.regs[i].id) {
      IssueAnswers(h, i + 1, e, s);
    } else {
      var reg := h.regs[i];
      var t := IssueOne(e, reg, s);
      IssueOneKeeps(reg, e, s);
      DecideAnswers(h, reg, e, t);
      if Decide(h, reg, e, t).None? {
        IssueAnswers(h, i + 1, e, t);
      }
    }
  }

  /** The decision on a result; a blocking challenge that returned None has answered already. */
  lemma {:induction false} DecideAnswers(h: Handler, reg: Registration, e: Env, t: Snap)
    requires h.Challenge? && e.hasBackend(e.host)
    ensures Decide(h, reg, e, t).Some? ==> Keeps(t, Decide(h, reg, e, t).value.s)
    ensures reg.cls.Blocking? && ResultOf(t, reg.id).ResultNone? ==> Decide(h, reg, e, t) == Some(Handled(t, false, false))
    ensures Decide(h, reg, e, t).Some? && !(reg.cls.Blocking? && ResultOf(t, reg.id).ResultNone?) ==>
      OneAnswer(t, Decide(h, reg, e, t).value)
    decreases h, 0, 0
  {
    HandleAnswers(h.pass, e, t);
    HandleAnswers(h.fail, e, t);
  }

  lemma {:induction false} EvaluateAnswers(rule: Rule, e: Env, s: Snap)
    requires e.hasBackend(e.host)
    ensures Keeps(s, Evaluate(rule, e, s).s) && OneAnswer(s, Evaluate(rule, e, s))
    decreases rule, 1
  {
    if RuleOutcome(e, rule, s) == IsTrue {
      HandleAnswers(rule.handler, e, s);
      EvaluateSeqAnswers(rule.children, e, Handle(rule.handler, e, s).s);
    }
  }

  lemma {:induction false} EvaluateSeqAnswers(rules: seq<Rule>, e: Env, s: Snap)
    requires e.hasBackend(e.host)
    ensures Keeps(s, EvaluateSeq(rules, e, s).s) && OneAnswer(s, EvaluateSeq(rules, e, s))
    decreases rules, 0
  {
    if rules != [] {
      EvaluateAnswers(rules[0], e, s);
      EvaluateSeqAnswers(rules[1..], e, Evaluate(rules[0], e, s).s);
    }
  }

  /** Every request is answered exactly once, whatever the rules, conditions and challenges do. */
  lemma OneResponsePerRequest(rules: seq<Rule>, e: Env, s: Snap)
    ensures |HandleRequest(rules, e, s).s.responses| == |s.responses| + 1
    ensures s.responses <= HandleRequest(rules, e, s).s.responses
    ensures HandleRequest(rules, e, s).err ==> HandleRequest(rules, e, s).s.responses[|s.responses|] == ErrorPage(500)
  {
    if e.hasBackend(e.host) {
      EvaluateSeqAnswers(rules, e, s);
      HandleAnswers(Pass, e, EvaluateSeq(rules, e, s).s);
    }
  }

  /** Rules behind the one that stops or fails have no effect at all. */
  lemma {:induction false} LaterRulesAreIgnored(rules: seq<Rule>, later: seq<Rule>, e: Env, s: Snap)
    requires !EvaluateSeq(rules, e, s).next
    ensures EvaluateSeq(rules + later, e, s) == EvaluateSeq(rules, e, s)
    ensures HandleRequest(rules + later, e, s) == HandleRequest(rules, e, s)
  {
    if rules != [] {
      assert (rules + later)[0] == rules[0] && (rules + later)[1..] == rules[1..] + later;
      var r := Evaluate(rules[0], e, s);
      if !r.err && r.next {
        LaterRulesAreIgnored(rules[1..], later, e, r.s);
      }
    }
  }

  /** Rules that go on hand their state to the rules behind them. */
  lemma {:induction false} RulesCompose(rules: seq<Rule>, later: seq<Rule>, e: Env, s: Snap)
    requires EvaluateSeq(rules, e, s).next
    ensures EvaluateSeq(rules + later, e, s) == EvaluateSeq(later, e, EvaluateSeq(rules, e, s).s)
  {
    if rules == [] {
      assert rules + later == later;
    } else {
      assert (rules + later)[0] == rules[0] && (rules + later)[1..] == rules[1..] + later;
      RulesCompose(rules[1..], later, e, Evaluate(rules[0], e, s).s);
    }
  }

  /**
    A request that no rule ends is served by the backend of its own host, whatever CONTEXT actions
    have set on the way: the option for another host is not followed.
   */
  lemma BackendHostOptionHasNoEffect(rules: seq<Rule>, e: Env, s: Snap)
    requires e.hasBackend(e.host) && EvaluateSeq(rules, e, s).next
    ensures HandleRequest(rules, e, s).s.responses == s.responses + [Backend(e.host)]
  {
    EvaluateSeqAnswers(rules, e, s);
  }

  // ------------------------------------------------------------------------- gates

  /** A backend was reached between s and t. */
  ghost predicate ReachesBackend(s: Snap, t: Snap)
  {
    exists k :: |s.responses| <= k < |t.responses| && t.responses[k].Backend?
  }

  /** A handler that neither goes on nor reaches a backend, in any request and any state. */
  ghost predicate Refuses(h: Handler)
  {
    forall e: Env, s: Snap :: e.hasBackend(e.host) ==>
      var r := Handle(h, e, s); !r.next && !ReachesBackend(s, r.s)
  }

  lemma DefaultFailRefuses()
    ensures Refuses(Deny) && Refuses(Block) && Refuses(Drop)
    ensures forall code :: Refuses(Code(code))
  {
  }

  lemma RefusesHere(h: Handler, e: Env, s: Snap)
    requires Refuses(h) && e.hasBackend(e.host)
    ensures !Handle(h, e, s).next && !ReachesBackend(s, Handle(h, e, s).s)
  {
  }

  lemma {:induction false} IssueGate(h: Handler, i: nat, e: Env, s: Snap)
    requires h.Challenge? && i <= |h.regs| && e.hasBackend(e.host) && Refuses(h.fail)
    ensures var r := IssueFrom(h, i, e, s);
      r.next || ReachesBackend(s, r.s) ==> HasValid(h.regs, r.s)
    decreases |h.regs| - i
  {
    if i == |h.regs| {
      RefusesHere(h.fail, e, s);
    } else if Settled(s, h.regs[i].id) {
      IssueGate(h, i + 1, e, s);
    } else {
      var reg := h.regs[i];
      var t := IssueOne(e, reg, s);
      IssueOneKeeps(reg, e, s);
      DecideAnswers(h, reg, e, t);
      RefusesHere(h.fail, e, t);
      assert reg in h.regs && (ResultOf(t, reg.id).Ok() ==> Settled(t, reg.id) && HasValid(h.regs, t));
      if Decide(h, reg, e, t).None? {
        IssueGate(h, i + 1, e, t);
      } else if HasValid(h.regs, t) {
        ValidKept(h.regs, t, Decide(h, reg, e, t).value.s);
      }
    }
  }

  /** Nobody gets past a challenge, or to a backend through it, without one of its challenges being OK. */
  lemma ChallengeGate(h: Handler, e: Env, s: Snap)
    requires h.Challenge? && e.hasBackend(e.host) && Refuses(h.fail)
    ensures var r := Handle(h, e, s);
      r.next || ReachesBackend(s, r.s) ==> HasValid(h.regs, r.s)
  {
    if HasValid(h.regs, s) {
      HandleAnswers(h, e, s);
      ValidKept(h.regs, s, Handle(h, e, s).s);
    } else {
      IssueGate(h, 0, e, s);
    }
  }

  lemma ValidKept(regs: seq<Registration>, s: Snap, t: Snap)
    requires HasValid(regs, s) && Keeps(s, t)
    ensures HasValid(regs, t)
  {
    var reg :| reg in regs && ResultOf(s, reg.id).Ok();
    assert Settled(s, reg.id);
  }

  /** A challenge rule that applies to every request and refuses on failure. */
  ghost predicate Guards(rule: Rule)
  {
    rule.handler.Challenge? && !rule.hasCondition && Refuses(rule.handler.fail)
  }

  lemma RuleGate(rule: Rule, e: Env, s: Snap)
    requires Guards(rule) && e.hasBackend(e.host)
    ensures var r := Evaluate(rule, e, s);
      r.next || ReachesBackend(s, r.s) ==> HasValid(rule.handler.regs, r.s)
  {
    var r := Handle(rule.handler, e, s);
    ChallengeGate(rule.handler, e, s);
    HandleAnswers(rule.handler, e, s);
    EvaluateSeqAnswers(rule.children, e, r.s);
    if HasValid(rule.handler.regs, r.s) {
      ValidKept(rule.handler.regs, r.s, EvaluateSeq(rule.children, e, r.s).s);
    }
  }

  /** One of the challenges of the rule is met. */
  predicate Met(rule: Rule, s: Snap)
  {
    rule.handler.Challenge? && HasValid(rule.handler.regs, s)
  }

  /** A request that gets past a row of guarding rules has met at least one challenge of every one of them. */
  lemma {:induction false} ConjunctionOfChecks(rules: seq<Rule>, e: Env, s: Snap)
    requires (forall k :: 0 <= k < |rules| ==> Guards(rules[k])) && e.hasBackend(e.host)
    requires EvaluateSeq(rules, e, s).next
    ensures forall k :: 0 <= k < |rules| ==> Met(rules[k], EvaluateSeq(rules, e, s).s)
  {
    if rules != [] {
      var r := Evaluate(rules[0], e, s);
      RuleGate(rules[0], e, s);
      ConjunctionOfChecks(rules[1..], e, r.s);
      EvaluateSeqAnswers(rules[1..], e, r.s);
      ValidKept(rules[0].handler.regs, r.s, EvaluateSeq(rules[1..], e, r.s).s);
      assert forall k :: 1 <= k < |rules| ==> rules[k] == rules[1..][k - 1];
    }
  }

  /** A guarding check without rules of its own. */
  ghost predicate PlainCheck(rule: Rule)
  {
    Guards(rule) && rule.handler.cont && rule.children == []
  }

  /** Behind a row of checks, whatever rules follow, a backend is reached only with all checks met. */
  lemma BackendOnlyThroughChecks(checks: seq<Rule>, rest: seq<Rule>, e: Env, s: Snap)
    requires forall k :: 0 <= k < |checks| ==> PlainCheck(checks[k])
    requires ReachesBackend(s, HandleRequest(checks + rest, e, s).s)
    ensures forall k :: 0 <= k < |checks| ==> Met(checks[k], HandleRequest(checks + rest, e, s).s)
  {
    if !EvaluateSeq(checks, e, s).next {
      ChecksOnlyRefuse(checks, e, s);
      LaterRulesAreIgnored(checks, rest, e, s);
      assert false;
    } else {
      var t := EvaluateSeq(checks, e, s).s;
      RulesCompose(checks, rest, e, s);
      ConjunctionOfChecks(checks, e, s);
      EvaluateSeqAnswers(rest, e, t);
      HandleAnswers(Pass, e, EvaluateSeq(rest, e, t).s);
      forall k | 0 <= k < |checks| ensures Met(checks[k], HandleRequest(checks + rest, e, s).s) {
        ValidKept(checks[k].handler.regs, t, HandleRequest(checks + rest, e, s).s);
      }
    }
  }

  /** A check that does not let a request go on does not reach a backend either. */
  lemma {:induction false} ChecksOnlyRefuse(rules: seq<Rule>, e: Env, s: Snap)
    requires forall k :: 0 <= k < |rules| ==> PlainCheck(rules[k])
    requires e.hasBackend(e.host) && !EvaluateSeq(rules, e, s).next
    ensures !ReachesBackend(s, EvaluateSeq(rules, e, s).s)
  {
    if rules != [] {
      var h := rules[0].handler;
      var r := Handle(h, e, s);
      CheckDoesNotServe(h, e, s);
      HandleAnswers(h, e, s);
      assert EvaluateSeq(rules[0].children, e, r.s) == Handled(r.s, true, false);
      assert Evaluate(rules[0], e, s) == if r.err then r.(next := false) else r;
      if r.next {
        ChecksOnlyRefuse(rules[1..], e, r.s);
      }
    }
  }

  lemma CheckDoesNotServe(h: Handler, e: Env, s: Snap)
    requires h.Challenge? && h.cont && Refuses(h.fail) && e.hasBackend(e.host)
    ensures !ReachesBackend(s, Handle(h, e, s).s)
  {
    if !HasValid(h.regs, s) {
      CheckIssueDoesNotServe(h, 0, e, s);
    }
  }

  lemma {:induction false} CheckIssueDoesNotServe(h: Handler, i: nat, e: Env, s: Snap)
    requires h.Challenge? && h.cont && Refuses(h.fail) && e.hasBackend(e.host) && i <= |h.regs|
    ensures !ReachesBackend(s, IssueFrom(h, i, e, s).s)
    decreases |h.regs| - i
  {
    if i == |h.regs| {
      RefusesHere(h.fail, e, s);
    } else if Settled(s, h.regs[i].id) {
      CheckIssueDoesNotServe(h, i + 1, e, s);
    } else {
      var reg := h.regs[i];
      var t := IssueOne(e, reg, s);
      var d := Decide(h, reg, e, t);
      IssueOneKeeps(reg, e, s);
      assert !ReachesBackend(s, t);
      if d.None? {
        CheckIssueDoesNotServe(h, i + 1, e, t);
      } else {
        RefusesHere(h.fail, e, t);
        assert !ReachesBackend(t, d.value.s);
      }
    }
  }
}
