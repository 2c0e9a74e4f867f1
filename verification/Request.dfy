/** The request object itself: the methods that update it in place, and what each of them computes. */
module Request {
  import opened Types
  import opened Wrappers
  import opened Keys
  import opened Expiry
  import P = Protocol

  class RequestData {
    const e: P.Env
    var challengeVerify: map<Id, VerifyResult>
    var challengeState: map<Id, VerifyState>
    var challengeMap: P.TokenMap
    var challengeMapModified: bool
    var opts: map<Text, Text>
    var headers: P.Headers
    var rewrites: seq<P.Rewrite>
    var setCookie: Option<P.Cookie>
    var responses: seq<P.Response>
    var issued: seq<Id>
    var given: seq<P.Given>

    ghost function Now(): P.Snap
      reads this
    {
      P.Snap(challengeVerify, challengeState, challengeMap, challengeMapModified, opts, headers, rewrites, setCookie,
             responses, issued, given)
    }

    /** A request before its cookie was looked at. */
    ghost function Fresh(): P.Snap
    {
      P.Snap(map[], map[], map[], false, map[], e.client.headers, [], None, [], [], [])
    }

    constructor (e: P.Env)
      ensures this.e == e
      ensures Now() == Fresh()
    {
      this.e := e;
      challengeVerify, challengeState, challengeMap := map[], map[], map[];
      challengeMapModified, opts, setCookie := false, map[], None;
      headers, rewrites := e.client.headers, [];
      responses, issued, given := [], [], [];
    }

    method ClearChallengeToken(reg: Registration)
      modifies this
      ensures Now() == old(Now()).(tokens := old(challengeMap) - {reg.name}, modified := true)
    {
      challengeMap := challengeMap - {reg.name};
      challengeMapModified := true;
    }

    method IssueChallengeToken(reg: Registration, key: Key, result: Text, until: int, ok: bool)
      modifies this
      ensures Now() == P.StoreToken(reg, P.Token(key, result, ok, Unix(until), 0), old(Now()))
    {
      var token := P.Token(key, result, ok, Unix(until), 0);
      challengeMap := challengeMap[reg.name := token];
      challengeMapModified := true;
      given := given + [P.Given(reg, token, rewrites)];
    }

    method RequestKey(reg: Registration) returns (key: Key)
      ensures key == e.KeyWith(reg, headers)
    {
      key := GetChallengeKeyForRequest(e.server.H, e.server.fingerprint, reg, e.client.(headers := headers),
                                       Unix(e.KeyExpiry(reg)));
    }

    method VerifyChallengeToken(reg: Registration, token: P.Token, expectedKey: Key) returns (v: P.TokenVerdict)
      requires expectedKey == e.KeyFor(reg)
      ensures v == P.VerifyChallengeToken(e, reg, token)
    {
      if FromUnix(token.expiry) < e.now {
        return P.TokenVerdict(ResultFail, StateNone, P.Expired);
      }
      if FromUnix(token.notBefore) > e.now {
        return P.TokenVerdict(ResultFail, StateNone, P.NotYetValid);
      }
      if expectedKey != token.key {
        return P.TokenVerdict(ResultFail, StateNone, P.KeyMismatch);
      }
      if reg.hasVerify {
        if e.spotCheck(reg) {
          var check := e.verify(reg, expectedKey, token.result);
          if check.error != P.NoError {
            return P.TokenVerdict(ResultFail, StateFull, P.SpotCheckFailed);
          } else if check.result == ResultNotOK {
            return P.TokenVerdict(ResultNotOK, StateFull, P.Fine);
          } else if !check.result.Ok() {
            return P.TokenVerdict(check.result, StateFull, P.SpotCheckFailed);
          } else {
            return P.TokenVerdict(check.result, StateFull, P.Fine);
          }
        }
      }
      if !token.ok {
        return P.TokenVerdict(ResultNotOK, StateBrief, P.Fine);
      }
      return P.TokenVerdict(ResultOK, StateBrief, P.Fine);
    }

    method VerifyChallenge(reg: Registration, key: Key) returns (v: P.TokenVerdict)
      requires key == e.KeyFor(reg)
      modifies this
      ensures v == P.VerifyChallenge(e, reg, old(challengeMap)).verdict
      ensures Now() == if P.VerifyChallenge(e, reg, old(challengeMap)).cleared
        then old(Now()).(tokens := old(challengeMap) - {reg.name}, modified := true) else old(Now())
    {
      if reg.name !in challengeMap {
        v := P.TokenVerdict(ResultFail, StateNone, P.Fine);
      } else {
        v := VerifyChallengeToken(reg, challengeMap[reg.name], key);
        if v.error != P.Fine && v.error != P.KeyMismatch {
          ClearChallengeToken(reg);
        }
        if !v.result.Ok() && reg.hasCondition {
          if e.challengeCondition(reg) == P.IsFalse {
            return P.TokenVerdict(ResultSkip, v.state, P.Fine);
          }
        }
      }
      if !v.result.Ok() && e.issuedChallenge == reg.name {
        v := v.(result := ResultSkip);
      }
    }

    method EvaluateChallenges(cookie: P.CookieIn)
      requires Now() == Fresh()
      modifies this
      ensures Now() == P.Started(e, cookie)
    {
      match cookie {
        case NoCookie =>
        case Unreadable => challengeMapModified := true;
        case Readable(c) =>
          if FromUnix(c.expiry) < e.now || FromUnix(c.notBefore) > e.now {
            challengeMapModified := true;
          } else {
            challengeMap := c.tokens;
          }
      }
      assert Now() == P.Loaded(e, cookie);
      EvaluateAll(e.server.challenges);
    }

    /** The loop over the registered challenges. */
    method EvaluateAll(regs: seq<Registration>)
      requires headers == e.client.headers
      modifies this
      ensures Now() == P.EvaluateEach(e, regs, old(Now()))
    {
      ghost var goal := P.EvaluateEach(e, regs, Now());
      var i := 0;
      while i < |regs|
        invariant 0 <= i <= |regs| && headers == e.client.headers
        invariant P.EvaluateEach(e, regs[i..], Now()) == goal
      {
        assert regs[i..][1..] == regs[i + 1..];
        EvaluateOne(regs[i]);
        i := i + 1;
      }
    }

    /** One round of the loop: verdict, clearing, recording. */
    method EvaluateOne(reg: Registration)
      requires headers == e.client.headers
      modifies this
      ensures Now() == P.EvaluateOne(e, reg, old(Now()))
    {
      var key := RequestKey(reg);
      var v := VerifyChallenge(reg, key);
      if v.error != P.Fine {
        ClearChallengeToken(reg);
      }
      challengeVerify := challengeVerify[reg.id := v.result];
      challengeState := challengeState[reg.id := v.state];
    }

    /** Sends the cookie again when the tokens changed. */
    method ResponseHeaders()
      modifies this
      ensures Now() == P.EmitHeaders(e, old(Now()))
    {
      if challengeMapModified {
        var expiration := Expiration(e.time, DEFAULT_DURATION);
        setCookie := Some(P.Cookie(challengeMap, Unix(expiration), Unix(e.now - DAY)));
      }
    }

    method Write(r: P.Response)
      modifies this
      ensures Now() == P.Write(old(Now()), r)
    {
      responses := responses + [r];
    }

    /** Cleans the request up; false stands for the empty backend, which answers nothing. */
    method Done() returns (usable: bool)
      modifies this
      ensures Now() == P.Done(e, old(Now()))
      ensures usable <==> !(P.Opt(old(Now()), P.BACKEND_HOST) != [] && P.Opt(old(Now()), P.BACKEND_HOST) != e.host
                            && !e.hasBackend(e.host))
    {
      ResponseHeaders();
      var opt := if P.BACKEND_HOST in opts then opts[P.BACKEND_HOST] else [];
      if opt != [] && opt != e.host {
        if !e.hasBackend(e.host) {
          Write(P.Unavailable);
          return false;
        }
      }
      return true;
    }

    method IssueChallenge(reg: Registration, key: Key, expiry: int) returns (result: VerifyResult)
      requires key == e.KeyWith(reg, headers) && expiry == e.KeyExpiry(reg)
      modifies this
      ensures result == e.issue(reg, old(Now())).result
      ensures Now() == P.Executed(e, reg, old(Now()))
    {
      var i := e.issue(reg, P.Snap(challengeVerify, challengeState, challengeMap, challengeMapModified, opts, headers,
                                   rewrites, setCookie, responses, issued, given));
      if i.token.Some? {
        IssueChallengeToken(reg, key, i.token.value.result, expiry, i.token.value.ok);
      }
      if reg.cls.Blocking? && i.result.ResultNone? {
        ResponseHeaders();
        Write(P.ChallengePage(reg.id));
      }
      result := i.result;
    }

    method HandleAction(h: P.Handler) returns (next: bool, err: bool)
      modifies this
      ensures P.Handled(Now(), next, err) == P.Handle(h, e, old(Now()))
      decreases h, 3
    {
      match h
      case Pass =>
        var usable := Done();
        if usable {
          Write(P.Backend(e.host));
        }
        return false, false;
      case Proxy(backend) =>
        if !e.hasBackend(backend) {
          return false, true;
        }
        var _ := Done();
        Write(P.Backend(backend));
        return false, false;
      case Deny =>
        ResponseHeaders();
        Write(P.ErrorPage(403));
        return false, false;
      case Block =>
        ResponseHeaders();
        Write(P.Blocked);
        return false, false;
      case Code(code) =>
        ResponseHeaders();
        Write(P.Coded(code));
        return false, false;
      case Drop =>
        Write(P.Dropped);
        return false, false;
      case NoAction =>
        return true, false;
      case Context(settings, requestHeaders) =>
        SetContext(settings, requestHeaders);
        return true, false;
      case Challenge(cont, regs, pass, fail) =>
        next, err := HandleChallenge(h);
    }

    /** The loop over the header settings; each removes the values there are and adds its own. */
    method SetContext(settings: map<Text, Text>, requestHeaders: seq<P.Rewrite>)
      modifies this
      ensures Now() == P.SetContext(old(Now()), settings, requestHeaders)
    {
      opts := opts + settings;
      var i := 0;
      while i < |requestHeaders|
        invariant i <= |requestHeaders|
        invariant P.Rewritten(headers, requestHeaders[i..]) == P.Rewritten(old(headers), requestHeaders)
        invariant Now().(headers := old(headers)) == old(Now()).(opts := opts)
        invariant opts == old(opts) + settings
      {
        assert requestHeaders[i..][1..] == requestHeaders[i + 1..];
        var (name, values) := requestHeaders[i];
        ghost var before := headers;
        headers := headers[name := []];
        AddValues(name, values);
        assert headers == before[name := values];
        i := i + 1;
      }
      rewrites := rewrites + requestHeaders;
    }

    /** `http.Header.Add` of each value. */
    method AddValues(name: Text, values: seq<Text>)
      requires name in headers && headers[name] == []
      modifies this`headers
      ensures headers == old(headers)[name := values]
    {
      var i := 0;
      while i < |values|
        invariant i <= |values| && headers == old(headers)[name := values[..i]]
      {
        assert values[..i + 1] == values[..i] + [values[i]];
        headers := headers[name := headers[name] + [values[i]]];
        i := i + 1;
      }
      assert values[..|values|] == values;
    }

    method HandleChallenge(h: P.Handler) returns (next: bool, err: bool)
      requires h.Challenge?
      modifies this
      ensures P.Handled(Now(), next, err) == P.Handle(h, e, old(Now()))
      decreases h, 2
    {
      ghost var start := Now();
      var i := 0;
      while i < |h.regs|
        invariant 0 <= i <= |h.regs|
        invariant Now() == start
        invariant forall k :: 0 <= k < i ==> !P.ResultOf(start, h.regs[k].id).Ok()
      {
        var reg := h.regs[i];
        if reg.id in challengeVerify && challengeVerify[reg.id].Ok() {
          assert P.HasValid(h.regs, start);
          if e.cleansQuery {
            ResponseHeaders();
            Write(P.Redirected);
            return false, false;
          }
          if h.cont {
            return true, false;
          }
          next, err := HandleAction(h.pass);
          return;
        }
        i := i + 1;
      }
      next, err := IssueChallenges(h);
    }

    /** The second pass: issue the challenges in order until one of them decides. */
    method IssueChallenges(h: P.Handler) returns (next: bool, err: bool)
      requires h.Challenge?
      modifies this
      ensures P.Handled(Now(), next, err) == P.IssueFrom(h, 0, e, old(Now()))
      decreases h, 1
    {
      ghost var goal := P.IssueFrom(h, 0, e, Now());
      var i := 0;
      while i < |h.regs|
        invariant 0 <= i <= |h.regs|
        invariant P.IssueFrom(h, i, e, Now()) == goal
      {
        var reg := h.regs[i];
        var result := if reg.id in challengeVerify then challengeVerify[reg.id] else ResultNone;
        var state := if reg.id in challengeState then challengeState[reg.id] else StateNone;
        if result.Ok() || result == ResultSkip || state == StatePass {
          i := i + 1;
          continue;
        }
        result := IssueAndRecord(reg);
        var decided;
        decided, next, err := Decide(h, reg, result);
        if decided {
          return;
        }
        i := i + 1;
      }
      next, err := HandleAction(h.fail);
    }

    /** The switch on the result of an issuing. */
    method Decide(h: P.Handler, reg: Registration, result: VerifyResult) returns (decided: bool, next: bool, err: bool)
      requires h.Challenge? && result == P.ResultOf(Now(), reg.id)
      modifies this
      ensures decided <==> P.Decide(h, reg, e, old(Now())).Some?
      ensures decided ==> P.Handled(Now(), next, err) == P.Decide(h, reg, e, old(Now())).value
      ensures !decided ==> Now() == old(Now())
      decreases h, 0
    {
      next, err := false, false;
      match result
      case ResultOK =>
        if h.cont {
          return true, true, false;
        }
        next, err := HandleAction(h.pass);
        return true, next, err;
      case ResultNotOK =>
        return false, false, false;
      case ResultFail =>
        if reg.cls == Transparent {
          return false, false, false;
        }
        next, err := HandleAction(h.fail);
        return true, next, err;
      case ResultNone =>
        if reg.cls == Transparent {
          return false, false, false;
        }
        return true, false, false;
      case ResultSkip =>
        return false, false, false;
    }

    method IssueAndRecord(reg: Registration) returns (result: VerifyResult)
      modifies this
      ensures Now() == P.IssueOne(e, reg, old(Now()))
      ensures result == P.ResultOf(Now(), reg.id)
    {
      var expiry := e.KeyExpiry(reg);
      var key := RequestKey(reg);
      result := IssueChallenge(reg, key, expiry);
      challengeVerify := challengeVerify[reg.id := result];
      challengeState := challengeState[reg.id := StatePass];
      issued := issued + [reg.id];
    }

    method EvaluateRule(rule: P.Rule) returns (next: bool, err: bool)
      modifies this
      ensures P.Handled(Now(), next, err) == P.Evaluate(rule, e, old(Now()))
      decreases rule
    {
      var out := P.IsTrue;
      if rule.hasCondition {
        out := e.ruleCondition(rule, P.Snap(challengeVerify, challengeState, challengeMap, challengeMapModified, opts,
                                            headers, rewrites, setCookie, responses, issued, given));
      }
      if out == P.Failed {
        return false, true;
      } else if out == P.IsTrue {
        ghost var start := Now();
        next, err := HandleAction(rule.handler);
        if err {
          return false, true;
        }
        if !next {
          return false, false;
        }
        var i := 0;
        while i < |rule.children|
          invariant 0 <= i <= |rule.children|
          invariant P.EvaluateSeq(rule.children[i..], e, Now()) == P.Evaluate(rule, e, start)
        {
          assert rule.children[i..][1..] == rule.children[i + 1..];
          next, err := EvaluateRule(rule.children[i]);
          if err {
            return false, true;
          }
          if !next {
            return false, false;
          }
          i := i + 1;
        }
      } else if out == P.NotBool {
        return false, true;
      }
      return true, false;
    }

    /** Serves the request; true when it panicked after its error page. */
    method HandleRequest(rules: seq<P.Rule>) returns (panicked: bool)
      modifies this
      ensures Now() == P.HandleRequest(rules, e, old(Now())).s
      ensures panicked == P.HandleRequest(rules, e, old(Now())).err
    {
      if !e.hasBackend(e.host) {
        Write(P.Unavailable);
        return false;
      }
      ghost var start := Now();
      var i := 0;
      while i < |rules|
        invariant 0 <= i <= |rules|
        invariant P.EvaluateSeq(rules[i..], e, Now()) == P.EvaluateSeq(rules, e, start)
      {
        assert rules[i..][1..] == rules[i + 1..];
        var next, err := EvaluateRule(rules[i]);
        if err {
          ResponseHeaders();
          Write(P.ErrorPage(500));
          return true;
        }
        if !next {
          return false;
        }
        i := i + 1;
      }
      var _, _ := HandleAction(P.Pass);
      return false;
    }

    method HandleVerify(reg: Registration, token: Option<Text>)
      modifies this
      ensures Now() == P.HandleVerify(reg, token, e, old(Now()))
    {
      if token.None? {
        ResponseHeaders();
        Write(P.ErrorPage(400));
        return;
      }
      var key := RequestKey(reg);
      var check := e.verify(reg, key, token.value);
      if check.error != P.NoError {
        ResponseHeaders();
        Write(if check.error == P.HappyEyeballs then P.Redirected else P.ErrorPage(400));
        return;
      } else if !check.result.Ok() {
        ResponseHeaders();
        Write(P.ErrorPage(403));
        return;
      }
      IssueChallengeToken(reg, key, token.value, e.KeyExpiry(reg), true);
      challengeVerify := challengeVerify[reg.id := check.result];
      ResponseHeaders();
      Write(P.Redirected);
    }

    /** `RequestHeaders`: the stamps of the passed challenges; None stands for a panic. */
    method RequestHeaders() returns (stamps: Option<map<Id, string>>)
      ensures stamps.None? <==>
        exists id :: id in challengeVerify && challengeVerify[id].Ok() && !P.Stampable(e, Now(), id)
      ensures stamps.Some? ==>
        && (forall id :: id in stamps.value <==> id in challengeVerify && challengeVerify[id].Ok())
        && (forall id :: id in stamps.value ==> P.StateOf(Now(), id).Header() == Some(stamps.value[id]))
    {
      var ids := challengeVerify.Keys;
      var headers: map<Id, string> := map[];
      while ids != {}
        invariant ids <= challengeVerify.Keys
        invariant forall id :: id in headers <==> id in challengeVerify && id !in ids && challengeVerify[id].Ok()
        invariant forall id :: id in headers ==>
          P.Stampable(e, Now(), id) && P.StateOf(Now(), id).Header() == Some(headers[id])
        decreases ids
      {
        HasMember(ids);
        var id :| id in ids;
        ids := ids - {id};
        if challengeVerify[id].Ok() {
          if !(exists k :: 0 <= k < |e.server.challenges| && e.server.challenges[k].id == id) {
            return None;
          }
          var text := (if id in challengeState then challengeState[id] else StateNone).Header();
          if text.None? {
            return None;
          }
          headers := headers[id := text.value];
        }
      }
      return Some(headers);
    }
  }
}
