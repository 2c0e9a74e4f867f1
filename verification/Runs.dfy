/**
  Runs of requests: for clients that send back the latest cookie what was passed stays
  passed, and whatever cookies anyone sends nothing is passed that was not earned
  (lib/challenge/data.go, lib/challenge/helper.go, lib/http.go).
 */
module Runs {
  import opened Types
  import opened Wrappers
  import opened Expiry
  import opened Keys
  import opened Protocol
  import opened Ledger
  import opened Contexts

  /** What a request is routed to: the rules, a challenge's verify endpoint, or pages with and without headers of ours. */
  datatype Action = Browse(rules: seq<Rule>) | Verify(reg: Registration, token: Option<Text>) | Page | Asset

  datatype Step = Step(e: Env, action: Action)

  function Served(st: Step, c: CookieIn): Snap
  {
    var s := Started(st.e, c);
    match st.action
    case Browse(rules) => HandleRequest(rules, st.e, s).s
    case Verify(reg, token) => HandleVerify(reg, token, st.e, s)
    case Page => Respond(st.e, s, OtherPage)
    case Asset => Write(s, OtherPage)
  }

  /** The client keeps the cookie it was last given. */
  function NextCookie(st: Step, c: CookieIn): CookieIn
  {
    var out := Served(st, c).setCookie;
    if out.Some? then Readable(out.value) else c
  }

  function CookieAfter(steps: seq<Step>, c: CookieIn): CookieIn
  {
    if steps == [] then c
    else NextCookie(steps[|steps| - 1], CookieAfter(steps[..|steps| - 1], c))
  }

  /** The step serves a register with unique names and uses only what is in it. */
  ghost predicate WellFormed(st: Step)
  {
    && WellRegistered(st.e.server.challenges)
    && FromUnix(0) <= st.e.now
    && match st.action
       case Browse(rules) => RulesUseOnly(rules, st.e.server.challenges)
       case Verify(reg, token) => reg in st.e.server.challenges
       case Page => true
       case Asset => true
  }

  lemma ServedIsBooked(st: Step, c: CookieIn)
    requires WellFormed(st)
    ensures Booked(st.e, Started(st.e, c), Served(st, c))
  {
    var s := Started(st.e, c);
    StartIsReached(st.e, c);
    match st.action
    case Browse(rules) => RequestReached(rules, st.e, c);
    case Verify(reg, token) =>
      EvaluateEachFrame(st.e, st.e.server.challenges, Loaded(st.e, c));
      VerifyBooked(reg, token, st.e, s);
    case Page => RespondBooked(st.e, s, s, OtherPage);
    case Asset => RespondBooked(st.e, s, s, OtherPage);
  }

  // ------------------------------------------------------------- a pass stays a pass

  /** The token a pass of the challenge leaves at any time of window k. */
  predicate IsPass(token: Token, e: Env, reg: Registration)
  {
    && token.ok && token.key == e.KeyFor(reg) && token.notBefore == 0
    && token.expiry == Unix(e.KeyExpiry(reg))
  }

  /** The cookie holds a pass, was sent at some time of window k, and was valid by `clock`. */
  ghost predicate Carries(c: CookieIn, e: Env, reg: Registration, k: int, clock: int)
  {
    && c.Readable? && reg.name in c.cookie.tokens && IsPass(c.cookie.tokens[reg.name], e, reg)
    && (exists u: int :: InWindow(u, reg.duration, k) && c.cookie.expiry == Unix(Expiration(u, DEFAULT_DURATION)))
    && FromUnix(c.cookie.notBefore) <= clock
  }

  /** The requests of one client to one server during window k of a challenge that is not spot-checked. */
  ghost predicate InRun(st: Step, server: Server, client: Client, reg: Registration, k: int, clock: int)
  {
    && WellFormed(st) && st.e.server == server && SameClient(st.e.client, client, reg) && reg in server.challenges
    && InWindow(st.e.time, reg.duration, k) && InWindow(st.e.now, reg.duration, k) && clock <= st.e.now
    && !st.e.spotCheck(reg)
  }

  /** Inside one window the key and the expiry of a challenge do not depend on the request. */
  lemma OneKeyPerWindow(e: Env, f: Env, reg: Registration, k: int)
    requires reg.duration > 0 && InWindow(e.time, reg.duration, k) && InWindow(f.time, reg.duration, k)
    requires e.server == f.server && SameClient(e.client, f.client, reg)
    ensures e.KeyExpiry(reg) == f.KeyExpiry(reg) && e.KeyFor(reg) == f.KeyFor(reg)
  {
    ExpirationInWindow(e.time, reg.duration, k);
    ExpirationInWindow(f.time, reg.duration, k);
    SameClientSameKey(e.server.H, e.server.fingerprint, reg, e.client, f.client, Unix(e.KeyExpiry(reg)));
    assert e.client.(headers := e.client.headers) == e.client && f.client.(headers := f.client.headers) == f.client;
  }

  /** A carried pass stands at every request of its window. */
  lemma CarriedPassStands(st: Step, c: CookieIn, reg: Registration, k: int, clock: int)
    requires InRun(st, st.e.server, st.e.client, reg, k, clock) && Covered(reg.duration)
    requires Carries(c, st.e, reg, k, clock)
    ensures ResultOf(Started(st.e, c), reg.id) == ResultOK && StateOf(Started(st.e, c), reg.id) == StateBrief
    ensures reg.name in Started(st.e, c).tokens && IsPass(Started(st.e, c).tokens[reg.name], st.e, reg)
  {
    var u: int :| InWindow(u, reg.duration, k) && c.cookie.expiry == Unix(Expiration(u, DEFAULT_DURATION));
    CookieOutlivesWindow(u, st.e.now, reg.duration);
    TokenOutlivesExactly(reg.duration, if st.e.time < st.e.now then st.e.time else st.e.now);
    assert !TokenLost(st.e.time, st.e.now, reg.duration);
    StartedPoint(st.e, c, reg);
  }

  /** A challenge that is passed at the start is not given a token by the rules. */
  lemma PassedIsNotGiven(rules: seq<Rule>, e: Env, c: CookieIn, reg: Registration, g: Given)
    requires RulesUseOnly(rules, e.server.challenges) && ResultOf(Started(e, c), reg.id).Ok()
    ensures g in HandleRequest(rules, e, Started(e, c)).s.given ==> g.reg != reg
  {
    var t := HandleRequest(rules, e, Started(e, c)).s;
    RequestReached(rules, e, c);
    if g in t.given {
      var k :| 0 <= k < |t.given| && t.given[k] == g;
      var j :| 0 <= j < |t.issued| && t.issued[j] == g.reg.id;
      assert !Settled(Started(e, c), t.issued[j]);
    }
  }

  /** A token written by a step was given by it, bound as it should be. */
  lemma WrittenIsGiven(st: Step, c: CookieIn, name: Text, token: Token) returns (g: Given)
    requires WellFormed(st) && Wrote(Served(st, c).given, name, token)
    ensures g in Served(st, c).given && g.reg.name == name && g.token == token && WellGiven(st.e, g)
  {
    ServedIsBooked(st, c);
    var given := Served(st, c).given;
    var i :| 0 <= i < |given| && given[i].reg.name == name && given[i].token == token;
    g := given[i];
  }

  /** Only the verify endpoint gives a token to a challenge that is passed, and that is a passed one. */
  lemma GivenAgain(st: Step, c: CookieIn, g: Given)
    requires WellFormed(st) && g.reg in st.e.server.challenges && ResultOf(Started(st.e, c), g.reg.id).Ok()
    requires g in Served(st, c).given
    ensures g.token.ok && g.rewrites == []
  {
    var s := Started(st.e, c);
    EvaluateEachFrame(st.e, st.e.server.challenges, Loaded(st.e, c));
    if st.action.Browse? {
      PassedIsNotGiven(st.action.rules, st.e, c, g.reg, g);
    } else if st.action.Verify? {
      StartIsReached(st.e, c);
      VerifyBooked(st.action.reg, st.action.token, st.e, s);
    }
  }

  /** What a step leaves for the name of a passed challenge is again a pass. */
  lemma GivenIsPass(st: Step, c: CookieIn, reg: Registration, token: Token)
    requires WellFormed(st) && reg in st.e.server.challenges && ResultOf(Started(st.e, c), reg.id).Ok()
    requires Wrote(Served(st, c).given, reg.name, token)
    ensures IsPass(token, st.e, reg)
  {
    var g := WrittenIsGiven(st, c, reg.name, token);
    NameIsReg(st.e, g, reg);
    GivenAgain(st, c, g);
  }

  /** A well given token of a registered name belongs to the challenge of that name. */
  lemma NameIsReg(e: Env, g: Given, reg: Registration)
    requires WellRegistered(e.server.challenges) && reg in e.server.challenges && WellGiven(e, g) && g.reg.name == reg.name
    ensures g.reg == reg
  {
    var a :| 0 <= a < |e.server.challenges| && e.server.challenges[a] == reg;
    var b :| 0 <= b < |e.server.challenges| && e.server.challenges[b] == g.reg;
  }

  lemma PassIsCarriedOn(st: Step, c: CookieIn, reg: Registration, k: int, clock: int)
    requires InRun(st, st.e.server, st.e.client, reg, k, clock) && Covered(reg.duration)
    requires Carries(c, st.e, reg, k, clock)
    ensures Carries(NextCookie(st, c), st.e, reg, k, st.e.now)
  {
    CarriedPassStands(st, c, reg, k, clock);
    ServedIsBooked(st, c);
    var s, t := Started(st.e, c), Served(st, c);
    if t.setCookie.Some? {
      var m := t.setCookie.value.tokens;
      assert reg.name in m;
      if m[reg.name] != s.tokens[reg.name] {
        GivenIsPass(st, c, reg, m[reg.name]);
      }
    }
  }

  /** The time of the run after some steps. */
  function ClockAfter(steps: seq<Step>, clock: int): int
  {
    if steps == [] then clock else steps[|steps| - 1].e.now
  }

  ghost predicate Run(steps: seq<Step>, server: Server, client: Client, reg: Registration, k: int, clock: int)
  {
    forall i :: 0 <= i < |steps| ==> InRun(steps[i], server, client, reg, k, ClockAfter(steps[..i], clock))
  }

  /** The last step of a run is in it with its own client. */
  lemma LastOfRun(steps: seq<Step>, last: Step, reg: Registration, k: int, clock: int)
    requires Run(steps + [last], last.e.server, last.e.client, reg, k, clock)
    ensures InRun(last, last.e.server, last.e.client, reg, k, ClockAfter(steps, clock))
  {
    var all := steps + [last];
    assert all[|steps|] == last && all[..|steps|] == steps;
  }

  /** All but the last step are a run of the client of the step before it. */
  lemma RunOfFirst(steps: seq<Step>, last: Step, reg: Registration, k: int, clock: int)
    requires Run(steps + [last], last.e.server, last.e.client, reg, k, clock) && steps != []
    ensures var st := steps[|steps| - 1];
      && Run(steps, st.e.server, st.e.client, reg, k, clock)
      && st.e.server == last.e.server && SameClient(st.e.client, last.e.client, reg)
      && InWindow(st.e.time, reg.duration, k)
  {
    var all, st := steps + [last], steps[|steps| - 1];
    assert all[|steps| - 1] == st;
    assert InRun(all[|steps| - 1], last.e.server, last.e.client, reg, k, ClockAfter(all[..|steps| - 1], clock));
    forall i | 0 <= i < |steps|
      ensures InRun(steps[i], st.e.server, st.e.client, reg, k, ClockAfter(steps[..i], clock))
    {
      assert steps[i] == all[i] && steps[..i] == all[..i];
      assert InRun(all[i], last.e.server, last.e.client, reg, k, ClockAfter(all[..i], clock));
    }
  }

  /** What a cookie carries does not depend on the request of the window. */
  lemma CarriesForAll(c: CookieIn, e: Env, f: Env, reg: Registration, k: int, clock: int)
    requires reg.duration > 0 && InWindow(e.time, reg.duration, k) && InWindow(f.time, reg.duration, k)
    requires e.server == f.server && SameClient(e.client, f.client, reg)
    ensures Carries(c, e, reg, k, clock) <==> Carries(c, f, reg, k, clock)
  {
    OneKeyPerWindow(e, f, reg, k);
  }

  /** The pass is carried along a whole run. */
  lemma {:induction false} CarriesAlong(steps: seq<Step>, last: Step, c: CookieIn, reg: Registration, k: int, clock: int)
    requires Covered(reg.duration)
    requires Run(steps + [last], last.e.server, last.e.client, reg, k, clock)
    requires Carries(c, last.e, reg, k, clock)
    ensures Carries(CookieAfter(steps, c), last.e, reg, k, ClockAfter(steps, clock))
    decreases |steps|
  {
    if steps != [] {
      var init, st := steps[..|steps| - 1], steps[|steps| - 1];
      assert steps == init + [st];
      LastOfRun(steps, last, reg, k, clock);
      RunOfFirst(steps, last, reg, k, clock);
      CarriesForAll(c, st.e, last.e, reg, k, clock);
      CarriesAlong(init, st, c, reg, k, clock);
      LastOfRun(init, st, reg, k, clock);
      PassIsCarriedOn(st, CookieAfter(init, c), reg, k, ClockAfter(init, clock));
      CarriesForAll(CookieAfter(steps, c), st.e, last.e, reg, k, st.e.now);
    }
  }

  /**
    A challenge passed in a window stays OK at every later request of that window, whatever else is
    asked, issued or cleared in between.
   */
  lemma PassLastsItsWindow(steps: seq<Step>, last: Step, c: CookieIn, reg: Registration, k: int, clock: int)
    requires Covered(reg.duration)
    requires Run(steps + [last], last.e.server, last.e.client, reg, k, clock)
    requires Carries(c, last.e, reg, k, clock)
    ensures ResultOf(Started(last.e, CookieAfter(steps, c)), reg.id) == ResultOK
    ensures Carries(CookieAfter(steps, c), last.e, reg, k, ClockAfter(steps, clock))
  {
    CarriesAlong(steps, last, c, reg, k, clock);
    LastOfRun(steps, last, reg, k, clock);
    CarriedPassStands(last, CookieAfter(steps, c), reg, k, ClockAfter(steps, clock));
  }

  /** Passing at the verify endpoint leaves a cookie that carries the pass. */
  lemma VerifyingPasses(st: Step, c: CookieIn, k: int)
    requires WellFormed(st) && st.action.Verify? && st.action.token.Some?
    requires st.e.verify(st.action.reg, st.e.KeyFor(st.action.reg), st.action.token.value) == Check(ResultOK, NoError)
    requires InWindow(st.e.time, st.action.reg.duration, k)
    ensures Carries(NextCookie(st, c), st.e, st.action.reg, k, st.e.now)
  {
    var t := Served(st, c);
    EvaluateEachFrame(st.e, st.e.server.challenges, Loaded(st.e, c));
    assert t.setCookie.Some? && t.setCookie.value.tokens == t.tokens;
    assert FromUnix(Unix(st.e.now - DAY)) <= st.e.now;
  }

  /**
    What was passed at the verify endpoint is still passed at a later request of the window exactly
    when neither its token nor its cookie has run out by then.
   */
  lemma PassStandsIff(st: Step, c: CookieIn, f: Env, k: int)
    requires WellFormed(st) && st.action.Verify? && st.action.token.Some?
    requires st.e.verify(st.action.reg, st.e.KeyFor(st.action.reg), st.action.token.value) == Check(ResultOK, NoError)
    requires f.server == st.e.server && SameClient(f.client, st.e.client, st.action.reg) && !f.spotCheck(st.action.reg)
    requires InWindow(st.e.time, st.action.reg.duration, k)
    requires InWindow(f.time, st.action.reg.duration, k) && InWindow(f.now, st.action.reg.duration, k)
    requires st.action.reg.duration > 0 && st.e.time <= st.e.now <= f.now
    ensures ResultOf(Started(f, NextCookie(st, c)), st.action.reg.id).Ok() <==>
      !TokenLost(st.e.time, f.now, st.action.reg.duration) && !CookieLost(st.e.time, f.now, st.action.reg.duration)
  {
    var reg := st.action.reg;
    var t, next := Served(st, c), NextCookie(st, c);
    EvaluateEachFrame(st.e, st.e.server.challenges, Loaded(st.e, c));
    assert next == Readable(Cookie(t.tokens, Unix(Expiration(st.e.time, DEFAULT_DURATION)), Unix(st.e.now - DAY)));
    assert t.tokens[reg.name] == Token(st.e.KeyFor(reg), st.action.token.value, true, Unix(st.e.KeyExpiry(reg)), 0);
    OneKeyPerWindow(st.e, f, reg, k);
    PassedIffTokenStands(f, next, reg);
  }

  // ------------------------------------------------------------- a pass is earned

  /** A request and the cookie that comes with it, which need not be the latest one. */
  datatype Visit = Visit(st: Step, sent: CookieIn)

  function Answer(v: Visit): Snap { Served(v.st, v.sent) }

  /** The visit was answered with this cookie. */
  predicate Sets(v: Visit, cookie: Cookie) { Answer(v).setCookie == Some(cookie) }

  /** Whoever sends it, a cookie that opens was set by some earlier visit: only the server makes them. */
  ghost predicate Sendable(visits: seq<Visit>, c: CookieIn)
  {
    c.Readable? ==> exists j :: 0 <= j < |visits| && Sets(visits[j], c.cookie)
  }

  ghost predicate History(visits: seq<Visit>)
  {
    forall i :: 0 <= i < |visits| ==> WellFormed(visits[i].st) && Sendable(visits[..i], visits[i].sent)
  }

  /**
    A token given at the verify endpoint is what the client sent there, and its verification returned
    OK; any other was stored by executing the challenge.
   */
  ghost predicate Genuine(v: Visit, g: Given)
  {
    match v.st.action
    case Verify(reg, token) =>
      g.reg == reg && g.token.ok && token == Some(g.token.result) &&
      v.st.e.verify(reg, v.st.e.KeyFor(reg), g.token.result) == Check(ResultOK, NoError)
    case Browse(_) => WasIssued(v.st.e, g)
    case Page => false
    case Asset => false
  }

  lemma GivenIsGenuine(v: Visit, g: Given)
    requires WellFormed(v.st) && g in Answer(v).given
    ensures Genuine(v, g)
  {
    var s := Started(v.st.e, v.sent);
    EvaluateEachFrame(v.st.e, v.st.e.server.challenges, Loaded(v.st.e, v.sent));
    if v.st.action.Browse? {
      RequestReached(v.st.action.rules, v.st.e, v.sent);
      var k :| 0 <= k < |Answer(v).given| && Answer(v).given[k] == g;
    } else if v.st.action.Verify? {
      StartIsReached(v.st.e, v.sent);
      VerifyBooked(v.st.action.reg, v.st.action.token, v.st.e, s);
      VerifyGivesIff(v.st.action.reg, v.st.action.token, v.st.e, s);
    }
  }

  /** The visit gave this token to the challenge of this name. */
  ghost predicate Gave(v: Visit, g: Given, name: Text, token: Token)
  {
    g in Answer(v).given && g.reg.name == name && g.token == token && Genuine(v, g)
  }

  ghost predicate Earned(visits: seq<Visit>, name: Text, token: Token)
  {
    exists i, g :: 0 <= i < |visits| && Gave(visits[i], g, name, token)
  }

  lemma EarnedBefore(visits: seq<Visit>, n: nat, name: Text, token: Token)
    requires n <= |visits| && Earned(visits[..n], name, token)
    ensures Earned(visits, name, token)
  {
    var i, g :| 0 <= i < |visits[..n]| && Gave(visits[..n][i], g, name, token);
    assert Gave(visits[i], g, name, token);
  }

  /** Every token in a cookie set by a visit was there when it began, or it was given in it. */
  lemma TokenOfVisit(v: Visit, cookie: Cookie, name: Text)
    requires WellFormed(v.st) && Sets(v, cookie) && name in cookie.tokens
    ensures (v.sent.Readable? && name in v.sent.cookie.tokens && v.sent.cookie.tokens[name] == cookie.tokens[name])
         || exists g :: Gave(v, g, name, cookie.tokens[name])
  {
    var s, t := Started(v.st.e, v.sent), Answer(v);
    ServedIsBooked(v.st, v.sent);
    EvaluateEachFrame(v.st.e, v.st.e.server.challenges, Loaded(v.st.e, v.sent));
    if Wrote(t.given, name, cookie.tokens[name]) {
      var k :| 0 <= k < |t.given| && t.given[k].reg.name == name && t.given[k].token == cookie.tokens[name];
      GivenIsGenuine(v, t.given[k]);
      assert Gave(v, t.given[k], name, cookie.tokens[name]);
    } else {
      assert name in s.tokens && s.tokens[name] == cookie.tokens[name];
    }
  }

  /** Whatever cookies are sent back, replayed or left out, every token in one that opens was given by some visit. */
  lemma {:induction false} TokensAreEarned(visits: seq<Visit>, c: CookieIn, name: Text)
    requires History(visits) && Sendable(visits, c) && c.Readable? && name in c.cookie.tokens
    ensures Earned(visits, name, c.cookie.tokens[name])
    decreases |visits|
  {
    var j :| 0 <= j < |visits| && Sets(visits[j], c.cookie);
    var v, token := visits[j], c.cookie.tokens[name];
    TokenOfVisit(v, c.cookie, name);
    if g :| Gave(v, g, name, token) {
    } else {
      assert History(visits[..j]) by {
        assert forall i :: 0 <= i < j ==> visits[..j][i] == visits[i] && visits[..j][..i] == visits[..i];
      }
      TokensAreEarned(visits[..j], v.sent, name);
      EarnedBefore(visits, j, name, token);
    }
  }

  /** The client as a visit saw it when it gave the token: with the headers its CONTEXT actions had set. */
  function Seen(e: Env, g: Given): Client { WithHeaders(e.client, g.rewrites) }

  ghost predicate HashCollided(e: Env, g: Given, f: Env)
  {
    Collision(e.server.H,
              RequestPreimage(g.reg, Seen(e, g), Unix(e.KeyExpiry(g.reg)), e.server.fingerprint),
              RequestPreimage(g.reg, f.client, Unix(f.KeyExpiry(g.reg)), f.server.fingerprint))
  }

  /** The visits of any clients to the server of e, with requests whose keys are well separated. */
  ghost predicate HistoryOf(visits: seq<Visit>, e: Env, reg: Registration)
  {
    && History(visits) && WellRegistered(e.server.challenges) && reg in e.server.challenges
    && CleanRequest(reg, e.client, Unix(e.KeyExpiry(reg)))
    && forall i :: 0 <= i < |visits| ==>
         visits[i].st.e.server == e.server &&
         forall g :: g in Answer(visits[i]).given && g.reg == reg ==>
           CleanRequest(reg, Seen(visits[i].st.e, g), Unix(visits[i].st.e.KeyExpiry(reg)))
  }

  /** The visit gave the challenge a token that stands now, in its window, to a client seen as this one is. */
  ghost predicate EarnedAt(v: Visit, g: Given, e: Env, reg: Registration)
  {
    && g in Answer(v).given && g.reg == reg && Genuine(v, g) && TokenStands(e, reg, g.token)
    && ((SameWindow(v.st.e.time, e.time, reg.duration) && SameClient(Seen(v.st.e, g), e.client, reg))
        || HashCollided(v.st.e, g, e))
  }

  /**
    A challenge that is OK at the start of a request was given a token at an earlier visit, in the
    same window of the challenge and to the same network with the same bound headers as the rules had
    left them when it was given; anything else exhibits a hash collision. This holds whatever cookies
    clients replay, mix up or leave out.
   */
  lemma PassIsEarned(visits: seq<Visit>, e: Env, c: CookieIn, reg: Registration)
    requires HistoryOf(visits, e, reg) && Sendable(visits, c) && reg.duration >= SECOND
    requires ResultOf(Started(e, c), reg.id).Ok()
    ensures exists i, g :: 0 <= i < |visits| && EarnedAt(visits[i], g, e, reg)
  {
    PassedIffTokenStands(e, c, reg);
    TokensAreEarned(visits, c, reg.name);
    var token := c.cookie.tokens[reg.name];
    var i, g :| 0 <= i < |visits| && Gave(visits[i], g, reg.name, token);
    GivenIsBound(visits[i], g, e, reg);
    EqualKeysMeanSamePass(visits[i].st.e, g, e);
    assert EarnedAt(visits[i], g, e, reg);
  }

  lemma GivenIsBound(v: Visit, g: Given, e: Env, reg: Registration)
    requires WellFormed(v.st) && v.st.e.server == e.server && reg in e.server.challenges
    requires g in Answer(v).given && g.reg.name == reg.name
    ensures g.reg == reg && g.token.key == KeySeen(v.st.e, g)
  {
    ServedIsBooked(v.st, v.sent);
    var given := Answer(v).given;
    var j :| 0 <= j < |given| && given[j] == g;
    assert WellGiven(v.st.e, given[j]);
    NameIsReg(v.st.e, g, reg);
  }

  function KeySeen(e: Env, g: Given): Key
  {
    KeyOf(e.server.H, e.server.fingerprint, g.reg, Seen(e, g), Unix(e.KeyExpiry(g.reg)))
  }

  lemma EqualKeysMeanSamePass(e: Env, g: Given, f: Env)
    requires e.server == f.server && KeySeen(e, g) == f.KeyFor(g.reg) && g.reg.duration >= SECOND
    requires CleanRequest(g.reg, Seen(e, g), Unix(e.KeyExpiry(g.reg)))
    requires CleanRequest(g.reg, f.client, Unix(f.KeyExpiry(g.reg)))
    ensures (SameWindow(e.time, f.time, g.reg.duration) && SameClient(Seen(e, g), f.client, g.reg)) || HashCollided(e, g, f)
  {
    assert f.client.(headers := f.client.headers) == f.client;
    KeyBindsClient(e.server.H, e.server.fingerprint, g.reg, Seen(e, g), Unix(e.KeyExpiry(g.reg)),
                   f.client, Unix(f.KeyExpiry(g.reg)));
    if Unix(e.KeyExpiry(g.reg)) == Unix(f.KeyExpiry(g.reg)) {
      SecondDeterminesExpiration(e.time, f.time, g.reg.duration);
      SameExpirationIffSameWindow(e.time, f.time, g.reg.duration);
    }
  }
}
