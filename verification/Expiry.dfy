/** Expiry windows: when keys change and when tokens and cookies run out (lib/challenge/data.go). */
module Expiry {
  import opened Arithmetic

  const SECOND: int := 1_000_000_000
  const DAY: int := 86_400 * SECOND
  const DEFAULT_DURATION: int := 7 * DAY

  /** Seconds between the zero time of Go and the Unix epoch. */
  const UNIX_EPOCH: int := 62_135_596_800

  /** `time.Time.Round`, on nanoseconds since the zero time: halves go up. */
  function Round(t: int, d: int): int
  {
    if d <= 0 then t
    else
      var r := t % d;
      if r + r < d then t - r else t + (d - r)
  }

  /** `RequestData.Expiration`. */
  function Expiration(t: int, d: int): int
  {
    Round(t + d, d)
  }

  function Unix(t: int): int { t / SECOND - UNIX_EPOCH }

  function FromUnix(s: int): int { (s + UNIX_EPOCH) * SECOND }

  /** Window k is the half-open interval of length d centred on k * d. */
  ghost predicate InWindow(t: int, d: int, k: int)
  {
    2 * (k * d) - d <= 2 * t < 2 * (k * d) + d
  }

  ghost predicate SameWindow(t: int, u: int, d: int)
  {
    exists k: int :: InWindow(t, d, k) && InWindow(u, d, k)
  }

  /** In window k everything expires at (k + 1) * d. */
  lemma ExpirationInWindow(t: int, d: int, k: int)
    requires d > 0 && InWindow(t, d, k)
    ensures Expiration(t, d) == (k + 1) * d
  {
    var x := t + d;
    var w := k * d;
    assert (k + 1) * d == w + d && (k + 0) * d == w;
    if t >= w {
      QuotientIsUnique(x, d, k + 1, t - w);
    } else {
      QuotientIsUnique(x, d, k, t + d - w);
    }
  }

  /** Every time lies in exactly one window. */
  lemma WindowExists(t: int, d: int) returns (k: int)
    requires d > 0
    ensures InWindow(t, d, k)
  {
    var q := t / d;
    var r := t % d;
    assert t == q * d + r by { assert t == d * q + r; }
    if 2 * r < d {
      k := q;
    } else {
      k := q + 1;
      assert (q + 1) * d == q * d + d;
    }
  }

  /** A key lives longer than half its duration and at most one and a half. */
  lemma ExpirationBounds(t: int, d: int)
    requires d > 0
    ensures d < 2 * (Expiration(t, d) - t) <= 3 * d
  {
    var k := WindowExists(t, d);
    ExpirationInWindow(t, d, k);
    assert (k + 1) * d == k * d + d;
  }

  /** Two times share an expiration exactly when they share a window. */
  lemma SameExpirationIffSameWindow(t: int, u: int, d: int)
    requires d > 0
    ensures Expiration(t, d) == Expiration(u, d) <==> SameWindow(t, u, d)
  {
    var k := WindowExists(t, d);
    var l := WindowExists(u, d);
    ExpirationInWindow(t, d, k);
    ExpirationInWindow(u, d, l);
    if Expiration(t, d) == Expiration(u, d) {
      DivisionIsUnique(d, k + 1, 0, l + 1, 0);
    } else if SameWindow(t, u, d) {
      var m :| InWindow(t, d, m) && InWindow(u, d, m);
      ExpirationInWindow(t, d, m);
      ExpirationInWindow(u, d, m);
    }
  }

  /** Distinct expirations are at least one duration apart. */
  lemma ExpirationsAreApart(t: int, u: int, d: int)
    requires d > 0 && Expiration(t, d) < Expiration(u, d)
    ensures Expiration(t, d) + d <= Expiration(u, d)
  {
    var k := WindowExists(t, d);
    var l := WindowExists(u, d);
    ExpirationInWindow(t, d, k);
    ExpirationInWindow(u, d, l);
    if l < k {
      MultiplesAreApart(d, l + 1, k + 1);
    }
    if l > k {
      MultiplesAreApart(d, k + 1, l + 1);
    }
  }

  /** The expirations are cut to one second. */
  predicate SameSecond(t: int, u: int, d: int) { Unix(Expiration(t, d)) == Unix(Expiration(u, d)) }

  /**
    Keys hold only the second of the expiration: that separates windows exactly from one second on,
    and for shorter ones it fails at times as late as one likes.
   */
  lemma SecondsSeparateWindows(d: int, from: int)
    requires d > 0
    ensures (forall t: int, u: int :: from <= t && from <= u && SameSecond(t, u, d) ==> Expiration(t, d) == Expiration(u, d))
       <==> d >= SECOND
  {
    if d >= SECOND {
      forall t: int, u: int | SameSecond(t, u, d)
        ensures Expiration(t, d) == Expiration(u, d)
      {
        SecondDeterminesExpiration(t, u, d);
      }
    } else {
      var t, u := WindowsOfOneSecond(d, from);
    }
  }

  /** Two short windows that expire in one second. */
  lemma WindowsOfOneSecond(d: int, from: int) returns (t: int, u: int)
    requires 0 < d < SECOND
    ensures from <= t && from <= u
    ensures SameSecond(t, u, d) && Expiration(t, d) != Expiration(u, d)
  {
    MultipleIff(0, Gcd(d, SECOND));
    var k, l := MultipleIsLateDistance(0, d, SECOND, from + d);
    t, u := (k - 1) * d, k * d;
    assert t == k * d - d;
    assert InWindow(t, d, k - 1) && InWindow(u, d, k);
    ExpirationInWindow(t, d, k - 1);
    ExpirationInWindow(u, d, k);
    assert (k + 1) * d == k * d + d;
    UnixOfSecond(k * d, k * d + d, l);
  }

  lemma UnixOfSecond(x: int, y: int, l: int)
    requires l * SECOND <= x <= y < l * SECOND + SECOND
    ensures Unix(x) == Unix(y)
  {
  }

  lemma SecondDeterminesExpiration(t: int, u: int, d: int)
    requires d >= SECOND && Unix(Expiration(t, d)) == Unix(Expiration(u, d))
    ensures Expiration(t, d) == Expiration(u, d)
  {
    if Expiration(t, d) < Expiration(u, d) {
      ExpirationsAreApart(t, u, d);
    } else if Expiration(u, d) < Expiration(t, d) {
      ExpirationsAreApart(u, t, d);
    }
  }

  // ------------------------------------------------------------- tokens and windows

  /** A token issued at t has run out at another time of its window. */
  ghost predicate TokenLost(t: int, now: int, d: int)
  {
    SameWindow(t, now, d) && FromUnix(Unix(Expiration(t, d))) < now
  }

  /** Durations for which no token is lost to the cut to whole seconds. */
  predicate TokenSafe(d: int)
    requires d > 0
  {
    SECOND - Gcd(d, SECOND) <= d / 2 + 1
  }

  lemma CutToSecond(x: int)
    ensures FromUnix(Unix(x)) == x - x % SECOND
  {
  }

  lemma TokenLostIsUnsafe(t: int, now: int, d: int)
    requires d > 0 && TokenLost(t, now, d)
    ensures !TokenSafe(d)
  {
    var k :| InWindow(t, d, k) && InWindow(now, d, k);
    var e := (k + 1) * d;
    ExpirationInWindow(t, d, k);
    assert e == k * d + d;
    CutToSecond(e);
    HalfBelow(now, k * d, d);
    assert e == (k + 1) * d - 0 * SECOND;
    DistanceIsMultiple(k + 1, 0, d, SECOND);
    RestIsMultiple(e, d);
  }

  /** What is cut off an expiration is a multiple of the divisor, and so at most a second less one of it. */
  lemma RestIsMultiple(e: int, d: int)
    requires d > 0 && e % Gcd(d, SECOND) == 0
    ensures e % SECOND <= SECOND - Gcd(d, SECOND)
  {
    var g := Gcd(d, SECOND);
    var _, n := GcdDivides(d, SECOND);
    var y, q, r := e / g, e / SECOND, e % SECOND;
    assert e == y * g && e == q * SECOND + r;
    assert q * (n * g) == (q * n) * g;
    assert r == (y - q * n) * g;
    if y - q * n >= n {
      MultiplesNotFewer(g, n, y - q * n);
    } else {
      MultiplesAreApart(g, y - q * n, n);
    }
  }

  lemma UnsafeTokenIsLost(d: int, from: int) returns (t: int, now: int)
    requires d > 0 && !TokenSafe(d)
    ensures TokenLost(t, now, d) && from <= t <= now
  {
    var g := Gcd(d, SECOND);
    var _, n := GcdDivides(d, SECOND);
    assert SECOND - g == (n - 1) * g;
    MultipleIff(SECOND - g, g);
    var k, l := MultipleIsLateDistance(SECOND - g, d, SECOND, from + d);
    MultiplesNotFewer(g, 1, n);
    QuotientIsUnique(k * d, SECOND, l, SECOND - g);
    t := (k - 1) * d;
    now := t + (d + 1) / 2 - 1;
    assert InWindow(t, d, k - 1) && InWindow(now, d, k - 1);
    ExpirationInWindow(t, d, k - 1);
    CutToSecond(k * d);
    assert t + d == k * d;
  }

  /** A token made at any time from some instant on outlasts the window of its key exactly for the safe durations. */
  lemma TokenOutlivesExactly(d: int, from: int)
    requires d > 0
    ensures (forall t: int, now: int :: from <= t && from <= now ==> !TokenLost(t, now, d)) <==> TokenSafe(d)
  {
    if TokenSafe(d) {
      forall t: int, now: int ensures !TokenLost(t, now, d) {
        if TokenLost(t, now, d) {
          TokenLostIsUnsafe(t, now, d);
        }
      }
    } else {
      var t, now := UnsafeTokenIsLost(d, from);
    }
  }

  // ------------------------------------------------------------ cookies and windows

  /** Cookies expire on whole seconds. */
  lemma WholeSeconds(n: int)
    ensures FromUnix(Unix(n * DEFAULT_DURATION)) == n * DEFAULT_DURATION
  {
    assert n * DEFAULT_DURATION == (n * 604_800) * SECOND;
  }

  /** A cookie set at u has run out at a later time of the same d-window. */
  ghost predicate CookieLost(u: int, now: int, d: int)
  {
    u <= now && SameWindow(u, now, d) && FromUnix(Unix(Expiration(u, DEFAULT_DURATION))) < now
  }

  /** The greatest distance of a d-window that a cookie of an earlier default window can have been set in. */
  function Furthest(d: int): int { DEFAULT_DURATION / 2 - 1 + d / 2 }

  /** The least distance of a d-window that outlasts such a cookie. */
  function Nearest(d: int): int { DEFAULT_DURATION + 2 - (d + 1) / 2 }

  /** Durations for which no cookie is lost: between the two there is no distance of windows. */
  predicate CookieSafe(d: int)
    requires d > 0
  {
    Furthest(d) - Furthest(d) % Gcd(d, DEFAULT_DURATION) < Nearest(d)
  }

  lemma CookieExpiry(u: int, l: int)
    requires InWindow(u, DEFAULT_DURATION, l)
    ensures FromUnix(Unix(Expiration(u, DEFAULT_DURATION))) == l * DEFAULT_DURATION + DEFAULT_DURATION
  {
    ExpirationInWindow(u, DEFAULT_DURATION, l);
    WholeSeconds(l + 1);
  }

  /** With a and b the centres of the windows. */
  lemma DistanceOfLost(u: int, now: int, d: int, a: int, b: int)
    requires 2 * a - d <= 2 * u && 2 * now < 2 * a + d
    requires 2 * u < 2 * b + DEFAULT_DURATION && b + DEFAULT_DURATION < now
    ensures Nearest(d) <= a - b <= Furthest(d)
  {
    HalfBelow(now, a, d);
    HalfAbove(u, a, d);
    HalfBelow(u, b, DEFAULT_DURATION);
  }

  /** A lost cookie shows two windows that far apart. */
  lemma LostIsUnsafe(u: int, now: int, d: int)
    requires d > 0 && CookieLost(u, now, d)
    ensures !CookieSafe(d)
  {
    var k :| InWindow(u, d, k) && InWindow(now, d, k);
    var l := WindowExists(u, DEFAULT_DURATION);
    CookieExpiry(u, l);
    DistanceOfLost(u, now, d, k * d, l * DEFAULT_DURATION);
    DistanceIsMultiple(k, l, d, DEFAULT_DURATION);
    LastMultiple(k * d - l * DEFAULT_DURATION, Furthest(d), Gcd(d, DEFAULT_DURATION));
  }

  /** Two windows that far apart have a cookie to lose. */
  lemma UnsafeIsLost(d: int, from: int) returns (u: int, now: int)
    requires d > 0 && !CookieSafe(d)
    ensures CookieLost(u, now, d) && from <= u
  {
    var x := Furthest(d) - Furthest(d) % Gcd(d, DEFAULT_DURATION);
    MultipleBelow(Furthest(d), Gcd(d, DEFAULT_DURATION));
    var k, l := MultipleIsLateDistance(x, d, DEFAULT_DURATION, from);
    u := l * DEFAULT_DURATION + DEFAULT_DURATION / 2 - 1;
    now := k * d + (d + 1) / 2 - 1;
    CookieExpiry(u, l);
    assert InWindow(u, d, k) && InWindow(now, d, k);
  }

  /** A cookie set at any time from some instant on outlasts the window it is set in exactly for the safe durations. */
  lemma CookieOutlivesExactly(d: int, from: int)
    requires d > 0
    ensures (forall u: int, now: int :: from <= u ==> !CookieLost(u, now, d)) <==> CookieSafe(d)
  {
    if CookieSafe(d) {
      forall u: int, now: int ensures !CookieLost(u, now, d) {
        if CookieLost(u, now, d) {
          LostIsUnsafe(u, now, d);
        }
      }
    } else {
      var u, now := UnsafeIsLost(d, from);
    }
  }

  /** From two seconds on tokens are safe; the default duration and all up to half of it are for cookies, six days are not. */
  lemma WhatIsSafe(d: int)
    requires d > 0
    ensures d >= 2 * SECOND ==> TokenSafe(d)
    ensures d == DEFAULT_DURATION || 2 * d <= DEFAULT_DURATION ==> CookieSafe(d)
    ensures d == 6 * DAY ==> !CookieSafe(d)
  {
    if d == DEFAULT_DURATION {
      assert d % DEFAULT_DURATION == 0;
      assert Gcd(d, DEFAULT_DURATION) == Gcd(DEFAULT_DURATION, 0) == DEFAULT_DURATION;
    } else if d == 6 * DAY {
      SixDaysAreLost(0);
      CookieOutlivesExactly(d, 0);
    }
  }

  /**
    Every six weeks: seven-day windows end three and a half days after their centre, six-day windows
    begin three days before theirs.
   */
  lemma SixDaysAreLost(n: nat)
    ensures CookieLost(n * (42 * DAY) + 3 * DAY + DAY / 2 - SECOND, n * (42 * DAY) + 8 * DAY, 6 * DAY)
  {
    var start := n * (42 * DAY);
    var u, now := start + 3 * DAY + DAY / 2 - SECOND, start + 8 * DAY;
    assert start == (6 * n) * DEFAULT_DURATION;
    assert start + 6 * DAY == (7 * n + 1) * (6 * DAY);
    assert InWindow(u, DEFAULT_DURATION, 6 * n);
    CookieExpiry(u, 6 * n);
    assert InWindow(u, 6 * DAY, 7 * n + 1) && InWindow(now, 6 * DAY, 7 * n + 1);
  }

  /** Durations for which both the token and the state cookie outlast every key window they are made in. */
  predicate Covered(d: int)
  {
    d > 0 && TokenSafe(d) && CookieSafe(d)
  }

  /** From whatever instant on, neither token nor cookie is lost exactly for these durations. */
  lemma CoveredExactly(d: int, from: int)
    requires d > 0
    ensures (forall u: int, now: int :: from <= u <= now ==> !TokenLost(u, now, d) && !CookieLost(u, now, d)) <==> Covered(d)
  {
    if !TokenSafe(d) {
      var u, now := UnsafeTokenIsLost(d, from);
    } else if !CookieSafe(d) {
      var u, now := UnsafeIsLost(d, from);
    } else {
      TokenOutlivesExactly(d, from);
      CookieOutlivesExactly(d, from);
    }
  }

  /** A cookie set at u is not expired at any time of the same d-window. */
  lemma CookieOutlivesWindow(u: int, now: int, d: int)
    requires Covered(d) && SameWindow(u, now, d)
    ensures now <= FromUnix(Unix(Expiration(u, DEFAULT_DURATION)))
  {
    CookieOutlivesExactly(d, u);
    assert !CookieLost(u, now, d);
    if now < u {
      var l := WindowExists(u, DEFAULT_DURATION);
      CookieExpiry(u, l);
    }
  }
}
