/**
 How loadApp ends and which requests it comes to, said of the configuration and of what the
 app answers.
 */
module AppLoadingOutcomes {
  import opened Wrappers
  import opened AppLoading

  // ---------------------------------------------------------------- the places of a run

  predicate Welcomes(p: Page) { p.isSuccess && !p.isLogin && !p.isError }

  predicate WantsLogin(p: Page) { (p.isLogin || p.isError) && p.hasLoginForm }

  predicate UsesHttpAuth(c: Config) { c.auth.Some? && c.auth.value.httpAuth }

  /**
   The fresh visit begins with request `s`: the first, or the one after a check that does not lead
   to a welcoming page.
   */
  ghost predicate FreshStart(app: App, n: nat, c: Config, s: nat) {
    && !UsesHttpAuth(c)
    && if c.transition then exists h: nat, p :: VisitEnds(app, n, h, p) && !Welcomes(p) && s == n + 1 + h else s == n
  }

  /** The login is request `l`: the fresh visit ends just before it at a page that wants one. */
  ghost predicate LoginStart(app: App, n: nat, c: Config, l: nat) {
    exists s: nat, h: nat, p :: FreshStart(app, n, c, s) && VisitEnds(app, s, h, p) && WantsLogin(p) && l == s + 1 + h
  }

  /** The answer refuses the login but brings cookies, so that it is sent again. */
  predicate Repeats(a: Answer) { a.Reply? && !Welcomes(a.page) && a.page.addsCookies }

  /** The login sent as request `l`, or its repetition, is accepted with page `p`; the next request is `m`. */
  predicate AcceptedAt(app: App, l: nat, m: nat, p: Page) {
    || (m == l + 1 && app(l) == Reply(p) && Welcomes(p))
    || (m == l + 2 && Repeats(app(l)) && app(l + 1) == Reply(p) && p.isSuccess && !p.isLogin)
  }

  predicate MatchedBy(pattern: Option<iset<string>>, p: Page) {
    pattern.Some? && p.location.Some? && p.location.value in pattern.value
  }

  predicate ToRegistration(c: Config, p: Page) { c.auth.Some? && p.is3xx && MatchedBy(c.auth.value.registration, p) }

  predicate PastLogin(c: Config, p: Page) {
    c.auth.Some? && p.is3xx && !MatchedBy(c.auth.value.registration, p) && MatchedBy(c.auth.value.login, p)
  }

  /** From `p` on redirects lead to `q`, with ten requests at most, the first of which is `m`. */
  ghost predicate LeadsTo(app: App, m: nat, p: Page, q: Page) {
    exists h: nat :: h <= MAX_REDIRECTS && EndsAt(app, m, p, h, q)
  }

  predicate CanRegister(q: Page) { q.isSuccess && q.isRegistration && !q.isError }

  /** The redirect of an accepted login leads past the login to a page with this URI. */
  ghost predicate ResolvesTo(app: App, c: Config, m: nat, p: Page, uri: string) {
    PastLogin(c, p) && exists q :: LeadsTo(app, m, p, q) && q.isSuccess && !q.isLogin && q.requestUri == uri
  }

  /** The location of an accepted login is handed on: it is not followed, or leads nowhere useful. */
  ghost predicate Relays(app: App, c: Config, m: nat, p: Page) {
    || (!ToRegistration(c, p) && !PastLogin(c, p))
    || (ToRegistration(c, p) && exists q :: LeadsTo(app, m, p, q) && !CanRegister(q))
    || (PastLogin(c, p) && exists q :: LeadsTo(app, m, p, q) && !(q.isSuccess && !q.isLogin))
  }

  /** After the accepted login the user is sent to this location. */
  ghost predicate SentOnTo(app: App, c: Config, m: nat, p: Page, location: string) {
    location != "" && (ResolvesTo(app, c, m, p, location) || (Relays(app, c, m, p) && p.location == Some(location)))
  }

  /** Its redirect is followed and starts a long chain. */
  ghost predicate LostAfter(app: App, c: Config, m: nat, p: Page) {
    (ToRegistration(c, p) || PastLogin(c, p)) && LongChain(app, m, p)
  }

  ghost predicate Registers(app: App, c: Config, m: nat, p: Page) {
    ToRegistration(c, p) && exists q :: LeadsTo(app, m, p, q) && CanRegister(q)
  }

  // ---------------------------------------------------------------- from the login on

  lemma {:induction false} FollowIs(app: App, m: nat, p: Page)
    ensures Follow(app, m, m, p).reached.NullPointer? <==> LongChain(app, m, p)
    ensures forall q :: Follow(app, m, m, p).reached == At(q) <==> LeadsTo(app, m, p, q)
    ensures AllRedirects(Follow(app, m, m, p).requests)
  {
    FollowsExactly(app, m, p);
    FollowsOnlyRedirects(app, m, p);
    forall q ensures Follow(app, m, m, p).reached == At(q) <==> LeadsTo(app, m, p, q) {
      if k :| 0 <= k <= MAX_REDIRECTS && EndsAt(app, m, p, k, q) { assert LeadsTo(app, m, p, q); }
    }
  }

  lemma {:induction false} LoggedInEnds(app: App, m: nat, c: Config, p: Page)
    ensures forall u :: LoggedIn(app, m, c, p).outcome == Sent(Some(u)) <==> SentOnTo(app, c, m, p, u)
    ensures LoggedIn(app, m, c, p).outcome.Aborted? <==> LostAfter(app, c, m, p)
    ensures Register in LoggedIn(app, m, c, p).requests <==> Registers(app, c, m, p)
    ensures Login !in LoggedIn(app, m, c, p).requests
  {
    FollowIs(app, m, p);
    var v := Follow(app, m, m, p);
    forall u ensures LoggedIn(app, m, c, p).outcome == Sent(Some(u)) <==> SentOnTo(app, c, m, p, u) {
      if v.reached.At? { assert LeadsTo(app, m, p, v.reached.page); }
    }
    if v.reached.At? { assert LeadsTo(app, m, p, v.reached.page); }
    assert forall i :: 0 <= i < |v.requests| ==> v.requests[i].Redirect?;
  }

  /** What a run from the login on comes to. */
  ghost predicate LoginEnds(app: App, l: nat, c: Config, r: Run) {
    && (forall u :: r.outcome == Sent(Some(u)) <==>
         exists m: nat, p :: AcceptedAt(app, l, m, p) && SentOnTo(app, c, m, p, u))
    && (r.outcome.Aborted? <==> exists m: nat, p :: AcceptedAt(app, l, m, p) && LostAfter(app, c, m, p))
    && (Register in r.requests <==> exists m: nat, p :: AcceptedAt(app, l, m, p) && Registers(app, c, m, p))
    && r.requests != [] && r.requests[0] == Login
    && (forall i :: 1 <= i < |r.requests| ==> (r.requests[i] == Login <==> i == 1 && Repeats(app(l))))
    && (Repeats(app(l)) ==> |r.requests| > 1)
  }

  lemma {:induction false} AcceptedOnce(app: App, l: nat, m: nat, p: Page, m': nat, p': Page)
    requires AcceptedAt(app, l, m, p) && AcceptedAt(app, l, m', p')
    ensures m == m' && p == p'
  {
  }

  lemma {:induction false} AcceptedEnds(app: App, l: nat, c: Config, m: nat, p: Page, logins: seq<Request>)
    requires AcceptedAt(app, l, m, p) && logins == (if m == l + 1 then [Login] else [Login, Login])
    ensures LoginEnds(app, l, c, Then(logins, LoggedIn(app, m, c, p)))
  {
    var rest := LoggedIn(app, m, c, p);
    LoggedInEnds(app, m, c, p);
    forall m': nat, p' | AcceptedAt(app, l, m', p') ensures m' == m && p' == p { AcceptedOnce(app, l, m, p, m', p'); }
    var all := logins + rest.requests;
    forall i | |logins| <= i < |all| ensures all[i] != Login { assert all[i] in rest.requests; }
    assert Register in all <==> Register in rest.requests by {
      forall x ensures x in all <==> x in logins || x in rest.requests { }
    }
  }

  lemma {:induction false} RefusedEnds(app: App, l: nat, c: Config, r: Run)
    requires forall m: nat, p :: !AcceptedAt(app, l, m, p)
    requires r.requests == if Repeats(app(l)) then [Login, Login] else [Login]
    requires r.outcome == Sent(None) || r.outcome == Failed
    ensures LoginEnds(app, l, c, r)
  {
  }

  lemma {:induction false} LogInEnds(app: App, l: nat, c: Config)
    ensures LoginEnds(app, l, c, LogIn(app, l, c))
  {
    if app(l).Reply? && Welcomes(app(l).page) {
      AcceptedEnds(app, l, c, l + 1, app(l).page, [Login]);
    } else if Repeats(app(l)) && app(l + 1).Reply? && app(l + 1).page.isSuccess && !app(l + 1).page.isLogin {
      AcceptedEnds(app, l, c, l + 2, app(l + 1).page, [Login, Login]);
    } else {
      RefusedEnds(app, l, c, LogIn(app, l, c));
    }
  }

  // ---------------------------------------------------------------- up to the login

  /** What a visit from request `s` on comes to. */
  lemma {:induction false} VisitIs(app: App, s: nat)
    ensures
      var v := Open(app, s);
      && v.requests != [] && Login !in v.requests && Register !in v.requests
      && (v.reached.NullPointer? <==> LongHome(app, s))
      && (forall h: nat, p :: VisitEnds(app, s, h, p) <==> v.reached == At(p) && |v.requests| == 1 + h)
  {
    var v := Open(app, s);
    VisitExactly(app, s);
    OpenShape(app, s);
    forall i | 0 <= i < |v.requests| ensures v.requests[i] != Login && v.requests[i] != Register {
      if i > 0 { assert v.requests[1..][i-1].Redirect?; }
    }
  }

  /** The fresh visit that a run comes to, if any: before it there is a visit at most. */
  lemma {:induction false} ToFreshVisit(app: App, n: nat, c: Config) returns (some: bool, s: nat, before: seq<Request>)
    ensures forall x: nat :: FreshStart(app, n, c, x) <==> some && x == s
    ensures Login !in before && Register !in before
    ensures
      var r := Load(app, n, c);
      if some then s == n + |before| && r == Then(before, LoadFresh(app, s, c))
      else
        && r.requests == before && (r.outcome == Sent(None) || r.outcome == Aborted || r.outcome == Failed)
        && (r.outcome == Aborted <==> !UsesHttpAuth(c) && c.transition && LongHome(app, n))
    ensures some && c.transition ==> !LongHome(app, n)
  {
    var v := Open(app, n);
    VisitIs(app, n);
    if UsesHttpAuth(c) {
      some, s, before := false, n, [];
    } else if !c.transition {
      some, s, before := true, n, [];
    } else {
      some, s, before := v.reached.At? && !Welcomes(v.reached.page), n + |v.requests|, v.requests;
      if some { assert VisitEnds(app, n, |v.requests| - 1, v.reached.page); }
    }
  }

  /** The login that a fresh visit comes to, if any. */
  lemma {:induction false} ToLogin(app: App, s: nat, c: Config) returns (some: bool, l: nat, before: seq<Request>)
    ensures forall h: nat, p :: VisitEnds(app, s, h, p) && WantsLogin(p) ==> some && l == s + 1 + h
    ensures some ==> l > s && exists p :: VisitEnds(app, s, l - s - 1, p) && WantsLogin(p)
    ensures Login !in before && Register !in before
    ensures
      var r := LoadFresh(app, s, c);
      if some then l == s + |before| && r == Then(before, LogIn(app, l, c))
      else
        && r.requests == before && (r.outcome == Sent(None) || r.outcome == Aborted || r.outcome == Failed)
        && (r.outcome == Aborted <==> LongHome(app, s))
    ensures some ==> !LongHome(app, s)
  {
    var v := Open(app, s);
    VisitIs(app, s);
    some, l, before := v.reached.At? && WantsLogin(v.reached.page), s + |v.requests|, v.requests;
    if some { assert VisitEnds(app, s, |v.requests| - 1, v.reached.page); }
  }

  /** One of the two visits to the home page starts a long chain. */
  ghost predicate VisitIsLost(app: App, n: nat, c: Config) {
    && !UsesHttpAuth(c)
    && ((c.transition && LongHome(app, n)) || exists s: nat :: FreshStart(app, n, c, s) && LongHome(app, s))
  }

  lemma {:induction false} LoginStartIs(app: App, n: nat, c: Config, s: nat, some: bool, l: nat)
    requires forall x: nat :: FreshStart(app, n, c, x) <==> x == s
    requires forall h: nat, p :: VisitEnds(app, s, h, p) && WantsLogin(p) ==> some && l == s + 1 + h
    requires some ==> l > s && exists p :: VisitEnds(app, s, l - s - 1, p) && WantsLogin(p)
    ensures forall x: nat :: LoginStart(app, n, c, x) <==> some && x == l
  {
    if some {
      var p :| VisitEnds(app, s, l - s - 1, p) && WantsLogin(p);
      var h: nat :| l == s + 1 + h;
      assert FreshStart(app, n, c, s) && VisitEnds(app, s, h, p);
    }
  }

  lemma {:induction false} ThenThen(first: seq<Request>, second: seq<Request>, r: Run)
    ensures Then(first, Then(second, r)) == Then(first + second, r)
  {
    assert first + (second + r.requests) == first + second + r.requests;
  }

  /** What a run without a login is. */
  ghost predicate EndsEarly(app: App, n: nat, c: Config, r: Run, before: seq<Request>) {
    && r.requests == before && (r.outcome == Sent(None) || r.outcome == Aborted || r.outcome == Failed)
    && (r.outcome == Aborted <==> VisitIsLost(app, n, c))
  }

  lemma {:induction false} VisitLostIs(app: App, n: nat, c: Config, some: bool, s: nat)
    requires forall x: nat :: FreshStart(app, n, c, x) <==> some && x == s
    requires some && c.transition ==> !LongHome(app, n)
    ensures VisitIsLost(app, n, c) <==>
      if some then LongHome(app, s) else !UsesHttpAuth(c) && c.transition && LongHome(app, n)
  {
    if some { assert FreshStart(app, n, c, s); }
  }

  /** A run up to the login that it comes to, or to its end. */
  lemma {:induction false} AtLogin(app: App, n: nat, c: Config) returns (some: bool, l: nat, before: seq<Request>)
    ensures forall x: nat :: LoginStart(app, n, c, x) <==> some && x == l
    ensures Login !in before && Register !in before
    ensures some ==> l == n + |before| && Load(app, n, c) == Then(before, LogIn(app, l, c))
    ensures !some ==> EndsEarly(app, n, c, Load(app, n, c), before)
    ensures some ==> !VisitIsLost(app, n, c)
  {
    var fresh_, s, first := ToFreshVisit(app, n, c);
    VisitLostIs(app, n, c, fresh_, s);
    if fresh_ {
      var rest;
      some, l, rest := ToLogin(app, s, c);
      before := first + rest;
      LoginStartIs(app, n, c, s, some, l);
      if some { ThenThen(first, rest, LogIn(app, l, c)); }
    } else {
      some, l, before := false, 0, first;
    }
  }

  // ---------------------------------------------------------------- how a run ends

  /**
   The user is sent to a location other than the home page exactly after an accepted login that
   leads or points there.
   */
  lemma {:induction false} LocationExactly(app: App, n: nat, c: Config, location: string)
    ensures Load(app, n, c).outcome == Sent(Some(location)) <==>
      exists l: nat, m: nat, p ::
        LoginStart(app, n, c, l) && AcceptedAt(app, l, m, p) && SentOnTo(app, c, m, p, location)
  {
    var some, l, before := AtLogin(app, n, c);
    if some { LogInEnds(app, l, c); }
  }

  /** A run aborts exactly when a visit, or the redirect of an accepted login that is followed, starts a long chain. */
  lemma {:induction false} AbortsExactly(app: App, n: nat, c: Config)
    ensures Load(app, n, c).outcome == Aborted <==>
      || VisitIsLost(app, n, c)
      || (exists l: nat, m: nat, p :: LoginStart(app, n, c, l) && AcceptedAt(app, l, m, p) && LostAfter(app, c, m, p))
  {
    var some, l, before := AtLogin(app, n, c);
    if some { LogInEnds(app, l, c); }
  }

  /** A registration is sent exactly when an accepted login leads to a registration page without an error. */
  lemma {:induction false} RegistersExactly(app: App, n: nat, c: Config)
    ensures Register in Load(app, n, c).requests <==>
      exists l: nat, m: nat, p :: LoginStart(app, n, c, l) && AcceptedAt(app, l, m, p) && Registers(app, c, m, p)
  {
    var some, l, before := AtLogin(app, n, c);
    if some {
      LogInEnds(app, l, c);
      InEither(before, LogIn(app, l, c).requests, Register);
    }
  }

  lemma {:induction false} InEither(s: seq<Request>, t: seq<Request>, r: Request)
    ensures r in s + t <==> r in s || r in t
  {
  }

  lemma {:induction false} LoginPlaces(before: seq<Request>, rest: seq<Request>, again: bool, i: nat)
    requires Login !in before && rest != [] && rest[0] == Login && (again ==> |rest| > 1)
    requires forall j :: 1 <= j < |rest| ==> (rest[j] == Login <==> j == 1 && again)
    ensures i < |before + rest| && (before + rest)[i] == Login <==> i == |before| || (again && i == |before| + 1)
  {
    var all, k := before + rest, |before|;
    if i < k {
      assert all[i] == before[i] && before[i] in before;
    } else if i < |all| {
      assert all[i] == rest[i-k];
    }
  }

  /**
   The login is sent exactly where the fresh visit ends at a page that wants it, and again only if
   it is to be repeated.
   */
  lemma {:induction false} LogsInExactly(app: App, n: nat, c: Config, i: nat)
    ensures i < |Load(app, n, c).requests| && Load(app, n, c).requests[i] == Login <==>
      LoginStart(app, n, c, n + i) || (i > 0 && LoginStart(app, n, c, n + i - 1) && Repeats(app(n + i - 1)))
  {
    var some, l, before := AtLogin(app, n, c);
    assert LoginStart(app, n, c, n + i) <==> some && n + i == l;
    assert i > 0 ==> (LoginStart(app, n, c, n + i - 1) <==> some && n + i - 1 == l);
    if some {
      LogInEnds(app, l, c);
      LoginPlaces(before, LogIn(app, l, c).requests, Repeats(app(l)), i);
    }
  }

  // ---------------------------------------------------------------- when it fails

  /** The last request has not been answered. */
  predicate LastBroken(app: App, n: nat, s: seq<Request>) { s != [] && app(n + |s| - 1).Broken? }

  lemma {:induction false} FollowFails(app: App, m: nat, p: Page)
    ensures Follow(app, m, m, p).reached.IoError? <==> LastBroken(app, m, Follow(app, m, m, p).requests)
  {
    FollowsToFirstPage(app, m, p);
  }

  lemma {:induction false} VisitFails(app: App, n: nat)
    ensures Open(app, n).reached.IoError? <==> LastBroken(app, n, Open(app, n).requests)
  {
    if app(n).Reply? { FollowFails(app, n + 1, app(n).page); }
  }

  lemma {:induction false} LoggedInFails(app: App, m: nat, c: Config, p: Page)
    ensures LoggedIn(app, m, c, p).outcome == Failed <==> LastBroken(app, m, LoggedIn(app, m, c, p).requests)
  {
    FollowFails(app, m, p);
  }

  lemma {:induction false} LogInFails(app: App, l: nat, c: Config)
    ensures LogIn(app, l, c).outcome == Failed <==> LastBroken(app, l, LogIn(app, l, c).requests)
  {
    if app(l).Reply? {
      LoggedInFails(app, l + 1, c, app(l).page);
      if app(l + 1).Reply? { LoggedInFails(app, l + 2, c, app(l + 1).page); }
    }
  }

  /** A visit and the rest of a run: the rest decides, if there is one. */
  lemma {:induction false} ResumeFails(app: App, n: nat, goOn: bool, rest: Run)
    requires goOn ==> Open(app, n).reached.At? && rest.requests != []
    requires goOn ==> (rest.outcome == Failed <==> LastBroken(app, n + |Open(app, n).requests|, rest.requests))
    ensures
      var r := Resume(Open(app, n), goOn, rest);
      r.outcome == Failed <==> LastBroken(app, n, r.requests)
  {
    VisitFails(app, n);
  }

  lemma {:induction false} LogInAsks(app: App, l: nat, c: Config)
    ensures LogIn(app, l, c).requests != []
  {
  }

  lemma {:induction false} FreshAsks(app: App, s: nat, c: Config)
    ensures LoadFresh(app, s, c).requests != []
  {
    VisitIs(app, s);
  }

  lemma {:induction false} FreshFails(app: App, s: nat, c: Config)
    ensures LoadFresh(app, s, c).outcome == Failed <==> LastBroken(app, s, LoadFresh(app, s, c).requests)
  {
    var v := Open(app, s);
    LogInFails(app, s + |v.requests|, c);
    LogInAsks(app, s + |v.requests|, c);
    ResumeFails(app, s, v.reached.At? && AsksForLogin(v.reached.page), LogIn(app, s + |v.requests|, c));
  }

  /** A run fails with an IOException exactly when its last request is not answered. */
  lemma {:induction false} FailsExactly(app: App, n: nat, c: Config)
    ensures Load(app, n, c).outcome == Failed <==> LastBroken(app, n, Load(app, n, c).requests)
  {
    var v := Open(app, n);
    FreshFails(app, n, c);
    FreshFails(app, n + |v.requests|, c);
    FreshAsks(app, n + |v.requests|, c);
    ResumeFails(app, n, v.reached.At? && Refused(v.reached.page), LoadFresh(app, n + |v.requests|, c));
  }
}
