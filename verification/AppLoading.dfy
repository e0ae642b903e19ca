/**
 InstalledAppLoader: logging a user in to an installed app by sending requests to the app
 and reading its pages. The app may answer each request with any page, or not at all.
 */
module AppLoading {
  import opened Wrappers

  const MAX_REDIRECTS := 10

  /** What the loader looks at in a response. `redirect` is None if the response redirects nowhere. */
  datatype Page = Page(
    redirect: Option<string>, location: Option<string>,
    requestUri: string,
    isSuccess: bool, is3xx: bool,
    isLogin: bool, isError: bool, isRegistration: bool,
    hasLoginForm: bool,  // buildLoginRequest returns a request
    addsCookies: bool)   // the cookie jar has grown

  datatype Answer = Reply(page: Page) | Broken

  /** The app's answer to the n-th proxied request. */
  type App = nat -> Answer

  /** A redirect is asked for at its location, which may be relative to the URI of the page that gave it. */
  datatype Request = Home | Redirect(location: string, base: string) | Login | Register

  /** Where following redirects ends: at a page, at the null that stands for too many, or with an IOException. */
  datatype Reached = At(page: Page) | NullPointer | IoError

  datatype Visit = Visit(requests: seq<Request>, reached: Reached)

  /** Sent to the app at a location, None being its home page; Aborted is a NullPointerException. */
  datatype Outcome = Sent(location: Option<string>) | Aborted | Failed

  datatype Run = Run(requests: seq<Request>, outcome: Outcome)

  /** The authentication part of a manifest; a pattern is the set of locations whose path it matches. */
  datatype Auth = Auth(httpAuth: bool, registration: Option<iset<string>>, login: Option<iset<string>>)

  /** `transition`: redis holds an AuthTransition of this user and app. */
  datatype Config = Config(auth: Option<Auth>, transition: bool)

  // ---------------------------------------------------------------- following redirects

  /** Following redirects from `page`, with the requests numbered from `first`, when the next one is the n-th. */
  function Follow(app: App, first: nat, n: nat, page: Page): Visit
    requires first <= n <= first + MAX_REDIRECTS
    decreases first + MAX_REDIRECTS - n
  {
    if page.redirect.None? then Visit([], At(page))
    else
      var request := Redirect(page.redirect.value, page.requestUri);
      match app(n)
      case Broken => Visit([request], IoError)
      case Reply(next) =>
        if n == first + MAX_REDIRECTS then Visit([request], NullPointer)
        else After([request], Follow(app, first, n + 1, next))
  }

  function After(requests: seq<Request>, v: Visit): Visit {
    Visit(requests + v.requests, v.reached)
  }

  /** The home page, and where it redirects to. */
  function Open(app: App, n: nat): Visit {
    match app(n)
    case Broken => Visit([Home], IoError)
    case Reply(page) => After([Home], Follow(app, n + 1, n + 1, page))
  }

  // ---------------------------------------------------------------- loadApp

  function Then(requests: seq<Request>, r: Run): Run {
    Run(requests + r.requests, r.outcome)
  }

  /** What a visit that does not end at a page makes of loadApp. */
  function Stopped(reached: Reached): Outcome
    requires !reached.At?
  {
    if reached.NullPointer? then Aborted else Failed
  }

  /** A page that shows that the user is not logged in. */
  predicate Refused(p: Page) { !p.isSuccess || p.isLogin || p.isError }

  predicate AsksForLogin(p: Page) { (p.isLogin || p.isError) && p.hasLoginForm }

  /** A visit, and the rest of loadApp if the page reached asks for more. */
  function Resume(v: Visit, goOn: bool, rest: Run): Run {
    match v.reached
    case At(_) => if goOn then Then(v.requests, rest) else Run(v.requests, Sent(None))
    case r => Run(v.requests, Stopped(r))
  }

  /** loadApp, whose first request is the n-th. */
  function Load(app: App, n: nat, c: Config): Run {
    if c.auth.Some? && c.auth.value.httpAuth then Run([], Sent(None))
    else if c.transition then LoadChecked(app, n, c)
    else LoadFresh(app, n, c)
  }

  /** With an AuthTransition, which is given up unless it leads to a page of the app. */
  function LoadChecked(app: App, n: nat, c: Config): Run {
    var v := Open(app, n);
    Resume(v, v.reached.At? && Refused(v.reached.page), LoadFresh(app, n + |v.requests|, c))
  }

  /** Without an AuthTransition that works. */
  function LoadFresh(app: App, n: nat, c: Config): Run {
    var v := Open(app, n);
    Resume(v, v.reached.At? && AsksForLogin(v.reached.page), LogIn(app, n + |v.requests|, c))
  }

  /** The login request, repeated once if it failed but brought new cookies. */
  function LogIn(app: App, n: nat, c: Config): Run {
    match app(n)
    case Broken => Run([Login], Failed)
    case Reply(p) =>
      if !Refused(p) then Then([Login], LoggedIn(app, n + 1, c, p))
      else if !p.addsCookies then Run([Login], Sent(None))
      else
        match app(n + 1)
        case Broken => Run([Login, Login], Failed)
        case Reply(q) =>
          if !q.isSuccess || q.isLogin then Run([Login, Login], Sent(None))
          else Then([Login, Login], LoggedIn(app, n + 2, c, q))
  }

  predicate Matches(pattern: Option<iset<string>>, location: Option<string>) {
    pattern.Some? && location.Some? && location.value in pattern.value
  }

  /** An empty location gives way to the home page. */
  function Destination(location: Option<string>): Option<string> {
    if location == Some("") then None else location
  }

  /** The answer to the login request may redirect to a registration page, or past the login. */
  function LoggedIn(app: App, n: nat, c: Config, p: Page): Run {
    var relay := Sent(Destination(p.location));
    if c.auth.None? || (c.auth.value.registration.None? && c.auth.value.login.None?) || !p.is3xx then Run([], relay)
    else if Matches(c.auth.value.registration, p.location) then
      var v := Follow(app, n, n, p);
      match v.reached
      case At(q) =>
        if q.isSuccess && q.isRegistration && !q.isError
        then Run(v.requests + [Register], if app(n + |v.requests|).Broken? then Failed else Sent(None))
        else Run(v.requests, relay)
      case r => Run(v.requests, Stopped(r))
    else if Matches(c.auth.value.login, p.location) then
      var v := Follow(app, n, n, p);
      match v.reached
      case At(q) => Run(v.requests, if q.isSuccess && !q.isLogin then Sent(Destination(Some(q.requestUri))) else relay)
      case r => Run(v.requests, Stopped(r))
    else Run([], relay)
  }

  lemma {:induction false} AppendInSteps(before: seq<Request>, visit: seq<Request>, rest: Run)
    ensures Then(before + visit, rest) == Then(before, Then(visit, rest))
  {
    assert before + visit + rest.requests == before + (visit + rest.requests);
  }

  // ---------------------------------------------------------------- the code

  class InstalledAppLoader {
    const app: App
    var requests: seq<Request>

    constructor (app: App)
      ensures this.app == app && requests == []
    {
      this.app, requests := app, [];
    }

    method ProxyResponse(request: Request) returns (answer: Answer)
      modifies this
      ensures requests == old(requests) + [request] && answer == app(|old(requests)|)
    {
      answer := app(|requests|);
      requests := requests + [request];
    }

    method FollowRedirects(page: Page) returns (reached: Reached)
      modifies this
      ensures After(old(requests), Follow(app, |old(requests)|, |old(requests)|, page)) == Visit(requests, reached)
    {
      var response, redirCount := Some(page), 0;
      while true
        invariant redirCount <= MAX_REDIRECTS + 1 && (response.Some? <==> redirCount <= MAX_REDIRECTS)
        invariant redirCount == |requests| - |old(requests)|
        invariant After(old(requests), Follow(app, |old(requests)|, |old(requests)|, page)) ==
          if response.Some? then After(requests, Follow(app, |old(requests)|, |requests|, response.value))
          else Visit(requests, NullPointer)
        decreases MAX_REDIRECTS + 1 - redirCount
      {
        // response.getRedirectUri() on the null that the last turn left
        if response.None? { return NullPointer; }
        if response.value.redirect.None? { return At(response.value); }
        var answer := ProxyResponse(Redirect(response.value.redirect.value, response.value.requestUri));
        if answer.Broken? { return IoError; }
        redirCount := redirCount + 1;
        response := if redirCount > MAX_REDIRECTS then None else Some(answer.page);
      }
    }

    method OpenHome() returns (reached: Reached)
      modifies this
      ensures After(old(requests), Open(app, |old(requests)|)) == Visit(requests, reached)
    {
      var answer := ProxyResponse(Home);
      if answer.Broken? { return IoError; }
      reached := FollowRedirects(answer.page);
    }

    method LoadApp(c: Config) returns (outcome: Outcome)
      modifies this
      ensures Then(old(requests), Load(app, |old(requests)|, c)) == Run(requests, outcome)
    {
      if c.auth.Some? && c.auth.value.httpAuth { return Sent(None); }
      if c.transition {
        outcome := LoadWithTransition(c);
      } else {
        outcome := LoadAfresh(c);
      }
    }

    method LoadWithTransition(c: Config) returns (outcome: Outcome)
      modifies this
      ensures Then(old(requests), LoadChecked(app, |old(requests)|, c)) == Run(requests, outcome)
    {
      ghost var v := Open(app, |requests|);
      var reached := OpenHome();
      assert requests == old(requests) + v.requests && reached == v.reached;
      if !reached.At? { return Stopped(reached); }
      if !Refused(reached.page) { return Sent(None); }
      outcome := LoadAfresh(c);
      AppendInSteps(old(requests), v.requests, LoadFresh(app, |old(requests) + v.requests|, c));
    }

    method LoadAfresh(c: Config) returns (outcome: Outcome)
      modifies this
      ensures Then(old(requests), LoadFresh(app, |old(requests)|, c)) == Run(requests, outcome)
    {
      ghost var v := Open(app, |requests|);
      var reached := OpenHome();
      assert requests == old(requests) + v.requests && reached == v.reached;
      if !reached.At? { return Stopped(reached); }
      if !AsksForLogin(reached.page) { return Sent(None); }
      outcome := AttemptLogin(c);
      AppendInSteps(old(requests), v.requests, LogIn(app, |old(requests) + v.requests|, c));
    }

    method AttemptLogin(c: Config) returns (outcome: Outcome)
      modifies this
      ensures Then(old(requests), LogIn(app, |old(requests)|, c)) == Run(requests, outcome)
    {
      var answer := ProxyResponse(Login);
      if answer.Broken? { return Failed; }
      var p := answer.page;
      if !p.isSuccess || p.isLogin || p.isError {
        if !p.addsCookies { return Sent(None); }
        answer := ProxyResponse(Login);
        if answer.Broken? { return Failed; }
        p := answer.page;
        if !p.isSuccess || p.isLogin { return Sent(None); }
      }
      outcome := AfterLogin(c, p);
    }

    method AfterLogin(c: Config, p: Page) returns (outcome: Outcome)
      modifies this
      ensures Then(old(requests), LoggedIn(app, |old(requests)|, c, p)) == Run(requests, outcome)
    {
      outcome := Sent(Destination(p.location));
      if c.auth.Some? {
        var a := c.auth.value;
        if (a.registration.Some? || a.login.Some?) && p.is3xx {
          if Matches(a.registration, p.location) {
            var reached := FollowRedirects(p);
            if !reached.At? { return Stopped(reached); }
            var q := reached.page;
            if q.isSuccess && q.isRegistration && !q.isError {
              var answer := ProxyResponse(Register);
              return if answer.Broken? then Failed else Sent(None);
            }
          } else if Matches(a.login, p.location) {
            var reached := FollowRedirects(p);
            if !reached.At? { return Stopped(reached); }
            var q := reached.page;
            if q.isSuccess && !q.isLogin { return Sent(Destination(Some(q.requestUri))); }
          }
        }
      }
    }
  }

  // ---------------------------------------------------------------- how far redirects are followed

  /** The i-th page of a chain of redirects that starts at `page`; its first request is number `first`. */
  function PageAt(app: App, first: nat, page: Page, i: nat): Answer {
    if i == 0 then Reply(page) else app(first + i - 1)
  }

  predicate Redirects(a: Answer) { a.Reply? && a.page.redirect.Some? }

  /** `r` asks for what the answer `a` redirects to. */
  predicate IsHop(a: Answer, r: Request) {
    Redirects(a) && r == Redirect(a.page.redirect.value, a.page.requestUri)
  }

  /** What following redirects makes of the answer after `k` of them. */
  function ReachedAt(k: nat, a: Answer): Reached {
    if a.Broken? then IoError
    else if k > MAX_REDIRECTS then NullPointer
    else At(a.page)
  }

  /**
   From the `done`-th page on, one request for each redirect until the first answer that is not
   one, or the eleventh request.
   */
  predicate FollowedFrom(app: App, first: nat, page: Page, done: nat, v: Visit) {
    var k := done + |v.requests|;
    && k <= MAX_REDIRECTS + 1
    && (forall i :: done <= i < k ==> IsHop(PageAt(app, first, page, i), v.requests[i - done]))
    && (k <= MAX_REDIRECTS ==> !Redirects(PageAt(app, first, page, k)))
    && v.reached == ReachedAt(k, PageAt(app, first, page, k))
  }

  lemma {:induction false} FollowedOneMore(app: App, first: nat, page: Page, done: nat, request: Request, v: Visit)
    requires FollowedFrom(app, first, page, done + 1, v) && IsHop(PageAt(app, first, page, done), request)
    ensures FollowedFrom(app, first, page, done, After([request], v))
  {
    var all := After([request], v).requests;
    forall i | done <= i < done + |all| ensures IsHop(PageAt(app, first, page, i), all[i - done]) {
      if i > done { assert all[i - done] == v.requests[i - (done + 1)]; }
    }
  }

  lemma {:induction false} FollowsOn(app: App, first: nat, n: nat, page: Page, current: Page)
    requires first <= n <= first + MAX_REDIRECTS && PageAt(app, first, page, n - first) == Reply(current)
    ensures FollowedFrom(app, first, page, n - first, Follow(app, first, n, current))
    decreases first + MAX_REDIRECTS - n
  {
    var done, v := n - first, Follow(app, first, n, current);
    if current.redirect.None? {
      assert v == Visit([], At(current));
    } else {
      var request := Redirect(current.redirect.value, current.requestUri);
      assert IsHop(PageAt(app, first, page, done), request);
      if app(n).Broken? || n == first + MAX_REDIRECTS {
        assert v.requests == [request] && PageAt(app, first, page, done + 1) == app(n);
      } else {
        FollowsOn(app, first, n + 1, page, app(n).page);
        FollowedOneMore(app, first, page, done, request, Follow(app, first, n + 1, app(n).page));
      }
    }
  }

  /**
   One request is made for each redirect until the first answer that is not one, or until the
   eleventh request, whose answer is given up even if it is a page.
   */
  lemma {:induction false} FollowsToFirstPage(app: App, first: nat, page: Page)
    ensures FollowedFrom(app, first, page, 0, Follow(app, first, first, page))
  {
    FollowsOn(app, first, first, page, page);
  }

  /** A chain of at most ten redirects is followed to its end. */
  lemma {:induction false} ShortChainIsFollowed(app: App, first: nat, page: Page, k: nat)
    requires k <= MAX_REDIRECTS && !Redirects(PageAt(app, first, page, k))
    requires forall i :: 0 <= i < k ==> Redirects(PageAt(app, first, page, i))
    ensures |Follow(app, first, first, page).requests| == k
    ensures Follow(app, first, first, page).reached == ReachedAt(k, PageAt(app, first, page, k))
  {
    FollowsToFirstPage(app, first, page);
    assert forall i :: 0 <= i < |Follow(app, first, first, page).requests| ==> Redirects(PageAt(app, first, page, i));
  }

  /** A longer chain is given up after the eleventh request. */
  lemma {:induction false} LongChainIsGivenUp(app: App, first: nat, page: Page)
    requires forall i :: 0 <= i <= MAX_REDIRECTS ==> Redirects(PageAt(app, first, page, i))
    ensures |Follow(app, first, first, page).requests| == MAX_REDIRECTS + 1
    ensures Follow(app, first, first, page).reached
      == if app(first + MAX_REDIRECTS).Broken? then IoError else NullPointer
  {
    FollowsToFirstPage(app, first, page);
  }

  /** More redirects than are followed, and an answer to the last request. */
  predicate LongChain(app: App, first: nat, page: Page) {
    && (forall i :: 0 <= i <= MAX_REDIRECTS ==> Redirects(PageAt(app, first, page, i)))
    && app(first + MAX_REDIRECTS).Reply?
  }

  /** `p` is the first page that is no redirect, after `k` of them. */
  predicate EndsAt(app: App, first: nat, page: Page, k: nat, p: Page) {
    && p.redirect.None? && PageAt(app, first, page, k) == Reply(p)
    && forall i :: 0 <= i < k ==> Redirects(PageAt(app, first, page, i))
  }

  /**
   What following redirects comes to, read off the app's answers: the null pointer exactly on
   a long chain, a page exactly if it ends a short one, and else the IOException.
   */
  lemma {:induction false} FollowsExactly(app: App, first: nat, page: Page)
    ensures Follow(app, first, first, page).reached == NullPointer <==> LongChain(app, first, page)
    ensures forall p :: Follow(app, first, first, page).reached == At(p) <==>
      exists k :: 0 <= k <= MAX_REDIRECTS && EndsAt(app, first, page, k, p)
  {
    FollowsToFirstPage(app, first, page);
    var v := Follow(app, first, first, page);
    var k := |v.requests|;
    assert forall i :: 0 <= i < k ==> Redirects(PageAt(app, first, page, i));
    if v.reached.At? { assert EndsAt(app, first, page, k, v.reached.page); }
    forall p, j | 0 <= j <= MAX_REDIRECTS && EndsAt(app, first, page, j, p) ensures v.reached == At(p) {
      ShortChainIsFollowed(app, first, page, j);
    }
  }

  // ---------------------------------------------------------------- the shape of a run

  predicate AllRedirects(s: seq<Request>) { forall i :: 0 <= i < |s| ==> s[i].Redirect? }

  /** A request for the home page and at most `limit` redirects. */
  predicate IsVisit(s: seq<Request>, limit: nat) {
    s != [] && s[0] == Home && AllRedirects(s[1..]) && |s| <= 1 + limit
  }

  lemma {:induction false} FollowsOnlyRedirects(app: App, n: nat, page: Page)
    ensures AllRedirects(Follow(app, n, n, page).requests)
  {
    FollowsToFirstPage(app, n, page);
    var s := Follow(app, n, n, page).requests;
    forall i | 0 <= i < |s| ensures s[i].Redirect? { assert IsHop(PageAt(app, n, page, i), s[i]); }
  }

  lemma {:induction false} OpenShape(app: App, n: nat)
    ensures IsVisit(Open(app, n).requests, if Open(app, n).reached.At? then MAX_REDIRECTS else MAX_REDIRECTS + 1)
  {
    if app(n).Reply? {
      FollowsToFirstPage(app, n + 1, app(n).page);
      FollowsOnlyRedirects(app, n + 1, app(n).page);
      var v := Follow(app, n + 1, n + 1, app(n).page);
      assert ([Home] + v.requests)[1..] == v.requests;
    }
  }

  /** After the login request come at most eleven more, and a registration only last. */
  predicate IsTail(s: seq<Request>) {
    |s| <= MAX_REDIRECTS + 1 &&
      if s != [] && s[|s|-1] == Register then AllRedirects(s[..|s|-1]) else AllRedirects(s)
  }

  lemma {:induction false} LoggedInShape(app: App, n: nat, c: Config, p: Page)
    ensures IsTail(LoggedIn(app, n, c, p).requests)
  {
    FollowsToFirstPage(app, n, p);
    FollowsOnlyRedirects(app, n, p);
    var v := Follow(app, n, n, p);
    assert (v.requests + [Register])[..|v.requests|] == v.requests;
  }

  /** The login request is sent once or twice. */
  lemma {:induction false} LogInShape(app: App, n: nat, c: Config) returns (logins: seq<Request>, tail: seq<Request>)
    ensures LogIn(app, n, c).requests == logins + tail && IsTail(tail)
    ensures logins == [Login] || logins == [Login, Login]
  {
    var run := LogIn(app, n, c);
    if run.requests == [Login] || run.requests == [Login, Login] {
      logins, tail := run.requests, [];
    } else if !Refused(app(n).page) {
      logins, tail := [Login], LoggedIn(app, n + 1, c, app(n).page).requests;
      LoggedInShape(app, n + 1, c, app(n).page);
    } else {
      logins, tail := [Login, Login], LoggedIn(app, n + 2, c, app(n + 1).page).requests;
      LoggedInShape(app, n + 2, c, app(n + 1).page);
    }
  }

  /** A fresh visit, one or two login requests, redirects, and a registration only in the end. */
  predicate IsFresh(visit: seq<Request>, logins: seq<Request>, tail: seq<Request>) {
    && IsVisit(visit, if logins == [] then MAX_REDIRECTS + 1 else MAX_REDIRECTS) && IsTail(tail)
    && (if logins == [] then tail == [] else logins == [Login] || logins == [Login, Login])
  }

  lemma {:induction false} ResumeShape(v: Visit, goOn: bool, rest: Run, logins: seq<Request>, tail: seq<Request>)
    requires IsVisit(v.requests, if v.reached.At? then MAX_REDIRECTS else MAX_REDIRECTS + 1)
    requires goOn ==> v.reached.At? && rest.requests == logins + tail && IsTail(tail)
    requires goOn ==> logins == [Login] || logins == [Login, Login]
    requires !goOn ==> logins == [] && tail == []
    ensures Resume(v, goOn, rest).requests == v.requests + logins + tail && IsFresh(v.requests, logins, tail)
  {
  }

  lemma {:induction false} FreshShape(app: App, n: nat, c: Config)
    returns (visit: seq<Request>, logins: seq<Request>, tail: seq<Request>)
    ensures LoadFresh(app, n, c).requests == visit + logins + tail && IsFresh(visit, logins, tail)
  {
    var v := Open(app, n);
    var goOn, rest := v.reached.At? && AsksForLogin(v.reached.page), LogIn(app, n + |v.requests|, c);
    OpenShape(app, n);
    visit, logins, tail := v.requests, [], [];
    if goOn { logins, tail := LogInShape(app, n + |visit|, c); }
    ResumeShape(v, goOn, rest, logins, tail);
  }

  /**
   Whatever the app answers: a visit that checks an existing AuthTransition, then a fresh run, or
   only one of them.
   */
  lemma {:induction false} RunShape(app: App, n: nat, c: Config)
    returns (check: seq<Request>, visit: seq<Request>, logins: seq<Request>, tail: seq<Request>)
    ensures Load(app, n, c).requests == check + (visit + logins + tail)
    ensures visit + logins + tail == [] || IsFresh(visit, logins, tail)
    ensures check == [] || (c.transition && IsVisit(check, if visit == [] then MAX_REDIRECTS + 1 else MAX_REDIRECTS))
  {
    check, visit, logins, tail := [], [], [], [];
    if c.auth.Some? && c.auth.value.httpAuth {
    } else if !c.transition {
      visit, logins, tail := FreshShape(app, n, c);
    } else {
      OpenShape(app, n);
      var v := Open(app, n);
      check := v.requests;
      if v.reached.At? && Refused(v.reached.page) {
        visit, logins, tail := FreshShape(app, n + |check|, c);
      }
    }
  }

  lemma {:induction false} AtMost35Requests(app: App, n: nat, c: Config)
    ensures |Load(app, n, c).requests| <= 35
  {
    var check, visit, logins, tail := RunShape(app, n, c);
  }

  // ---------------------------------------------------------------- why each request is sent

  /** What the answer before a request must have been; `again` says that the request before was a login too. */
  predicate Calls(before: Answer, r: Request, again: bool) {
    match r
    case Home => true
    case Redirect(_, _) => IsHop(before, r)
    case Login =>
      before.Reply? &&
        if again then Refused(before.page) && before.page.addsCookies
        else AsksForLogin(before.page)
    case Register => before.Reply? && before.page.isSuccess && before.page.isRegistration && !before.page.isError
  }

  predicate CalledAt(app: App, n: nat, before: Answer, s: seq<Request>, i: nat)
    requires i < |s|
  {
    Calls(if i == 0 then before else app(n + i - 1), s[i], i > 0 && s[i-1] == Login)
  }

  /** The requests, the first of which is the n-th, are all called for; `before` is the answer before them. */
  predicate AllCalledFor(app: App, n: nat, before: Answer, s: seq<Request>) {
    forall i :: 0 <= i < |s| ==> CalledAt(app, n, before, s, i)
  }

  lemma {:induction false} CalledForJoin(app: App, n: nat, before: Answer, s: seq<Request>, t: seq<Request>)
    requires AllCalledFor(app, n, before, s) && s != [] && (s[|s|-1] == Login && t != [] ==> t[0] != Login)
    requires AllCalledFor(app, n + |s|, app(n + |s| - 1), t)
    ensures AllCalledFor(app, n, before, s + t)
  {
    forall i | 0 <= i < |s + t| ensures CalledAt(app, n, before, s + t, i) {
      if i < |s| {
        assert CalledAt(app, n, before, s, i);
      } else {
        assert CalledAt(app, n + |s|, app(n + |s| - 1), t, i - |s|);
      }
    }
  }

  lemma {:induction false} FollowCalledFor(app: App, n: nat, p: Page)
    ensures AllCalledFor(app, n, Reply(p), Follow(app, n, n, p).requests)
    ensures Follow(app, n, n, p).reached.At? ==>
      Reply(Follow(app, n, n, p).reached.page) == PageAt(app, n, p, |Follow(app, n, n, p).requests|)
  {
    FollowsToFirstPage(app, n, p);
    var s := Follow(app, n, n, p).requests;
    forall i | 0 <= i < |s| ensures CalledAt(app, n, Reply(p), s, i) {
      assert IsHop(PageAt(app, n, p, i), s[i]);
    }
  }

  lemma {:induction false} OpenCalledFor(app: App, n: nat, before: Answer)
    ensures AllCalledFor(app, n, before, Open(app, n).requests)
    ensures Open(app, n).reached.At? ==> app(n + |Open(app, n).requests| - 1) == Reply(Open(app, n).reached.page)
  {
    if app(n).Reply? {
      FollowCalledFor(app, n + 1, app(n).page);
      assert app(n + |[Home]| - 1) == Reply(app(n).page);
      CalledForJoin(app, n, before, [Home], Follow(app, n + 1, n + 1, app(n).page).requests);
    }
  }

  lemma {:induction false} LoggedInCalledFor(app: App, n: nat, c: Config, p: Page)
    ensures AllCalledFor(app, n, Reply(p), LoggedIn(app, n, c, p).requests)
  {
    FollowCalledFor(app, n, p);
    var s := Follow(app, n, n, p).requests;
    if LoggedIn(app, n, c, p).requests == s + [Register] {
      var q := Follow(app, n, n, p).reached.page;
      if s != [] { CalledForJoin(app, n, Reply(p), s, [Register]); }
    }
  }

  lemma {:induction false} LoginsCalledFor(app: App, n: nat, c: Config, before: Answer, logins: seq<Request>, p: Page)
    requires logins != [] && AllCalledFor(app, n, before, logins) && app(n + |logins| - 1) == Reply(p)
    ensures AllCalledFor(app, n, before, logins + LoggedIn(app, n + |logins|, c, p).requests)
  {
    LoggedInShape(app, n + |logins|, c, p);
    LoggedInCalledFor(app, n + |logins|, c, p);
    CalledForJoin(app, n, before, logins, LoggedIn(app, n + |logins|, c, p).requests);
  }

  lemma {:induction false} LogInCalledFor(app: App, n: nat, c: Config, before: Page)
    requires AsksForLogin(before)
    ensures AllCalledFor(app, n, Reply(before), LogIn(app, n, c).requests)
  {
    assert AllCalledFor(app, n, Reply(before), [Login]);
    if app(n).Reply? {
      var p := app(n).page;
      if !Refused(p) {
        LoginsCalledFor(app, n, c, Reply(before), [Login], p);
      } else if p.addsCookies {
        assert AllCalledFor(app, n, Reply(before), [Login, Login]);
        if app(n + 1).Reply? { LoginsCalledFor(app, n, c, Reply(before), [Login, Login], app(n + 1).page); }
      }
    }
  }

  lemma {:induction false} VisitEndsWithoutLogin(s: seq<Request>, limit: nat)
    requires IsVisit(s, limit)
    ensures s[|s|-1] != Login
  {
    if |s| > 1 { assert s[1..][|s|-2].Redirect?; }
  }

  lemma {:induction false} ResumeCalledFor(app: App, n: nat, before: Answer, goOn: bool, rest: Run)
    requires goOn ==> Open(app, n).reached.At?
    requires goOn ==> AllCalledFor(app, n + |Open(app, n).requests|, Reply(Open(app, n).reached.page), rest.requests)
    ensures AllCalledFor(app, n, before, Resume(Open(app, n), goOn, rest).requests)
  {
    var v := Open(app, n);
    OpenCalledFor(app, n, before);
    OpenShape(app, n);
    if goOn {
      VisitEndsWithoutLogin(v.requests, MAX_REDIRECTS);
      CalledForJoin(app, n, before, v.requests, rest.requests);
    }
  }

  lemma {:induction false} FreshCalledFor(app: App, n: nat, c: Config, before: Answer)
    ensures AllCalledFor(app, n, before, LoadFresh(app, n, c).requests)
  {
    var v := Open(app, n);
    var goOn := v.reached.At? && AsksForLogin(v.reached.page);
    if goOn { LogInCalledFor(app, n + |v.requests|, c, v.reached.page); }
    ResumeCalledFor(app, n, before, goOn, LogIn(app, n + |v.requests|, c));
  }

  lemma {:induction false} CheckedCalledFor(app: App, n: nat, c: Config, before: Answer)
    ensures AllCalledFor(app, n, before, LoadChecked(app, n, c).requests)
  {
    var v := Open(app, n);
    var goOn := v.reached.At? && Refused(v.reached.page);
    if goOn { FreshCalledFor(app, n + |v.requests|, c, Reply(v.reached.page)); }
    ResumeCalledFor(app, n, before, goOn, LoadFresh(app, n + |v.requests|, c));
  }

  /**
   In every run a redirect is requested only where the answer before points, the login is
   sent only on a login or error page with a form, again only after a refusal with new
   cookies, and a registration only on a registration page that shows no error.
   */
  lemma {:induction false} RequestsAreCalledFor(app: App, n: nat, c: Config, before: Answer)
    ensures AllCalledFor(app, n, before, Load(app, n, c).requests)
  {
    CheckedCalledFor(app, n, c, before);
    FreshCalledFor(app, n, c, before);
  }

  // ---------------------------------------------------------------- where a visit ends

  /** The n-th answer is a home page that starts a long chain. */
  predicate LongHome(app: App, n: nat) {
    app(n).Reply? && LongChain(app, n + 1, app(n).page)
  }

  /** The n-th answer is a home page that leads to `p` by `h` redirects, ten at most. */
  predicate VisitEnds(app: App, n: nat, h: nat, p: Page) {
    h <= MAX_REDIRECTS && app(n).Reply? && EndsAt(app, n + 1, app(n).page, h, p)
  }

  lemma {:induction false} VisitExactly(app: App, n: nat)
    ensures Open(app, n).reached.NullPointer? <==> LongHome(app, n)
    ensures Open(app, n).reached.At? ==>
      |Open(app, n).requests| > 0 && VisitEnds(app, n, |Open(app, n).requests| - 1, Open(app, n).reached.page)
    ensures forall h: nat, p :: VisitEnds(app, n, h, p) ==>
      Open(app, n).reached == At(p) && |Open(app, n).requests| == 1 + h
  {
    if app(n).Reply? {
      var page, first := app(n).page, n + 1;
      FollowsExactly(app, first, page);
      FollowsToFirstPage(app, first, page);
      var v := Follow(app, first, first, page);
      assert forall i :: 0 <= i < |v.requests| ==> Redirects(PageAt(app, first, page, i));
      if v.reached.At? { assert EndsAt(app, first, page, |v.requests|, v.reached.page); }
      forall h: nat, p | VisitEnds(app, n, h, p) ensures v.reached == At(p) && |v.requests| == h {
        ShortChainIsFollowed(app, first, page, h);
      }
    }
  }

  // ---------------------------------------------------------------- if success excludes redirection

  /** No answer is both a success and a 3xx. */
  ghost predicate StatusesExclude(app: App) {
    forall i :: app(i).Reply? ==> !(app(i).page.isSuccess && app(i).page.is3xx)
  }

  lemma {:induction false} LogInWithoutRedirects(app: App, n: nat, c: Config)
    requires StatusesExclude(app)
    ensures LogIn(app, n, c).requests == [Login] || LogIn(app, n, c).requests == [Login, Login]
  {
  }

  /** Then the redirects of the login are never followed: no registration is sent, and 24 requests are the most. */
  lemma {:induction false} RegistrationIsUnreachable(app: App, n: nat, c: Config)
    requires StatusesExclude(app)
    ensures |Load(app, n, c).requests| <= 24 && Register !in Load(app, n, c).requests
  {
    if !(c.auth.Some? && c.auth.value.httpAuth) {
      if c.transition {
        OpenShape(app, n);
        VisitSendsNoCredentials(Open(app, n).requests, MAX_REDIRECTS + 1);
        FreshWithoutRedirects(app, n + |Open(app, n).requests|, c);
      } else {
        FreshWithoutRedirects(app, n, c);
      }
    }
  }

  lemma {:induction false} VisitSendsNoCredentials(s: seq<Request>, limit: nat)
    requires IsVisit(s, limit)
    ensures Register !in s
  {
    forall i | 0 <= i < |s| ensures s[i] != Register { if i > 0 { assert s[1..][i-1].Redirect?; } }
  }

  lemma {:induction false} FreshWithoutRedirects(app: App, n: nat, c: Config)
    requires StatusesExclude(app)
    ensures |LoadFresh(app, n, c).requests| <= 13 && Register !in LoadFresh(app, n, c).requests
  {
    OpenShape(app, n);
    VisitSendsNoCredentials(Open(app, n).requests, MAX_REDIRECTS + 1);
    LogInWithoutRedirects(app, n + |Open(app, n).requests|, c);
  }

  // ---------------------------------------------------------------- the bound is met

  const NOWHERE := Page(None, None, "", true, false, false, false, false, false, false)

  /** Answers that make a run as long as it can be; `both` says whether redirects count as successes. */
  function Worst(n: nat, both: bool, i: nat): Answer {
    if i == n + 10 || i == n + 21 then Reply(NOWHERE.(isLogin := true, hasLoginForm := true))
    else if i == n + 22 then Reply(NOWHERE.(isSuccess := false, addsCookies := true))
    else if i == n + 33 then Reply(NOWHERE.(isRegistration := true))
    else Reply(NOWHERE.(redirect := Some("/"), location := Some("/"), is3xx := true, isSuccess := both))
  }

  ghost predicate IsWorst(app: App, n: nat, both: bool) {
    forall i :: app(i) == Worst(n, both, i)
  }

  /** Both bounds are met by some answers: 35 if a redirect may be a success, and 24 if not. */
  lemma {:induction false} BoundIsMet(n: nat, both: bool) returns (app: App, c: Config)
    ensures |Load(app, n, c).requests| == (if both then 35 else 24) && Load(app, n, c).outcome == Sent(None)
    ensures !both ==> StatusesExclude(app)
  {
    app, c := (i: nat) => Worst(n, both, i), Config(Some(Auth(false, Some(iset{"/"}), None)), true);
    WorstVisit(app, n, both, n);
    WorstVisit(app, n, both, n + 11);
    WorstLogin(app, n, both, c);
  }

  lemma {:induction false} WorstVisit(app: App, n: nat, both: bool, first: nat)
    requires IsWorst(app, n, both) && (first == n || first == n + 11)
    ensures |Open(app, first).requests| == 11
    ensures Open(app, first).reached == At(NOWHERE.(isLogin := true, hasLoginForm := true))
  {
    ShortChainIsFollowed(app, first + 1, app(first).page, 10);
  }

  lemma {:induction false} WorstLogin(app: App, n: nat, both: bool, c: Config)
    requires IsWorst(app, n, both) && c.auth.Some? && c.auth.value.registration == Some(iset{"/"})
    ensures |LogIn(app, n + 22, c).requests| == (if both then 13 else 2) && LogIn(app, n + 22, c).outcome == Sent(None)
  {
    ShortChainIsFollowed(app, n + 24, app(n + 23).page, 10);
  }
}
