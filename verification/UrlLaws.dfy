/**
 What the URL splitter finds: every string has exactly one reading as scheme, login, host, port,
 path, query and fragment with their separators, and the fields the parser fills in are the
 places of those parts.
 */
module UrlLaws {
  import opened Url
  import opened Wrappers

  datatype Login = Login(user: string, password: Option<string>)

  datatype Parts = Parts(scheme: Option<string>, login: Option<Login>, host: string, port: Option<string>,
                         path: Option<string>, query: Option<string>, fragment: Option<string>)

  // ---- Putting a URL together ----

  /** The part behind its separator. */
  function Led(separator: string, part: Option<string>): string {
    if part.Some? then separator + part.value else ""
  }

  function Followed(part: Option<string>, separator: string): string {
    if part.Some? then part.value + separator else ""
  }

  function UserText(l: Login): string { l.user + Led(":", l.password) }

  function LoginText(p: Parts): string { if p.login.Some? then UserText(p.login.value) + "@" else "" }

  function AuthorityText(p: Parts): string { LoginText(p) + p.host + Led(":", p.port) }

  function TailText(p: Parts): string { Led("", p.path) + Led("?", p.query) + Led("#", p.fragment) }

  function Unparse(p: Parts): string { Followed(p.scheme, "://") + AuthorityText(p) + TailText(p) }

  predicate NoMark(s: string) { forall i: nat :: i < |s| ==> !MarkAt(s, i) }

  predicate GoodLogin(l: Login) {
    && ':' !in l.user && '@' !in l.user && '/' !in l.user
    && (l.password.Some? ==> '@' !in l.password.value && '/' !in l.password.value)
  }

  predicate GoodAuthority(p: Parts) {
    && (p.login.Some? ==> GoodLogin(p.login.value))
    && ':' !in p.host && '/' !in p.host
    && (p.port.Some? ==> '/' !in p.port.value)
    && (p.login.None? ==> '@' !in p.host && (p.port.Some? ==> '@' !in p.port.value))
  }

  /** A query needs a path in front of it, and a fragment a query. */
  predicate GoodTail(p: Parts) {
    && (p.path.Some? ==> |p.path.value| > 0 && p.path.value[0] == '/' && '?' !in p.path.value)
    && (p.query.Some? ==> p.path.Some? && '#' !in p.query.value)
    && (p.fragment.Some? ==> p.query.Some?)
  }

  /** The parts can be told apart. */
  predicate WellFormed(p: Parts) {
    && GoodAuthority(p) && GoodTail(p)
    && if p.scheme.Some? then NoMark(p.scheme.value) else NoMark(AuthorityText(p) + TailText(p))
  }

  // ---- Where the parts are ----

  function Place(off: nat, part: Option<string>): Field
    requires off + (if part.Some? then |part.value| else 0) <= 65535
  {
    if part.Some? then Field(off, |part.value|) else NONE
  }

  function AuthorityPlaces(p: Parts, from: nat): Authority
    requires from + |AuthorityText(p)| <= 65535
  {
    var host := from + |LoginText(p)|;
    var login := p.login;
    Authority(
      if login.Some? then Field(from, |login.value.user|) else NONE,
      if login.Some? && login.value.password.Some? then
        Field(from + |login.value.user| + 1, |login.value.password.value|) else NONE,
      Field(host, |p.host|),
      if p.port.Some? then Field(host + |p.host| + 1, |p.port.value|) else NONE,
      if p.port.Some? then PortNumber(p.port.value) else if p.scheme == Some("https") then 443 else 80)
  }

  function TailPlaces(p: Parts, from: nat): Tail
    requires from + |TailText(p)| <= 65535 && GoodTail(p)
  {
    var query := from + |Led("", p.path)|;
    var fragment := query + |Led("?", p.query)|;
    Tail(Place(from, p.path),
         if p.query.Some? then Field(query + 1, |p.query.value|) else NONE,
         if p.fragment.Some? then Field(fragment + 1, |p.fragment.value|) else NONE)
  }

  function Places(p: Parts): Fields
    requires |Unparse(p)| <= 65535 && GoodTail(p)
  {
    var from := |Followed(p.scheme, "://")|;
    var a, t := AuthorityPlaces(p, from), TailPlaces(p, from + |AuthorityText(p)|);
    Fields(Place(0, p.scheme), a.username, a.password, a.host, a.port, t.path, t.query, t.fragment, a.number)
  }

  // ---- Taking a URL apart ----

  function LoginIn(a: string, at: nat): Login
    requires at <= |a|
  {
    var secret := Find(a, ':', 0, at);
    Login(a[0..secret], if secret < at then Some(a[secret + 1..at]) else None)
  }

  function PartsOfAuthority(a: string): (Option<Login>, string, Option<string>) {
    var at := Find(a, '@', 0, |a|);
    var host := if at < |a| then at + 1 else 0;
    var colon := Find(a, ':', host, |a|);
    (if at < |a| then Some(LoginIn(a, at)) else None,
     a[host..colon],
     if colon < |a| then Some(a[colon + 1..|a|]) else None)
  }

  function PartsOfTail(t: string): (Option<string>, Option<string>, Option<string>) {
    if t == "" then (None, None, None)
    else
      var question := Find(t, '?', 0, |t|);
      if question == |t| then (Some(t), None, None)
      else
        var hash := Find(t, '#', question + 1, |t|);
        (Some(t[0..question]), Some(t[question + 1..hash]), if hash < |t| then Some(t[hash + 1..|t|]) else None)
  }

  function PartsOf(s: string): Parts {
    var mark := FindMark(s, 0);
    var rest := if mark < |s| then s[mark + 3..] else s;
    var slash := Find(rest, '/', 0, |rest|);
    var (login, host, port) := PartsOfAuthority(rest[0..slash]);
    var (path, query, fragment) := PartsOfTail(rest[slash..]);
    Parts(if mark < |s| then Some(s[..mark]) else None, login, host, port, path, query, fragment)
  }

  // ---- Searching in what was put together ----

  lemma FindAfter(s: string, c: char, from: nat, end: nat, part: string)
    requires from + |part| <= end <= |s| && s[from..from + |part|] == part && c !in part
    requires from + |part| < end ==> s[from + |part|] == c
    ensures Find(s, c, from, end) == from + |part|
  {
    forall i | from <= i < from + |part| ensures s[i] != c {
      assert s[i] == s[from..from + |part|][i - from];
    }
    FindIs(s, c, from, end, from + |part|);
  }

  lemma MiddleSlice(a: string, b: string, c: string)
    ensures (a + b + c)[|a|..|a| + |b|] == b && (a + b + c)[..|a|] == a && (a + b + c)[|a| + |b|..] == c
  {}

  lemma FindMarkIs(s: string, from: nat, k: nat)
    requires from <= k <= |s| && (k < |s| ==> MarkAt(s, k)) && forall i: nat :: from <= i < k ==> !MarkAt(s, i)
    ensures FindMark(s, from) == k
  {}

  lemma FindMarkAfter(scheme: string, rest: string)
    requires NoMark(scheme)
    ensures FindMark(scheme + "://" + rest, 0) == |scheme|
  {
    var s := scheme + "://" + rest;
    forall i: nat | i < |scheme| ensures !MarkAt(s, i) {
      assert !MarkAt(scheme, i);
    }
    FindMarkIs(s, 0, |scheme|);
  }

  lemma NoMarkFound(s: string)
    requires NoMark(s)
    ensures FindMark(s, 0) == |s|
  {
    FindMarkIs(s, 0, |s|);
  }

  lemma SliceOfSlice(u: string, from: nat, text: string, a: nat, b: nat)
    requires from + |text| <= |u| && u[from..from + |text|] == text && a <= b <= |text|
    ensures u[from + a..from + b] == text[a..b]
  {
    forall i | a <= i < b ensures u[from + i] == text[i] {
      assert u[from..from + |text|][i] == u[from + i];
    }
  }

  /** A part behind a separator of one character. */
  lemma LedSlice(u: string, k: nat, end: nat, separator: string, part: Option<string>)
    requires k <= end <= |u| && |separator| == 1 && u[k..end] == Led(separator, part)
    ensures part.Some? <==> k < end
    ensures part.Some? ==> u[k] == separator[0] && end - k - 1 == |part.value| && u[k + 1..end] == part.value
  {
    if part.Some? {
      assert u[k] == u[k..end][0];
      assert u[k + 1..end] == u[k..end][1..];
    }
  }

  // ---- The authority ----

  lemma UserNoAt(l: Login)
    requires GoodLogin(l)
    ensures '@' !in UserText(l) && '/' !in UserText(l) && ':' !in l.user
  {}

  lemma AuthorityNoSlash(p: Parts)
    requires GoodAuthority(p)
    ensures '/' !in AuthorityText(p)
  {
    if p.login.Some? { UserNoAt(p.login.value); }
  }

  lemma HostNoAt(p: Parts)
    requires GoodAuthority(p) && p.login.None?
    ensures '@' !in AuthorityText(p)
  {}

  /** The login stands first, the host behind it, the port last. */
  lemma AuthoritySlices(p: Parts, u: string, from: nat)
    requires from + |AuthorityText(p)| <= |u| && u[from..from + |AuthorityText(p)|] == AuthorityText(p)
    ensures var host := from + |LoginText(p)|;
            && host + |p.host| <= from + |AuthorityText(p)|
            && u[from..host] == LoginText(p)
            && u[host..host + |p.host|] == p.host
            && u[host + |p.host|..from + |AuthorityText(p)|] == Led(":", p.port)
  {
    var l, h, t := LoginText(p), p.host, Led(":", p.port);
    var a := AuthorityText(p);
    MiddleSlice(l, h, t);
    SliceOfSlice(u, from, a, 0, |l|);
    SliceOfSlice(u, from, a, |l|, |l| + |h|);
    SliceOfSlice(u, from, a, |l| + |h|, |a|);
  }

  lemma LoginSlices(l: Login, p: Parts, u: string, from: nat)
    requires p.login == Some(l) && from + |LoginText(p)| <= |u| && u[from..from + |LoginText(p)|] == LoginText(p)
    ensures var at := from + |UserText(l)|;
            && |LoginText(p)| == |UserText(l)| + 1 && at < |u| && u[at] == '@'
            && u[from..at] == UserText(l)
            && |l.user| <= |UserText(l)|
            && u[from..from + |l.user|] == l.user && u[from + |l.user|..at] == Led(":", l.password)
  {
    var user, t := UserText(l), LoginText(p);
    assert t[..|user|] == user && t[|user|] == '@';
    SliceOfSlice(u, from, t, 0, |user|);
    SliceOfSlice(u, from, t, |user|, |t|);
    assert u[from + |user|] == u[from + |user|..from + |t|][0];
    assert user[..|l.user|] == l.user && user[|l.user|..] == Led(":", l.password);
    SliceOfSlice(u, from, user, 0, |l.user|);
    SliceOfSlice(u, from, user, |l.user|, |user|);
  }

  lemma LoginFound(l: Login, p: Parts, u: string, from: nat)
    requires GoodLogin(l) && p.login == Some(l)
    requires from + |AuthorityText(p)| <= |u| && u[from..from + |AuthorityText(p)|] == AuthorityText(p)
    ensures var at, secret := from + |UserText(l)|, from + |l.user|;
            && |LoginText(p)| == |UserText(l)| + 1
            && Find(u, '@', from, from + |AuthorityText(p)|) == at < from + |AuthorityText(p)|
            && Find(u, ':', from, at) == secret
            && u[from..secret] == l.user
            && (l.password.Some? <==> secret < at)
            && (l.password.Some? ==> at - secret - 1 == |l.password.value| && u[secret + 1..at] == l.password.value)
  {
    hide AuthorityText, LoginText, UserText, Led, Find, Absent, GoodLogin;
    AuthoritySlices(p, u, from);
    LoginSlices(l, p, u, from);
    UserNoAt(l);
    FindAfter(u, '@', from, from + |AuthorityText(p)|, UserText(l));
    LedSlice(u, from + |l.user|, from + |UserText(l)|, ":", l.password);
    FindAfter(u, ':', from, from + |UserText(l)|, l.user);
  }

  lemma HostFound(p: Parts, u: string, from: nat)
    requires GoodAuthority(p)
    requires from + |AuthorityText(p)| <= |u| && u[from..from + |AuthorityText(p)|] == AuthorityText(p)
    ensures var host, end := from + |LoginText(p)|, from + |AuthorityText(p)|;
            var colon := host + |p.host|;
            && colon <= end && Find(u, ':', host, end) == colon
            && u[host..colon] == p.host
            && (p.port.Some? <==> colon < end)
            && (p.port.Some? ==> end - colon - 1 == |p.port.value| && u[colon + 1..end] == p.port.value)
    ensures p.login.None? ==>
              LoginText(p) == "" && Find(u, '@', from, from + |AuthorityText(p)|) == from + |AuthorityText(p)|
  {
    var host, end := from + |LoginText(p)|, from + |AuthorityText(p)|;
    AuthoritySlices(p, u, from);
    if p.login.None? {
      HostNoAt(p);
      FindAfter(u, '@', from, end, AuthorityText(p));
    }
    assert |LoginText(p)| + |p.host| <= |AuthorityText(p)|;
    assert ':' !in p.host;
    hide AuthorityText, Led, Find, GoodAuthority;
    LedSlice(u, host + |p.host|, end, ":", p.port);
    FindAfter(u, ':', host, end, p.host);
  }

  lemma AuthorityFound(p: Parts, u: string, from: nat)
    requires GoodAuthority(p) && |u| <= 65535
    requires from + |AuthorityText(p)| <= |u| && u[from..from + |AuthorityText(p)|] == AuthorityText(p)
    requires IsHttps(u) <==> p.scheme == Some("https")
    ensures AuthorityOf(u, from, from + |AuthorityText(p)|) == AuthorityPlaces(p, from)
  {
    hide Find, Absent, PortNumber, GoodAuthority, GoodLogin, IsHttps, AuthorityText, LoginText, UserText, Led;
    LoginIsGood(p);
    HostFound(p, u, from);
    if p.login.Some? { LoginFound(p.login.value, p, u, from); }
  }

  lemma PartsOfHost(a: string, login: Option<Login>, from: nat, host: string, port: Option<string>)
    requires var at := Find(a, '@', 0, |a|);
             && (login.Some? <==> at < |a|)
             && from == (if at < |a| then at + 1 else 0)
             && (login.Some? ==>
               var l := login.value;
               var secret := |l.user|;
               && secret <= at && Find(a, ':', 0, at) == secret && a[0..secret] == l.user
               && (l.password.Some? <==> secret < at)
               && (l.password.Some? ==> a[secret + 1..at] == l.password.value))
    requires var colon := from + |host|;
             && colon <= |a| && Find(a, ':', from, |a|) == colon && a[from..colon] == host
             && (port.Some? <==> colon < |a|)
             && (port.Some? ==> a[colon + 1..|a|] == port.value)
    ensures PartsOfAuthority(a) == (login, host, port)
  {
    hide Find;
  }

  lemma LoginIsGood(p: Parts)
    requires GoodAuthority(p)
    ensures p.login.Some? ==> GoodLogin(p.login.value)
  {}

  lemma PartsOfAuthorityText(p: Parts)
    requires GoodAuthority(p)
    ensures PartsOfAuthority(AuthorityText(p)) == (p.login, p.host, p.port)
  {
    hide Find, Absent, GoodAuthority, GoodLogin, AuthorityText, LoginText, UserText, Led, PartsOfAuthority;
    LoginIsGood(p);
    var u := AuthorityText(p);
    assert u[0..0 + |u|] == u;
    HostFound(p, u, 0);
    if p.login.Some? { LoginFound(p.login.value, p, u, 0); }
    PartsOfHost(u, p.login, |LoginText(p)|, p.host, p.port);
  }

  // ---- The tail ----

  lemma TailSlices(p: Parts, u: string, from: nat)
    requires GoodTail(p) && from + |TailText(p)| == |u| && u[from..] == TailText(p)
    ensures var query := from + |Led("", p.path)|;
            var fragment := query + |Led("?", p.query)|;
            && u[from..query] == Led("", p.path)
            && u[query..fragment] == Led("?", p.query)
            && fragment <= |u| && u[fragment..|u|] == Led("#", p.fragment)
  {
    hide Led;
    ThreeSlices(u, from, Led("", p.path), Led("?", p.query), Led("#", p.fragment));
  }

  lemma ThreeSlices(u: string, from: nat, a: string, b: string, c: string)
    requires from <= |u| && u[from..] == a + b + c
    ensures |u| == from + |a| + |b| + |c|
    ensures u[from..from + |a|] == a && u[from + |a|..from + |a| + |b|] == b && u[from + |a| + |b|..|u|] == c
  {
    var t := a + b + c;
    MiddleSlice(a, b, c);
    assert u[from..from + |t|] == u[from..];
    SliceOfSlice(u, from, t, 0, |a|);
    SliceOfSlice(u, from, t, |a|, |a| + |b|);
    SliceOfSlice(u, from, t, |a| + |b|, |t|);
  }

  lemma TailStops(p: Parts, u: string, from: nat)
    requires GoodTail(p) && from + |TailText(p)| == |u| && u[from..] == TailText(p) && p.path.Some?
    ensures var query := from + |p.path.value|;
            && Find(u, '?', from, |u|) == query && u[from..query] == p.path.value
            && (p.query.Some? <==> query < |u|)
            && (p.query.Some? ==>
              var fragment := query + 1 + |p.query.value|;
              && fragment <= |u| && Find(u, '#', query + 1, |u|) == fragment
              && u[query + 1..fragment] == p.query.value
              && (p.fragment.Some? <==> fragment < |u|)
              && (p.fragment.Some? ==> u[fragment + 1..|u|] == p.fragment.value))
  {
    hide TailText, Led, Find, Absent, GoodTail;
    PathText(p);
    TailSlices(p, u, from);
    var query := from + |p.path.value|;
    var fragment := query + |Led("?", p.query)|;
    LedSlice(u, query, fragment, "?", p.query);
    LedSlice(u, fragment, |u|, "#", p.fragment);
    if p.query.Some? { FindAfter(u, '#', query + 1, |u|, p.query.value); }
    FindAfter(u, '?', from, |u|, p.path.value);
  }

  lemma PathText(p: Parts)
    requires GoodTail(p) && p.path.Some?
    ensures Led("", p.path) == p.path.value && '?' !in p.path.value && TailText(p) != ""
    ensures p.query.Some? ==> '#' !in p.query.value
    ensures p.query.None? ==> p.fragment.None? && Led("#", p.fragment) == ""
  {}

  lemma TailFound(p: Parts, u: string, from: nat)
    requires GoodTail(p) && from + |TailText(p)| == |u| <= 65535 && u[from..] == TailText(p)
    ensures TailOf(u, from) == TailPlaces(p, from)
  {
    hide Find;
    if p.path.Some? {
      assert Led("", p.path) == p.path.value;
      TailStops(p, u, from);
    }
  }

  lemma PartsOfPath(t: string)
    requires t != ""
    ensures var question := Find(t, '?', 0, |t|);
            if question == |t| then PartsOfTail(t) == (Some(t), None, None)
            else
              var hash := Find(t, '#', question + 1, |t|);
              PartsOfTail(t) == (Some(t[0..question]), Some(t[question + 1..hash]),
                                 if hash < |t| then Some(t[hash + 1..|t|]) else None)
  {}

  lemma PartsOfTailText(p: Parts)
    requires GoodTail(p)
    ensures PartsOfTail(TailText(p)) == (p.path, p.query, p.fragment)
  {
    var u := TailText(p);
    if p.path.Some? {
      PathParts(p);
    } else {
      NoPathNoTail(p);
      assert u == "";
    }
  }

  lemma NoPathNoTail(p: Parts)
    requires GoodTail(p) && p.path.None?
    ensures p.query.None? && p.fragment.None? && TailText(p) == ""
  {}

  lemma PathParts(p: Parts)
    requires GoodTail(p) && p.path.Some?
    ensures PartsOfTail(TailText(p)) == (p.path, p.query, p.fragment)
  {
    hide Find, Absent, TailText, Led, PartsOfTail, GoodTail;
    var u := TailText(p);
    WholeSlice(u);
    PathText(p);
    TailStops(p, u, 0);
    assert u != "";
    PartsOfPath(u);
  }

  lemma WholeSlice(u: string)
    ensures u[0..] == u == u[0..|u|]
  {}

  // ---- Whole URLs ----

  lemma SchemeFound(p: Parts)
    requires WellFormed(p)
    ensures FindMark(Unparse(p), 0) == if p.scheme.Some? then |p.scheme.value| else |Unparse(p)|
    ensures p.scheme.Some? ==> |Unparse(p)| >= |p.scheme.value| + 3
    ensures IsHttps(Unparse(p)) <==> p.scheme == Some("https")
  {
    var u, rest := Unparse(p), AuthorityText(p) + TailText(p);
    if p.scheme.Some? {
      assert u == p.scheme.value + "://" + rest;
      FindMarkAfter(p.scheme.value, rest);
    } else {
      assert u == rest;
      NoMarkFound(u);
    }
    HttpsIffScheme(p);
  }

  lemma HttpsIffScheme(p: Parts)
    requires FindMark(Unparse(p), 0) == if p.scheme.Some? then |p.scheme.value| else |Unparse(p)|
    ensures IsHttps(Unparse(p)) <==> p.scheme == Some("https")
  {
    hide FindMark, AuthorityText, TailText;
    var u, rest := Unparse(p), AuthorityText(p) + TailText(p);
    HttpsHasScheme(u);
    if IsHttps(u) {
      assert u == p.scheme.value + ("://" + rest);
      assert u[..5] == p.scheme.value;
      assert u[..5] == u[..8][..5] == "https";
    }
    if p.scheme == Some("https") {
      assert "https" + "://" == "https://";
      assert u == "https://" + rest;
    }
  }

  lemma RestOf(p: Parts)
    ensures var from := |Followed(p.scheme, "://")|;
            && |Unparse(p)| == from + |AuthorityText(p)| + |TailText(p)|
            && Unparse(p)[from..] == AuthorityText(p) + TailText(p)
            && (p.scheme.Some? ==> from == |p.scheme.value| + 3 && Unparse(p)[..|p.scheme.value|] == p.scheme.value)
            && (p.scheme.None? ==> from == 0 && Unparse(p) == AuthorityText(p) + TailText(p))
  {
    assert Unparse(p) == Followed(p.scheme, "://") + (AuthorityText(p) + TailText(p));
  }

  /** The first slash behind the scheme begins the path. */
  lemma SlashFound(p: Parts, u: string, from: nat)
    requires GoodAuthority(p) && GoodTail(p)
    requires from + |AuthorityText(p)| + |TailText(p)| == |u| && u[from..] == AuthorityText(p) + TailText(p)
    ensures var slash := from + |AuthorityText(p)|;
            && Find(u, '/', from, |u|) == slash && u[from..slash] == AuthorityText(p) && u[slash..] == TailText(p)
  {
    var slash := from + |AuthorityText(p)|;
    assert u[from..slash] == u[from..][..|AuthorityText(p)|] == AuthorityText(p);
    assert u[slash..] == u[from..][|AuthorityText(p)|..] == TailText(p);
    if slash < |u| { assert u[slash] == TailText(p)[0]; }
    AuthorityNoSlash(p);
    FindAfter(u, '/', from, |u|, AuthorityText(p));
  }

  function SchemeLength(p: Parts): nat { if p.scheme.Some? then |p.scheme.value| + 3 else 0 }

  lemma Apart(p: Parts)
    requires WellFormed(p)
    ensures GoodAuthority(p) && GoodTail(p) && |Followed(p.scheme, "://")| == SchemeLength(p)
  {}

  /** Where scheme, authority and tail lie in the whole. */
  lemma Cuts(p: Parts)
    requires WellFormed(p)
    ensures var u, from := Unparse(p), SchemeLength(p);
            var slash := from + |AuthorityText(p)|;
            && slash + |TailText(p)| == |u|
            && Find(u, '/', from, |u|) == slash && u[from..slash] == AuthorityText(p) && u[slash..] == TailText(p)
  {
    hide WellFormed, GoodAuthority, GoodTail, Unparse, AuthorityText, TailText, Followed, Find, Absent;
    Apart(p);
    RestOf(p);
    SlashFound(p, Unparse(p), SchemeLength(p));
  }

  lemma PlacesFound(p: Parts)
    requires WellFormed(p) && |Unparse(p)| <= 65535
    ensures var u, from := Unparse(p), SchemeLength(p);
            var slash := from + |AuthorityText(p)|;
            && slash + |TailText(p)| == |u| && GoodTail(p)
            && AuthorityOf(u, from, slash) == AuthorityPlaces(p, from)
            && TailOf(u, slash) == TailPlaces(p, slash)
  {
    hide WellFormed, GoodAuthority, GoodTail, Unparse, AuthorityText, TailText, AuthorityOf, AuthorityPlaces;
    hide TailOf, TailPlaces, Find, Absent, FindMark, MarkAt, IsHttps;
    Apart(p);
    Cuts(p);
    SchemeFound(p);
    AuthorityFound(p, Unparse(p), SchemeLength(p));
    TailFound(p, Unparse(p), SchemeLength(p) + |AuthorityText(p)|);
  }

  /** The parser finds every part where it was put, with its own length and no sixteen bits short. */
  lemma ParseOfUnparse(p: Parts)
    requires WellFormed(p) && Octets(Unparse(p)) && |Unparse(p)| <= 65535
    ensures ParseOf(Unparse(p)) == Places(p)
  {
    hide WellFormed, GoodTail, Unparse, AuthorityText, TailText, AuthorityOf, AuthorityPlaces, TailOf, TailPlaces;
    hide Find, Absent, FindMark, MarkAt, Followed, IsHttps, Octets;
    Apart(p);
    Cuts(p);
    PlacesFound(p);
    SchemeFound(p);
  }

  /** Reading back what was put together gives the same parts. */
  lemma PartsOfUnparse(p: Parts)
    requires WellFormed(p)
    ensures PartsOf(Unparse(p)) == p
  {
    hide WellFormed, GoodAuthority, GoodTail, Unparse, AuthorityText, TailText, Followed, IsHttps, NoMark;
    hide Find, Absent, FindMark, MarkAt, PartsOfAuthority, PartsOfTail;
    Apart(p);
    SchemeFound(p);
    RestOf(p);
    var rest := AuthorityText(p) + TailText(p);
    assert rest[0..] == rest;
    SlashFound(p, rest, 0);
    PartsOfAuthorityText(p);
    PartsOfTailText(p);
  }

  // ---- Every string ----

  lemma NotIn(s: string, c: char, from: nat, end: nat)
    requires from <= end <= |s| && (Absent(s, c, from, end) || c !in s)
    ensures c !in s[from..end]
  {
    forall i | 0 <= i < end - from ensures s[from..end][i] != c {
      assert s[from..end][i] == s[from + i];
    }
  }

  lemma SplitWhole(s: string, k: nat)
    requires k <= |s|
    ensures s == s[0..k] + s[k..]
  {}

  lemma SplitLed(s: string, from: nat, k: nat, end: nat, separator: string)
    requires from <= k <= end <= |s| && |separator| == 1 && (k < end ==> s[k] == separator[0])
    ensures s[from..end] == s[from..k] + Led(separator, if k < end then Some(s[k + 1..end]) else None)
  {}

  lemma Associative(a: string, b: string, c: string)
    ensures (a + b) + c == a + (b + c)
  {}

  lemma LoginRead(a: string, at: nat)
    requires at <= |a| && Absent(a, '@', 0, at) && '/' !in a
    ensures GoodLogin(LoginIn(a, at)) && UserText(LoginIn(a, at)) == a[0..at]
  {
    hide Led;
    var secret := Find(a, ':', 0, at);
    SplitLed(a, 0, secret, at, ":");
    NotIn(a, ':', 0, secret);
    NotIn(a, '@', 0, secret);
    NotIn(a, '/', 0, secret);
    if secret < at {
      NotIn(a, '@', secret + 1, at);
      NotIn(a, '/', secret + 1, at);
    }
    hide Find, Absent;
  }

  lemma HostRead(a: string, from: nat)
    requires from <= |a| && '/' !in a
    ensures var colon := Find(a, ':', from, |a|);
            var port := if colon < |a| then Some(a[colon + 1..|a|]) else None;
            && a[from..|a|] == a[from..colon] + Led(":", port)
            && ':' !in a[from..colon] && '/' !in a[from..colon] && (port.Some? ==> '/' !in port.value)
  {
    hide Find, Absent, Led;
    var colon := Find(a, ':', from, |a|);
    SplitLed(a, from, colon, |a|, ":");
    NotIn(a, ':', from, colon);
    NotIn(a, '/', from, colon);
    if colon < |a| { NotIn(a, '/', colon + 1, |a|); }
  }

  lemma HostReadNoAt(a: string)
    requires '@' !in a
    ensures var colon := Find(a, ':', 0, |a|);
            '@' !in a[0..colon] && (colon < |a| ==> '@' !in a[colon + 1..|a|])
  {
    hide Find, Absent;
    var colon := Find(a, ':', 0, |a|);
    NotIn(a, '@', 0, colon);
    if colon < |a| { NotIn(a, '@', colon + 1, |a|); }
  }

  function WithAuthority(a: string): Parts {
    var (login, host, port) := PartsOfAuthority(a);
    Parts(None, login, host, port, None, None, None)
  }

  lemma AuthorityTextRead(a: string)
    requires '/' !in a
    ensures AuthorityText(WithAuthority(a)) == a
  {
    hide Find, Absent, LoginIn, UserText, Led, GoodLogin;
    var at := Find(a, '@', 0, |a|);
    var p := WithAuthority(a);
    assert a[0..|a|] == a;
    if at < |a| {
      HostRead(a, at + 1);
      LoginRead(a, at);
      SplitAfter(a, at, "@");
    } else {
      HostRead(a, 0);
      Associative("", p.host, Led(":", p.port));
    }
    Associative(LoginText(p), p.host, Led(":", p.port));
  }

  lemma SplitAfter(s: string, k: nat, separator: string)
    requires k < |s| && |separator| == 1 && s[k] == separator[0]
    ensures s == (s[0..k] + separator) + s[k + 1..|s|]
  {}

  lemma AuthorityRead(a: string)
    requires '/' !in a
    ensures GoodAuthority(WithAuthority(a)) && AuthorityText(WithAuthority(a)) == a
  {
    hide Find, Absent, LoginIn, UserText, GoodLogin, Led, AuthorityText;
    var at := Find(a, '@', 0, |a|);
    AuthorityTextRead(a);
    if at < |a| {
      HostRead(a, at + 1);
      LoginRead(a, at);
    } else {
      HostRead(a, 0);
      NoneFound(a);
      HostReadNoAt(a);
    }
  }

  lemma NoneFound(a: string)
    requires Find(a, '@', 0, |a|) == |a|
    ensures '@' !in a
  {}

  function WithTail(t: string): Parts {
    var (path, query, fragment) := PartsOfTail(t);
    Parts(None, None, "", None, path, query, fragment)
  }

  lemma TailWithQuery(t: string, question: nat, hash: nat)
    requires question < hash <= |t| && t[question] == '?' && (hash < |t| ==> t[hash] == '#')
    ensures var fragment := if hash < |t| then Some(t[hash + 1..|t|]) else None;
            Led("", Some(t[0..question])) + Led("?", Some(t[question + 1..hash])) + Led("#", fragment) == t
  {
    hide Led;
    SplitLed(t, 0, question, |t|, "?");
    SplitLed(t, question + 1, hash, |t|, "#");
    TailGlue(t[0..question], t[question + 1..hash], if hash < |t| then Some(t[hash + 1..|t|]) else None);
    assert t[0..|t|] == t;
  }

  lemma TailWithoutQuery(t: string)
    ensures Led("", Some(t)) + Led("?", None) + Led("#", None) == t
    ensures Led("", None) + Led("?", None) + Led("#", None) == ""
  {}

  lemma TailTextRead(t: string)
    ensures TailText(WithTail(t)) == t
  {
    hide Find, Absent, Led;
    TailWithoutQuery(t);
    if t != "" {
      var question := Find(t, '?', 0, |t|);
      if question < |t| {
        var hash := Find(t, '#', question + 1, |t|);
        TailWithQuery(t, question, hash);
      }
    }
  }

  lemma TailGlue(path: string, query: string, fragment: Option<string>)
    ensures Led("", Some(path)) + Led("?", Some(query)) + Led("#", fragment)
         == path + Led("?", Some(query + Led("#", fragment)))
  {}

  lemma TailRead(t: string)
    requires t != "" ==> t[0] == '/'
    ensures GoodTail(WithTail(t)) && TailText(WithTail(t)) == t
  {
    hide Find, Absent, TailText;
    TailTextRead(t);
    if t != "" {
      var question := Find(t, '?', 0, |t|);
      PathNotEmpty(t);
      NotIn(t, '?', 0, question);
      assert t[0..|t|] == t;
      if question < |t| { NotIn(t, '#', question + 1, Find(t, '#', question + 1, |t|)); }
    }
  }

  lemma PathNotEmpty(t: string)
    requires t != "" && t[0] == '/'
    ensures Find(t, '?', 0, |t|) > 0
  {}

  lemma NoMarkTo(s: string)
    ensures NoMark(s[..FindMark(s, 0)]) && (FindMark(s, 0) == |s| ==> NoMark(s))
  {
    var mark := FindMark(s, 0);
    forall i: nat | i < mark ensures !MarkAt(s[..mark], i) {
      assert !MarkAt(s, i);
    }
  }

  lemma RestRead(rest: string)
    ensures var slash := Find(rest, '/', 0, |rest|);
            var a, t := WithAuthority(rest[0..slash]), WithTail(rest[slash..]);
            && GoodAuthority(a) && GoodTail(t) && AuthorityText(a) + TailText(t) == rest
  {
    hide Find, Absent, GoodAuthority, GoodTail, AuthorityText, TailText, WithAuthority, WithTail;
    var slash := Find(rest, '/', 0, |rest|);
    NotIn(rest, '/', 0, slash);
    SplitWhole(rest, slash);
    AuthorityRead(rest[0..slash]);
    TailRead(rest[slash..]);
  }

  lemma SchemeRead(s: string)
    ensures var mark := FindMark(s, 0);
            mark < |s| ==> s == s[..mark] + "://" + s[mark + 3..]
  {
    var mark := FindMark(s, 0);
    if mark < |s| { MarkSplits(s, mark); }
  }

  lemma MarkSplits(s: string, i: nat)
    requires MarkAt(s, i)
    ensures s == s[..i] + "://" + s[i + 3..]
  {
    assert s[i..i + 3] == "://";
    assert s == s[..i] + s[i..i + 3] + s[i + 3..];
  }

  /** Every string is a URL in exactly one way: its parts can be told apart and give it back. */
  lemma UnparseOfParts(s: string)
    ensures WellFormed(PartsOf(s)) && Unparse(PartsOf(s)) == s
  {
    hide Find, Absent, FindMark, NoMark, PartsOfAuthority, PartsOfTail, AuthorityText, TailText;
    hide GoodAuthority, GoodTail;
    var mark := FindMark(s, 0);
    RestOfParts(s);
    NoMarkTo(s);
    SchemeRead(s);
    var p := PartsOf(s);
    Associative(Followed(p.scheme, "://"), AuthorityText(p), TailText(p));
  }

  /** Authority and tail make up all that is behind the scheme. */
  lemma RestOfParts(s: string)
    ensures var p, mark := PartsOf(s), FindMark(s, 0);
            && GoodAuthority(p) && GoodTail(p)
            && AuthorityText(p) + TailText(p) == if mark < |s| then s[mark + 3..] else s
  {
    hide Find, Absent, FindMark, PartsOfAuthority, PartsOfTail, AuthorityText, TailText, GoodAuthority, GoodTail;
    var mark := FindMark(s, 0);
    var rest := if mark < |s| then s[mark + 3..] else s;
    var slash := Find(rest, '/', 0, |rest|);
    RestRead(rest);
    SameAuthority(PartsOf(s), WithAuthority(rest[0..slash]));
    SameTail(PartsOf(s), WithTail(rest[slash..]));
  }

  lemma SameAuthority(p: Parts, q: Parts)
    requires p.login == q.login && p.host == q.host && p.port == q.port
    ensures AuthorityText(p) == AuthorityText(q) && GoodAuthority(p) == GoodAuthority(q)
  {}

  lemma SameTail(p: Parts, q: Parts)
    requires p.path == q.path && p.query == q.query && p.fragment == q.fragment
    ensures TailText(p) == TailText(q) && GoodTail(p) == GoodTail(q)
  {}

  /** For every string the parser takes, its fields are the places of the string's own parts. */
  lemma ParserPartitions(s: CString)
    requires |s| <= 65535
    ensures Unparse(PartsOf(s)) == s && WellFormed(PartsOf(s)) && ParseOf(s) == Places(PartsOf(s))
  {
    hide WellFormed, Unparse, ParseOf, Places, PartsOf;
    UnparseOfParts(s);
    ParseOfUnparse(PartsOf(s));
  }

  /** The field holds the part, within the string; a missing part leaves the field zero. */
  predicate Holds(u: string, f: Field, part: Option<string>) {
    if part.Some? then f.off + f.len <= |u| && u[f.off..f.off + f.len] == part.value else f == NONE
  }

  lemma AuthorityHolds(p: Parts, u: string, from: nat)
    requires GoodAuthority(p) && |u| <= 65535
    requires from + |AuthorityText(p)| <= |u| && u[from..from + |AuthorityText(p)|] == AuthorityText(p)
    ensures var a := AuthorityPlaces(p, from);
            && Holds(u, a.username, if p.login.Some? then Some(p.login.value.user) else None)
            && Holds(u, a.password, if p.login.Some? then p.login.value.password else None)
            && Holds(u, a.host, Some(p.host)) && Holds(u, a.port, p.port)
  {
    hide Find, Absent, PortNumber, GoodAuthority, GoodLogin, AuthorityText, LoginText, UserText, Led;
    LoginIsGood(p);
    HostFound(p, u, from);
    if p.login.Some? { LoginFound(p.login.value, p, u, from); }
  }

  lemma TailHolds(p: Parts, u: string, from: nat)
    requires GoodTail(p) && from + |TailText(p)| == |u| <= 65535 && u[from..] == TailText(p)
    ensures var t := TailPlaces(p, from);
            Holds(u, t.path, p.path) && Holds(u, t.query, p.query) && Holds(u, t.fragment, p.fragment)
  {
    if p.path.Some? {
      PathHolds(p, u, from);
    } else {
      NoPathNoTail(p);
    }
  }

  lemma PathHolds(p: Parts, u: string, from: nat)
    requires GoodTail(p) && from + |TailText(p)| == |u| <= 65535 && u[from..] == TailText(p) && p.path.Some?
    ensures var t := TailPlaces(p, from);
            Holds(u, t.path, p.path) && Holds(u, t.query, p.query) && Holds(u, t.fragment, p.fragment)
  {
    hide Find, Absent, TailText, GoodTail;
    hide Led;
    PathText(p);
    TailStops(p, u, from);
    LedLength("?", p.query);
  }

  lemma LedLength(separator: string, part: Option<string>)
    ensures part.Some? ==> |Led(separator, part)| == |separator| + |part.value|
  {}

  /** The fields the parser fills in hold the parts of the string, each within its bounds. */
  lemma FieldsHoldParts(s: CString)
    requires |s| <= 65535
    ensures var f, p := ParseOf(s), PartsOf(s);
            && Holds(s, f.scheme, p.scheme)
            && Holds(s, f.username, if p.login.Some? then Some(p.login.value.user) else None)
            && Holds(s, f.password, if p.login.Some? then p.login.value.password else None)
            && Holds(s, f.host, Some(p.host)) && Holds(s, f.port, p.port)
            && Holds(s, f.path, p.path) && Holds(s, f.query, p.query) && Holds(s, f.fragment, p.fragment)
  {
    hide WellFormed, Unparse, ParseOf, PartsOf, AuthorityText, TailText, Followed, AuthorityPlaces, TailPlaces;
    hide GoodAuthority, GoodTail, Find, Absent;
    var p := PartsOf(s);
    ParserPartitions(s);
    Apart(p);
    Cuts(p);
    RestOf(p);
    AuthorityHolds(p, s, SchemeLength(p));
    TailHolds(p, s, SchemeLength(p) + |AuthorityText(p)|);
  }

  // ---- The port ----

  predicate AllDigits(t: string) { forall i :: 0 <= i < |t| ==> '0' <= t[i] <= '9' }

  function Decimal(t: string): nat
    requires AllDigits(t)
  {
    if t == "" then 0 else 10 * Decimal(t[..|t| - 1]) + (t[|t| - 1] as int - '0' as int)
  }

  /** What the digits' loop adds up, whatever the characters are: a signed char's distance from '0'. */
  function PortSum(t: string): int {
    if t == "" then 0
    else
      var c := t[|t| - 1] as int;
      10 * PortSum(t[..|t| - 1]) + (if c < 128 then c else c - 256) - 48
  }

  lemma ModStep(v: int, d: int)
    ensures (v % 65536 * 10 + d) % 65536 == (10 * v + d) % 65536
  {
    var q := v / 65536;
    assert 10 * v + d == (v % 65536 * 10 + d) + (10 * q) * 65536;
  }

  /** The port of any characters at all is that sum, modulo two to the sixteen. */
  lemma {:induction false} PortIsSum(t: string)
    ensures PortNumber(t) == PortSum(t) % 65536
    decreases |t|
  {
    if t == "" {
    } else {
      var init, last := t[..|t| - 1], t[|t| - 1];
      PortIsSum(init);
      ModStep(PortSum(init), SignedChar(last) - 48);
    }
  }

  lemma {:induction false} PortNumberOfDigits(t: string)
    requires AllDigits(t)
    ensures PortNumber(t) == Decimal(t) % 65536
    decreases |t|
  {
    if t == "" {
    } else {
      var last := t[|t| - 1];
      PortNumberOfDigits(t[..|t| - 1]);
      ModStep(Decimal(t[..|t| - 1]), last as int - '0' as int);
    }
  }

  /** A port written in digits is its value exactly if the value fits in sixteen bits. */
  lemma PortIsItsValue(s: CString)
    requires |s| <= 65535
    ensures var port := PartsOf(s).port;
            port.Some? && AllDigits(port.value) ==>
              (ParseOf(s).number == Decimal(port.value) <==> Decimal(port.value) < 65536)
    ensures PartsOf(s).port.None? ==> ParseOf(s).number == if PartsOf(s).scheme == Some("https") then 443 else 80
  {
    hide WellFormed, Unparse, ParseOf, PartsOf, AllDigits, Decimal, PortNumber;
    ParserPartitions(s);
    var port := PartsOf(s).port;
    if port.Some? && AllDigits(port.value) { PortNumberOfDigits(port.value); }
  }

  // ---- An example ----

  const FULL: string := "https://me:pw@host:8080/p?q#f"

  const FULL_PARTS: Parts :=
    Parts(Some("https"), Some(Login("me", Some("pw"))), "host", Some("8080"), Some("/p"), Some("q"), Some("f"))

  /** Every field of a URL that has them all. */
  lemma FullExample()
    ensures |FULL| == 29 && Octets(FULL)
    ensures ParseOf(FULL) ==
            Fields(Field(0, 5), Field(8, 2), Field(11, 2), Field(14, 4), Field(19, 4), Field(23, 2), Field(26, 1),
                   Field(28, 1), 8080)
  {
    hide WellFormed, ParseOf, Unparse, Octets, PortNumber;
    FullText();
    FullIsGood();
    ParseOfUnparse(FULL_PARTS);
    PortOf8080();
  }

  lemma FullText()
    ensures Unparse(FULL_PARTS) == FULL && |FULL| == 29 && Octets(FULL)
  {
    hide Octets, Followed, AuthorityText, TailText;
    FullPieces();
    FullOctets();
    assert "https://" + "me:pw@host:8080" == "https://me:pw@host:8080";
  }

  lemma FullOctets()
    ensures Octets(FULL)
  {}

  lemma FullPieces()
    ensures Followed(FULL_PARTS.scheme, "://") == "https://"
    ensures AuthorityText(FULL_PARTS) == "me:pw@host:8080" && TailText(FULL_PARTS) == "/p?q#f"
  {
    assert LoginText(FULL_PARTS) == "me:pw@";
  }

  lemma FullIsGood()
    ensures WellFormed(FULL_PARTS)
  {}

  lemma PortOf8080()
    ensures PortNumber("8080") == 8080
  {
    assert "8080"[..3] == "808" && "808"[..2] == "80" && "80"[..1] == "8" && "8"[..0] == "";
    assert PortNumber("") == 0 && PortNumber("8") == 8 && PortNumber("80") == 80 && PortNumber("808") == 808;
  }

  const REPEATED: string := "s://u:v:w@a@b:d:e/f?g?h#i#j"

  const REPEATED_PARTS: Parts :=
    Parts(Some("s"), Some(Login("u", Some("v:w"))), "a@b", Some("d:e"), Some("/f"), Some("g?h"), Some("i#j"))

  /** Of several separators of a kind the first counts; a port of letters has a number too. */
  lemma RepeatedExample()
    ensures |REPEATED| == 27 && Octets(REPEATED)
    ensures ParseOf(REPEATED) ==
            Fields(Field(0, 1), Field(4, 1), Field(6, 3), Field(10, 3), Field(14, 3), Field(17, 2), Field(20, 3),
                   Field(24, 3), 5353)
  {
    hide WellFormed, ParseOf, Unparse, Octets, PortNumber;
    RepeatedText();
    RepeatedIsGood();
    ParseOfUnparse(REPEATED_PARTS);
    PortOfLetters();
  }

  lemma RepeatedText()
    ensures Unparse(REPEATED_PARTS) == REPEATED && |REPEATED| == 27 && Octets(REPEATED)
  {
    hide Octets, Followed, AuthorityText, TailText;
    RepeatedPieces();
    RepeatedOctets();
    assert "s://" + "u:v:w@a@b:d:e" == "s://u:v:w@a@b:d:e";
  }

  lemma RepeatedOctets()
    ensures Octets(REPEATED)
  {}

  lemma RepeatedPieces()
    ensures Followed(REPEATED_PARTS.scheme, "://") == "s://"
    ensures AuthorityText(REPEATED_PARTS) == "u:v:w@a@b:d:e" && TailText(REPEATED_PARTS) == "/f?g?h#i#j"
  {
    assert LoginText(REPEATED_PARTS) == "u:v:w@";
  }

  lemma RepeatedIsGood()
    ensures WellFormed(REPEATED_PARTS)
  {}

  lemma PortOfLetters()
    ensures PortNumber("d:e") == 5353
  {
    assert "d:e"[..2] == "d:" && "d:"[..1] == "d" && "d"[..0] == "";
    assert PortNumber("") == 0 && PortNumber("d") == 52 && PortNumber("d:") == 530;
  }
}
