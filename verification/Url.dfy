/**
 libhv's URL splitter: a C string is cut into eight fields, each an offset and a length of
 sixteen bits, and the port's digits are read as a number of sixteen bits.
 */
module Url {
  import opened Wrappers

  /** A C string without its terminator: octets other than NUL. */
  type CString = s: string | Octets(s)

  predicate Octets(s: string) { forall i :: 0 <= i < |s| ==> 0 < s[i] as int < 256 }

  type U16 = x: int | 0 <= x <= 65535

  datatype Field = Field(off: U16, len: U16)

  const NONE := Field(0, 0)

  datatype Fields = Fields(
    scheme: Field, username: Field, password: Field, host: Field, port: Field,
    path: Field, query: Field, fragment: Field, number: U16)

  // ---- Searching ----

  predicate Absent(s: string, c: char, from: nat, to: nat)
    requires from <= to <= |s|
  {
    forall i :: from <= i < to ==> s[i] != c
  }

  /** The first c in s[from..to], or `to`. */
  function Find(s: string, c: char, from: nat, to: nat): (k: nat)
    requires from <= to <= |s|
    ensures from <= k <= to && Absent(s, c, from, k) && (k < to ==> s[k] == c)
    decreases |s| - from
  {
    if from == to || s[from] == c then from else Find(s, c, from + 1, to)
  }

  lemma FindIs(s: string, c: char, from: nat, to: nat, k: nat)
    requires from <= k <= to <= |s| && Absent(s, c, from, k) && (k < to ==> s[k] == c)
    ensures Find(s, c, from, to) == k
  {}

  predicate MarkAt(s: string, i: nat) { i + 3 <= |s| && s[i] == ':' && s[i + 1] == '/' && s[i + 2] == '/' }

  /** The first "://", or the end. */
  function FindMark(s: string, from: nat): (k: nat)
    requires from <= |s|
    ensures from <= k <= |s| && (k < |s| ==> MarkAt(s, k) && k + 3 <= |s|)
    ensures forall i: nat :: from <= i < k ==> !MarkAt(s, i)
    decreases |s| - from
  {
    if from == |s| || MarkAt(s, from) then from else FindMark(s, from + 1)
  }

  /** The bounded search of the library, with its loop. */
  method StrNChr(s: CString, from: nat, c: char, n: nat) returns (r: Option<nat>)
    requires from + n <= |s|
    ensures r == var k := Find(s, c, from, from + n); if k < from + n then Some(k) else None
  {
    var p, left := from, n;
    ghost var to := from + n;
    while p < |s| && left > 0
      invariant from <= p <= to && p + left == from + n
      invariant Absent(s, c, from, p)
    {
      left := left - 1;
      if s[p] == c {
        FindIs(s, c, from, to, p);
        return Some(p);
      }
      p := p + 1;
    }
    FindIs(s, c, from, to, to);
    return None;
  }

  // ---- The port number ----

  function SignedChar(c: char): int {
    if c as int < 128 then c as int else c as int - 256
  }

  /** Whatever the characters are, each counts as its distance from '0', modulo two to the sixteen. */
  function PortNumber(t: string): U16 {
    if t == "" then 0
    else (PortNumber(t[..|t| - 1]) * 10 + SignedChar(t[|t| - 1]) - 48) % 65536
  }

  predicate IsHttps(s: string) { "https://" <= s }

  function DefaultPort(s: string): U16 { if IsHttps(s) then 443 else 80 }

  datatype Authority = Authority(username: Field, password: Field, host: Field, port: Field, number: U16)

  /** user:password@host:port in s[sp..ep]. */
  function AuthorityOf(s: string, sp: nat, ep: nat): Authority
    requires sp <= ep <= |s| <= 65535
  {
    var at := Find(s, '@', sp, ep);
    var secret := Find(s, ':', sp, at);
    var host := if at < ep then at + 1 else sp;
    var colon := Find(s, ':', host, ep);
    Authority(
      if at < ep then Field(sp, secret - sp) else NONE,
      if at < ep && secret < at then Field(secret + 1, at - secret - 1) else NONE,
      Field(host, colon - host),
      if colon < ep then Field(colon + 1, ep - colon - 1) else NONE,
      if colon < ep then PortNumber(s[colon + 1..ep]) else DefaultPort(s))
  }

  datatype Tail = Tail(path: Field, query: Field, fragment: Field)

  /** /path?query#fragment from s[slash] on. */
  function TailOf(s: string, slash: nat): Tail
    requires slash <= |s| <= 65535
  {
    if slash == |s| then Tail(NONE, NONE, NONE)
    else
      var question := Find(s, '?', slash, |s|);
      var path := Field(slash, question - slash);
      if question == |s| then Tail(path, NONE, NONE)
      else
        var hash := Find(s, '#', question + 1, |s|);
        var fragment := if hash < |s| then Field(hash + 1, |s| - hash - 1) else NONE;
        Tail(path, Field(question + 1, hash - question - 1), fragment)
  }

  function ParseOf(s: CString): Fields
    requires |s| <= 65535
  {
    var mark := FindMark(s, 0);
    var sp := if mark < |s| then mark + 3 else 0;
    var ep := Find(s, '/', sp, |s|);
    var a, t := AuthorityOf(s, sp, ep), TailOf(s, ep);
    Fields(if mark < |s| then Field(0, mark) else NONE,
           a.username, a.password, a.host, a.port, t.path, t.query, t.fragment, a.number)
  }

  // ---- The parser ----

  class HUrl {
    var scheme: Field
    var username: Field
    var password: Field
    var host: Field
    var portField: Field
    var path: Field
    var query: Field
    var fragment: Field
    var port: U16

    ghost function Value(): Fields
      reads this
    {
      Fields(scheme, username, password, host, portField, path, query, fragment, port)
    }

    constructor ()
      ensures Value() == Fields(NONE, NONE, NONE, NONE, NONE, NONE, NONE, NONE, 0)
    {
      scheme, username, password, host := NONE, NONE, NONE, NONE;
      portField, path, query, fragment, port := NONE, NONE, NONE, NONE, 0;
    }

    method Zero()
      modifies this
      ensures Value() == Fields(NONE, NONE, NONE, NONE, NONE, NONE, NONE, NONE, 0)
    {
      scheme, username, password, host := NONE, NONE, NONE, NONE;
      portField, path, query, fragment, port := NONE, NONE, NONE, NONE, 0;
    }

    /** user:password, up to the first '@'. */
    method ParseLogin(s: CString, user: nat, pos: nat)
      requires user <= pos < |s| <= 65535
      modifies this`username, this`password
      ensures var secret := Find(s, ':', user, pos);
              && username == Field(user, secret - user)
              && password == if secret < pos then Field(secret + 1, pos - secret - 1) else old(password)
    {
      var found := StrNChr(s, user, ':', pos - user);
      var secret := pos;
      if found.Some? {
        secret := found.value;
        password := Field(secret + 1, pos - secret - 1);
      }
      username := Field(user, secret - user);
    }

    /** The loop counter is an unsigned short and must be able to pass the length. */
    method ParsePort(s: CString, colon: nat, ep: nat)
      requires colon < ep <= |s| <= 65535 && port == 0
      modifies this`portField, this`port
      ensures portField == Field(colon + 1, ep - colon - 1) && port == PortNumber(s[colon + 1..ep])
    {
      portField := Field(colon + 1, ep - colon - 1);
      var i: U16 := 1;
      while i <= portField.len
        invariant 1 <= i <= ep - colon && portField == Field(colon + 1, ep - colon - 1)
        invariant port == PortNumber(s[colon + 1..colon + i])
      {
        assert s[colon + 1..colon + i + 1][..i - 1] == s[colon + 1..colon + i];
        port := (port * 10 + (SignedChar(s[colon + i]) - '0' as int)) % 65536;
        i := i + 1;
      }
    }

    /** user:password@host:port */
    method ParseAuthority(s: CString, sp: nat, ep: nat)
      requires sp <= ep <= |s| <= 65535 && username == password == portField == NONE && port == 0
      requires IsHttps(s) ==> scheme.len > 0
      modifies this`username, this`password, this`host, this`portField, this`port
      ensures Authority(username, password, host, portField, port) == AuthorityOf(s, sp, ep)
    {
      hide PortNumber, Absent, Find, IsHttps;
      ghost var a := AuthorityOf(s, sp, ep);
      var from := sp;
      var pos := StrNChr(s, sp, '@', ep - sp);
      if pos.Some? {
        ParseLogin(s, sp, pos.value);
        from := pos.value + 1;
      }
      assert username == a.username && password == a.password && from == a.host.off;
      var found := StrNChr(s, from, ':', ep - from);
      var colon := ep;
      if found.Some? {
        colon := found.value;
        ParsePort(s, colon, ep);
      } else {
        port := 80;
        if scheme.len > 0 {
          if IsHttps(s) { port := 443; }
        }
      }
      host := Field(from, colon - from);
    }

    method ParsePath(s: CString, slash: nat)
      requires slash < |s| <= 65535 && query == fragment == NONE
      modifies this`path, this`query, this`fragment
      ensures Tail(path, query, fragment) == TailOf(s, slash)
    {
      var sp, ep := slash, Find(s, '?', slash, |s|);
      path := Field(sp, ep - sp);
      if ep == |s| { return; }
      sp := ep + 1;
      ep := Find(s, '#', sp, |s|);
      query := Field(sp, ep - sp);
      if ep == |s| { return; }
      sp, ep := ep + 1, |s|;
      fragment := Field(sp, ep - sp);
    }
  }

  method ParseUrl(url: HUrl?, str: Option<CString>) returns (code: int)
    modifies url
    ensures url == null || str.None? ==> code == -1 && (url != null ==> unchanged(url))
    ensures url != null && str.Some? && |str.value| > 65535 ==>
              code == -2 && url.Value() == Fields(NONE, NONE, NONE, NONE, NONE, NONE, NONE, NONE, 0)
    ensures url != null && str.Some? && |str.value| <= 65535 ==> code == 0 && url.Value() == ParseOf(str.value)
  {
    hide PortNumber, Absent, MarkAt, Find, FindMark, IsHttps, AuthorityOf, TailOf, Octets;
    if url == null || str.None? { return -1; }
    url.Zero();
    var s := str.value;
    var end := 0;
    while end < |s|
      invariant 0 <= end <= |s|
      invariant url.Value() == Fields(NONE, NONE, NONE, NONE, NONE, NONE, NONE, NONE, 0)
    {
      end := end + 1;
    }
    if end > 65535 { return -2; }
    var sp, ep := 0, FindMark(s, 0);
    if ep < end {
      url.scheme := Field(0, ep - sp);
      sp := ep + 3;
    }
    ep := Find(s, '/', sp, |s|);
    HttpsHasScheme(s);
    NoTail(s);
    url.ParseAuthority(s, sp, ep);
    if ep == end { return 0; }
    url.ParsePath(s, ep);
    return 0;
  }

  lemma NoTail(s: string)
    requires |s| <= 65535
    ensures TailOf(s, |s|) == Tail(NONE, NONE, NONE)
  {}

  lemma HttpsHasScheme(s: string)
    ensures IsHttps(s) ==> FindMark(s, 0) == 5 < |s|
  {
    if IsHttps(s) {
      var h := "https://";
      assert forall i :: 0 <= i < 8 ==> s[i] == h[i];
      assert MarkAt(s, 5);
      assert !MarkAt(s, 0) && !MarkAt(s, 1) && !MarkAt(s, 2) && !MarkAt(s, 3) && !MarkAt(s, 4);
    }
  }
}
