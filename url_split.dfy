/**
 * The part of Python's `urllib.parse.urlsplit` that can raise `ValueError`
 * (Python 3.12, the release Django 6.0 requires): the network location that
 * follows `//`, its square brackets, and the IPv6 or IPvFuture host they
 * must enclose, checked as `ipaddress.ip_address` does.
 */
module UrlSplit {
  import opened Wrappers
  import Strings

  /** Index of the first `c` in `s` (`str.find`), or None. */
  function FirstIndex(s: string, c: char): (r: Option<nat>)
    ensures r.None? <==> c !in s
    ensures r.Some? ==> r.value < |s| && s[r.value] == c && c !in s[..r.value]
  {
    if s == [] then None
    else if s[0] == c then Some(0)
    else match FirstIndex(s[1..], c)
      case None => None
      case Some(i) =>
        assert s[..i + 1] == [s[0]] + s[1..][..i];
        Some(i + 1)
  }

  /** The text after the last `c` in `s`, or all of `s` when there is none (`s.rpartition(c)[2]`). */
  function AfterLast(s: string, c: char): (r: string)
    ensures |r| <= |s| && r == s[|s| - |r|..]
    ensures c !in r
    ensures |r| < |s| ==> s[|s| - |r| - 1] == c
  {
    if s == [] || s[|s| - 1] == c then []
    else
      var init := s[..|s| - 1];
      var r := AfterLast(init, c);
      assert s[|s| - |r| - 1..] == init[|init| - |r|..] + [s[|s| - 1]];
      r + [s[|s| - 1]]
  }

  // ---------------------------------------------------------------- network location

  /** The characters that end a network location: `/`, `?` and `#`. */
  predicate IsNetlocEnd(c: char) {
    c == '/' || c == '?' || c == '#'
  }

  /** How many characters at the start of `s` come before the first `/`, `?` or `#`. */
  function NetlocLength(s: string): (n: nat)
    ensures n <= |s|
    ensures forall k :: 0 <= k < n ==> !IsNetlocEnd(s[k])
    ensures n < |s| ==> IsNetlocEnd(s[n])
  {
    if s == [] || IsNetlocEnd(s[0]) then 0 else 1 + NetlocLength(s[1..])
  }

  /**
   * `_splitnetloc(url, 2)`: when `rest`, the text after the scheme, begins
   * with `//`, the network location is everything after those two slashes
   * up to the first `/`, `?` or `#`; otherwise there is none.
   */
  function Netloc(rest: string): (r: Option<string>)
    ensures r.Some? <==> |rest| >= 2 && rest[0] == '/' && rest[1] == '/'
    ensures r.Some? ==>
      && 2 + |r.value| <= |rest| && r.value == rest[2..2 + |r.value|]
      && (forall k :: 0 <= k < |r.value| ==> !IsNetlocEnd(r.value[k]))
      && (2 + |r.value| < |rest| ==> IsNetlocEnd(rest[2 + |r.value|]))
  {
    if |rest| >= 2 && rest[0] == '/' && rest[1] == '/' then
      Some(rest[2..2 + NetlocLength(rest[2..])])
    else None
  }

  // ---------------------------------------------------------------- IP addresses

  predicate IsHexDigit(c: char) {
    '0' <= c <= '9' || 'a' <= c <= 'f' || 'A' <= c <= 'F'
  }

  /**
   * `IPv4Address._parse_octet` accepts `o`: one to three ASCII digits, no
   * leading zero unless the octet is `0`, and a value of at most 255.
   */
  predicate IsOctet(o: string) {
    o != [] && Strings.AllDigits(o) && |o| <= 3 && (o[0] != '0' || o == "0")
    && Strings.DecimalValue(o) <= 255
  }

  /**
   * `IPv4Address(s)` accepts `s`: no `/`, and exactly four octets separated
   * by dots (the empty string splits into one part, so it is refused too).
   */
  predicate IsIpv4(s: string) {
    '/' !in s &&
    var octets := Strings.Split(s, '.');
    |octets| == 4 && forall i :: 0 <= i < 4 ==> IsOctet(octets[i])
  }

  /** `IPv6Address._parse_hextet` accepts `h`: one to four hexadecimal digits. */
  predicate IsHextet(h: string) {
    h != [] && |h| <= 4 && forall k :: 0 <= k < |h| ==> IsHexDigit(h[k])
  }

  /** The first empty part from index `i` on, leaving out the last part: where `::` stands. */
  function InnerEmpty(parts: seq<string>, i: nat): (r: Option<nat>)
    requires 1 <= i
    ensures r.None? <==> forall k :: i <= k < |parts| - 1 ==> parts[k] != []
    ensures r.Some? ==> i <= r.value < |parts| - 1 && parts[r.value] == []
                        && forall k :: i <= k < r.value ==> parts[k] != []
    decreases |parts| - i
  {
    if i >= |parts| - 1 then None
    else if parts[i] == [] then Some(i)
    else InnerEmpty(parts, i + 1)
  }

  /**
   * The parts of an IPv6 address, split at `:`, make up eight hextets:
   * at most nine parts. Without an empty part between the ends there are
   * exactly eight, each a hextet (so neither end is empty). With one, that
   * `::` is the only one; an empty first part is allowed only when the `::`
   * is at the start and an empty last part only when it is at the end; the
   * hextets before and after it number at most seven, so at least one is
   * skipped; and each of them is a hextet.
   */
  predicate HextetsOk(parts: seq<string>) {
    |parts| <= 9 &&
    match InnerEmpty(parts, 1)
    case None =>
      |parts| == 8 && forall k :: 0 <= k < 8 ==> IsHextet(parts[k])
    case Some(s) =>
      && (forall k :: s < k < |parts| - 1 ==> parts[k] != [])
      && (parts[0] == [] ==> s == 1)
      && (parts[|parts| - 1] == [] ==> s == |parts| - 2)
      && var hi := if parts[0] == [] then 0 else s;
         var lo := if parts[|parts| - 1] == [] then 0 else |parts| - s - 1;
         && hi + lo <= 7
         && (forall k :: 0 <= k < hi ==> IsHextet(parts[k]))
         && (forall k :: |parts| - lo <= k < |parts| ==> IsHextet(parts[k]))
  }

  /**
   * The parts once a last part holding `.` has been read as an IPv4 address
   * and replaced by the two hextets it stands for; None when it is not an
   * IPv4 address. Which two hextets they are does not change whether the
   * address is accepted, so `0` stands for both.
   */
  function WithIpv4Tail(parts: seq<string>): (r: Option<seq<string>>)
    requires parts != []
    ensures r.None? <==> '.' in parts[|parts| - 1] && !IsIpv4(parts[|parts| - 1])
    ensures r.Some? && '.' !in parts[|parts| - 1] ==> r.value == parts
    ensures r.Some? && '.' in parts[|parts| - 1] ==>
      |r.value| == |parts| + 1 && r.value[..|parts| - 1] == parts[..|parts| - 1]
      && IsHextet(r.value[|parts| - 1]) && IsHextet(r.value[|parts|])
  {
    var last := parts[|parts| - 1];
    if '.' !in last then Some(parts)
    else if IsIpv4(last) then Some(parts[..|parts| - 1] + ["0", "0"])
    else None
  }

  /** `IPv6Address._ip_int_from_string` accepts `a`, an address without its scope. */
  predicate IsIpv6Address(a: string) {
    a != [] &&
    var parts := Strings.Split(a, ':');
    |parts| >= 3 &&
    match WithIpv4Tail(parts)
    case None => false
    case Some(p) => HextetsOk(p)
  }

  /**
   * `IPv6Address(s)` accepts `s`: no `/`; if there is a `%`, the scope after
   * the first one is not empty and holds no other `%`; and the address
   * before it is valid.
   */
  predicate IsIpv6(s: string) {
    '/' !in s &&
    match FirstIndex(s, '%')
    case None => IsIpv6Address(s)
    case Some(i) => i + 1 < |s| && '%' !in s[i + 1..] && IsIpv6Address(s[..i])
  }

  /**
   * The IPvFuture form a bracketed host starting with `v` must take
   * (`\Av[a-fA-F0-9]+\..+\Z`): `v`, hexadecimal digits, `.`, and at least
   * one more character, none of them a line feed.
   */
  predicate IsIpvFuture(h: string) {
    |h| >= 1 && h[0] == 'v' &&
    exists i :: 2 <= i < |h| - 1 && h[i] == '.'
      && (forall k :: 1 <= k < i ==> IsHexDigit(h[k]))
      && (forall k :: i < k < |h| ==> h[k] != '\n')
  }

  /**
   * `_check_bracketed_host`: a host starting with `v` must be IPvFuture;
   * any other must be an address `ipaddress.ip_address` accepts, and not an
   * IPv4 one (which it tries first).
   */
  predicate BracketedHostOk(h: string) {
    if h != [] && h[0] == 'v' then IsIpvFuture(h)
    else !IsIpv4(h) && IsIpv6(h)
  }

  /**
   * `_check_bracketed_netloc`: after the last `@`, a `[` must come first; the
   * host is what lies between it and the first `]`, and anything after that
   * `]` must start with `:`. Without a `[` there, the host is the text before
   * the first `:`. Either way the host must pass `BracketedHostOk`.
   */
  predicate BracketedNetlocOk(netloc: string) {
    var hp := AfterLast(netloc, '@');
    match FirstIndex(hp, '[')
    case Some(i) =>
      i == 0 &&
      var bracketed := hp[1..];
      (match FirstIndex(bracketed, ']')
       case Some(j) => (j + 1 == |bracketed| || bracketed[j + 1] == ':') && BracketedHostOk(bracketed[..j])
       case None => BracketedHostOk(bracketed))
    case None =>
      match FirstIndex(hp, ':')
      case Some(j) => BracketedHostOk(hp[..j])
      case None => BracketedHostOk(hp)
  }

  /**
   * `urlsplit` raises `ValueError` on `rest`, the text after the scheme:
   * there is a network location, and it holds one of `[` and `]` without the
   * other, or both and fails `BracketedNetlocOk`.
   */
  predicate NetlocRaises(rest: string) {
    match Netloc(rest)
    case None => false
    case Some(n) => ('[' in n) != (']' in n) || ('[' in n && !BracketedNetlocOk(n))
  }

  // ---------------------------------------------------------------- properties

  /** Text without square brackets never makes `urlsplit` raise. */
  lemma NoBracketsNoRaise(rest: string)
    requires '[' !in rest && ']' !in rest
    ensures !NetlocRaises(rest)
  {
    if Netloc(rest).Some? {
      var n := Netloc(rest).value;
      assert '[' !in n && ']' !in n by {
        forall k | 0 <= k < |n| ensures n[k] != '[' && n[k] != ']' {
          assert n[k] == rest[2 + k];
        }
      }
    }
  }

  /**
   * A network location holding `[` but no `]`, ended by `/`, `?`, `#` or the
   * end of the text, always makes `urlsplit` raise.
   */
  lemma OpenBracketRaises(host: string, tail: string)
    requires '[' in host && ']' !in host
    requires forall k :: 0 <= k < |host| ==> !IsNetlocEnd(host[k])
    requires tail == [] || IsNetlocEnd(tail[0])
    ensures NetlocRaises("//" + host + tail)
  {
    var rest := "//" + host + tail;
    assert rest[2..] == host + tail;
    assert NetlocLength(host + tail) == |host| by {
      NetlocLengthOf(host, tail);
    }
    assert rest[2..2 + |host|] == host;
  }

  /** The network location of `host + tail` is `host` when `tail` is empty or starts a path, query or fragment. */
  lemma {:induction false} NetlocLengthOf(host: string, tail: string)
    requires forall k :: 0 <= k < |host| ==> !IsNetlocEnd(host[k])
    requires tail == [] || IsNetlocEnd(tail[0])
    ensures NetlocLength(host + tail) == |host|
  {
    if host != [] {
      assert (host + tail)[1..] == host[1..] + tail;
      NetlocLengthOf(host[1..], tail);
    } else {
      assert host + tail == tail;
    }
  }

  /**
   * A host in brackets that `BracketedHostOk` accepts, holding no `@`, `[`,
   * `]` or network-location end, with nothing or a path, query or fragment
   * after the `]`, does not make `urlsplit` raise.
   */
  lemma BracketedHostPasses(host: string, tail: string)
    requires BracketedHostOk(host)
    requires '@' !in host && '[' !in host && ']' !in host
    requires forall k :: 0 <= k < |host| ==> !IsNetlocEnd(host[k])
    requires tail == [] || IsNetlocEnd(tail[0])
    ensures !NetlocRaises("//[" + host + "]" + tail)
  {
    BracketedNetloc(host, tail);
    BracketedNetlocAccepted(host);
  }

  /** The network location of `//[host]` followed by a path, query or fragment is `[host]`. */
  lemma BracketedNetloc(host: string, tail: string)
    requires forall k :: 0 <= k < |host| ==> !IsNetlocEnd(host[k])
    requires tail == [] || IsNetlocEnd(tail[0])
    ensures Netloc("//[" + host + "]" + tail) == Some("[" + host + "]")
  {
    var n := "[" + host + "]";
    forall k | 0 <= k < |n| ensures !IsNetlocEnd(n[k]) {
      if 0 < k < |n| - 1 {
        assert n[k] == host[k - 1];
      }
    }
    NetlocLengthOf(n, tail);
    var rest := "//[" + host + "]" + tail;
    assert rest == "//" + n + tail;
    assert rest[2..] == n + tail;
    assert rest[2..2 + |n|] == n;
  }

  /** `[host]` passes `BracketedNetlocOk` when `host` is an acceptable bracketed host free of `@`, `[` and `]`. */
  lemma BracketedNetlocAccepted(host: string)
    requires BracketedHostOk(host)
    requires '@' !in host && '[' !in host && ']' !in host
    ensures BracketedNetlocOk("[" + host + "]")
  {
    var n := "[" + host + "]";
    BracketsAddNoAt(host);
    AfterLastAbsent(n, '@');
    assert FirstIndex(n, '[') == Some(0);
    assert n[1..] == host + "]";
    CloseAtEnd(host);
  }

  /** Helper: brackets around a host free of `@` hold no `@`. */
  lemma BracketsAddNoAt(host: string)
    requires '@' !in host
    ensures '@' !in "[" + host + "]"
  {
    var n := "[" + host + "]";
    forall k | 0 <= k < |n| ensures n[k] != '@' {
      if 0 < k < |n| - 1 {
        assert n[k] == host[k - 1];
      }
    }
  }

  /** Helper: without `c`, everything comes after the last `c`. */
  lemma AfterLastAbsent(s: string, c: char)
    requires c !in s
    ensures AfterLast(s, c) == s
  {
  }

  /** Helper: in `host]`, with no `]` in the host, the first `]` is the last character. */
  lemma CloseAtEnd(host: string)
    requires ']' !in host
    ensures FirstIndex(host + "]", ']') == Some(|host|)
  {
    var b := host + "]";
    assert b[..|host|] == host;
  }

  /** Eight hextets joined by `:` are an IPv6 address, and may stand in brackets. */
  lemma FullFormIsIpv6(hextets: seq<string>)
    requires |hextets| == 8 && forall i :: 0 <= i < 8 ==> IsHextet(hextets[i])
    ensures IsIpv6(Strings.Join(hextets, ':'))
    ensures BracketedHostOk(Strings.Join(hextets, ':'))
  {
    var s := Strings.Join(hextets, ':');
    Strings.JoinKeepsOut(hextets, ':', '/');
    Strings.JoinKeepsOut(hextets, ':', '%');
    Strings.JoinKeepsOut(hextets, ':', '.');
    Strings.SplitJoin(hextets, ':');
    assert InnerEmpty(hextets, 1).None?;
    Strings.SplitNoSep(s, '.');
    Strings.JoinHead(hextets, ':');
    assert s[0] == hextets[0][0];
  }

  /** `::1`, the loopback address, is an IPv6 address and may stand in brackets. */
  lemma LoopbackIsIpv6()
    ensures IsIpv6("::1") && BracketedHostOk("::1")
  {
    LoopbackParts();
    var parts := ["", "", "1"];
    LoopbackHextets(parts);
    assert FirstIndex("::1", '%').None?;
    assert IsIpv6Address("::1");
    Ipv4NotIpv6("::1");
  }

  /** `::1` splits at `:` into two empty parts and `1`. */
  lemma LoopbackParts()
    ensures Strings.Split("::1", ':') == ["", "", "1"]
  {
    var parts := ["", "", "1"];
    assert Strings.Join(parts, ':') == "::1" by {
      assert Strings.Join(parts[1..], ':') == ":1";
    }
    Strings.SplitJoin(parts, ':');
  }

  /** The parts of `::1` make up eight hextets: seven skipped, then `1`. */
  lemma LoopbackHextets(parts: seq<string>)
    requires parts == ["", "", "1"]
    ensures WithIpv4Tail(parts) == Some(parts) && HextetsOk(parts)
  {
    assert '.' !in parts[2];
    assert InnerEmpty(parts, 1) == Some(1);
    assert IsHextet(parts[2]);
  }

  /** Four octets joined by dots are an IPv4 address, which may not stand in brackets. */
  lemma Ipv4NotBracketable(octets: seq<string>)
    requires |octets| == 4 && forall i :: 0 <= i < 4 ==> IsOctet(octets[i])
    ensures IsIpv4(Strings.Join(octets, '.'))
    ensures !BracketedHostOk(Strings.Join(octets, '.'))
  {
    var s := Strings.Join(octets, '.');
    Strings.JoinKeepsOut(octets, '.', '/');
    Strings.SplitJoin(octets, '.');
    Strings.JoinHead(octets, '.');
    assert s[0] == octets[0][0];
  }

  /** No text is both an IPv4 and an IPv6 address: the one holds no `:`, the other at least two. */
  lemma Ipv4NotIpv6(s: string)
    ensures IsIpv4(s) ==> ':' !in s
    ensures IsIpv6(s) ==> ':' in s
    ensures !(IsIpv4(s) && IsIpv6(s))
  {
    if IsIpv4(s) {
      var octets := Strings.Split(s, '.');
      Strings.JoinKeepsOut(octets, '.', ':');
    }
    if IsIpv6(s) {
      var a := if FirstIndex(s, '%').Some? then s[..FirstIndex(s, '%').value] else s;
      Strings.CountedIsIn(a, ':');
      var k :| 0 <= k < |a| && a[k] == ':';
      assert s[k] == ':';
    }
  }
}
