/** Dotted-quad IPv4 literals: the parser (sidetnfs_resolve.c, 5-48) and the printer (network.c, 793-798). */
module Ipv4 {
  import opened Words

  predicate Digit(c: byte) {
    '0' as int <= c <= '9' as int
  }

  function DigitValue(c: byte): nat
    requires Digit(c)
  {
    var x: int := c;
    x - '0' as int
  }

  /** The number a string of digits stands for. */
  function Value(t: seq<byte>): nat
    requires forall k :: 0 <= k < |t| ==> Digit(t[k])
  {
    if t == [] then 0 else 10 * Value(t[..|t| - 1]) + DigitValue(t[|t| - 1])
  }

  /** One to three digits, standing for at most 255. */
  predicate Octet(t: seq<byte>, v: nat) {
    1 <= |t| <= 3 && (forall k :: 0 <= k < |t| ==> Digit(t[k])) && Value(t) == v <= 255
  }

  /** In character codes: one to three digits 48 to 57, whose decimal value is at most 255. */
  lemma OctetByNumber(t: seq<byte>, v: nat)
    ensures Octet(t, v) <==>
              && 1 <= |t| <= 3 && (forall k :: 0 <= k < |t| ==> 48 <= t[k] <= 57) && v <= 255
              && v == if |t| == 1 then (t[0] as int) - 48
                      else if |t| == 2 then 10 * ((t[0] as int) - 48) + t[1] - 48
                      else 100 * ((t[0] as int) - 48) + 10 * ((t[1] as int) - 48) + t[2] - 48
  {
    if 1 <= |t| <= 3 && forall k :: 0 <= k < |t| ==> Digit(t[k]) {
      assert t[..0] == [] && forall k :: 1 <= k <= |t| ==> t[..k][..k - 1] == t[..k - 1] && t[..k][k - 1] == t[k - 1];
      assert t[..|t|] == t;
      assert Value(t[..1]) == (t[0] as int) - 48;
      if |t| >= 2 { assert Value(t[..2]) == 10 * Value(t[..1]) + t[1] - 48; }
      if |t| == 3 { assert Value(t) == 10 * Value(t[..2]) + t[2] - 48; }
    }
  }

  /** `s` is the octets `vs`, separated by single dots, and nothing else. */
  ghost predicate Dotted(s: seq<byte>, vs: seq<nat>)
    decreases |vs|, 1
  {
    vs != [] && exists k: nat :: FirstOctet(s, vs, k)
  }

  /** The first octet takes `k` characters, and the rest follows after a dot. */
  ghost predicate FirstOctet(s: seq<byte>, vs: seq<nat>, k: nat)
    requires vs != []
    decreases |vs|, 0
  {
    && k <= |s| && Octet(s[..k], vs[0])
    && if |vs| == 1 then k == |s| else k < |s| && s[k] == DOT && Dotted(s[k + 1..], vs[1..])
  }

  /** How many digits a string starts with. */
  function DigitRun(s: seq<byte>): (k: nat)
    ensures k <= |s| && (forall i :: 0 <= i < k ==> Digit(s[i])) && (k < |s| ==> !Digit(s[k]))
  {
    if s == [] || !Digit(s[0]) then 0 else 1 + DigitRun(s[1..])
  }

  datatype Head = Head(value: nat, length: nat)

  /** The octet a string starts with. */
  function HeadOctet(s: seq<byte>): (h: Option<Head>)
    ensures h.Some? ==> 1 <= h.value.length <= |s| && h.value.value <= 255
  {
    var k := DigitRun(s);
    if 1 <= k <= 3 && Value(s[..k]) <= 255 then Some(Head(Value(s[..k]), k)) else None
  }

  function Prepend(vs: seq<nat>, o: Option<seq<nat>>): Option<seq<nat>> {
    if o.Some? then Some(vs + o.value) else None
  }

  /** The octets of `s`, `n` of them, if that is what it is. */
  function Octets(s: seq<byte>, n: nat): Option<seq<nat>>
    requires n > 0
    decreases n, 0
  {
    var h := HeadOctet(s);
    if h.None? then None else After(h.value.value, s[h.value.length..], n - 1)
  }

  /** The same, when the first octet `v` has been taken off. */
  function After(v: nat, rest: seq<byte>, n: nat): Option<seq<nat>>
    decreases n, 1
  {
    if n == 0 then (if rest == [] then Some([v]) else None)
    else if rest == [] || rest[0] != DOT then None
    else Prepend([v], Octets(rest[1..], n))
  }

  lemma {:induction false} DigitRunIs(s: seq<byte>, k: nat)
    requires k <= |s| && (forall i :: 0 <= i < k ==> Digit(s[i])) && (k < |s| ==> !Digit(s[k]))
    ensures DigitRun(s) == k
  {
    if k > 0 { DigitRunIs(s[1..], k - 1); }
  }

  lemma OctetIsHead(s: seq<byte>, v: nat, k: nat)
    requires k <= |s| && Octet(s[..k], v) && (k < |s| ==> !Digit(s[k]))
    ensures HeadOctet(s) == Some(Head(v, k))
  {
    forall i | 0 <= i < k ensures Digit(s[i]) { assert Digit(s[..k][i]); }
    DigitRunIs(s, k);
  }

  lemma HeadIsOctet(s: seq<byte>)
    ensures HeadOctet(s).Some? ==> Octet(s[..HeadOctet(s).value.length], HeadOctet(s).value.value)
  {
  }

  lemma {:induction false} DottedIsFound(s: seq<byte>, vs: seq<nat>)
    requires Dotted(s, vs)
    ensures Octets(s, |vs|) == Some(vs)
    decreases |vs|
  {
    var k: nat :| FirstOctet(s, vs, k);
    OctetIsHead(s, vs[0], k);
    hide HeadOctet, Octet;
    assert vs == [vs[0]] + vs[1..];
    if |vs| > 1 {
      DottedIsFound(s[k + 1..], vs[1..]);
      assert s[k..][1..] == s[k + 1..];
    } else {
      assert vs == [vs[0]];
    }
  }

  lemma {:induction false} FoundIsDotted(s: seq<byte>, vs: seq<nat>)
    requires vs != [] && Octets(s, |vs|) == Some(vs)
    ensures Dotted(s, vs)
    decreases |vs|
  {
    HeadIsOctet(s);
    hide HeadOctet, Octet;
    var k := HeadOctet(s).value.length;
    if |vs| > 1 {
      assert s[k..][1..] == s[k + 1..];
      assert vs[1..] == Octets(s[k + 1..], |vs| - 1).value;
      FoundIsDotted(s[k + 1..], vs[1..]);
    }
    assert FirstOctet(s, vs, k);
  }

  /** A string has at most one reading as dotted octets, and `Octets` finds it. */
  lemma OctetsIffDotted(s: seq<byte>, vs: seq<nat>)
    requires vs != []
    ensures Dotted(s, vs) <==> Octets(s, |vs|) == Some(vs)
  {
    hide Dotted, Octets;
    if Dotted(s, vs) { DottedIsFound(s, vs); }
    if Octets(s, |vs|) == Some(vs) { FoundIsDotted(s, vs); }
  }

  predicate AllBytes(vs: seq<nat>) {
    forall i :: 0 <= i < |vs| ==> vs[i] <= 255
  }

  /** `ip_addr_t.addr` keeps the first octet in the least significant byte. */
  function Address(vs: seq<nat>): dword
    requires |vs| == 4 && AllBytes(vs)
  {
    vs[0] + 256 * vs[1] + 65536 * vs[2] + 16777216 * vs[3]
  }

  ghost predicate IsLiteral(s: seq<byte>, addr: dword) {
    exists vs: seq<nat> :: |vs| == 4 && Dotted(s, vs) && AllBytes(vs) && Address(vs) == addr
  }

  // -- The parser -----------------------------------------------------------------------------------

  /** The loop over the digits of one octet; it gives up at the fourth digit or beyond 255. */
  method ReadOctet(host: seq<byte>, p: nat) returns (ok: bool, v: nat, p': nat)
    requires p <= |host|
    ensures ok ==> p <= p' <= |host| && HeadOctet(host[p..]) == Some(Head(v, p' - p))
    ensures !ok ==> HeadOctet(host[p..]) == None
  {
    var s, k := host[p..], DigitRun(host[p..]);
    v, p' := 0, p;
    if p == |host| || !Digit(host[p]) { return false, v, p'; }
    var digits := 0;
    assert s[..0] == [];
    while p' < |host| && Digit(host[p'])
      invariant 0 <= digits <= 3 && p' == p + digits <= |host|
      invariant digits <= k && v == Value(s[..digits]) <= 255
    {
      assert s[digits] == host[p'];
      assert s[..digits + 1][..digits] == s[..digits];
      v := v * 10 + DigitValue(host[p']);
      p' := p' + 1;
      digits := digits + 1;
      if digits > 3 || v > 255 {
        ValueGrows(s[..k], digits);
        assert s[..k][..digits] == s[..digits];
        return false, v, p';
      }
    }
    ok := true;
  }

  lemma {:induction false} ValueGrows(t: seq<byte>, n: nat)
    requires n <= |t| && forall k :: 0 <= k < |t| ==> Digit(t[k])
    ensures Value(t[..n]) <= Value(t)
    decreases |t|
  {
    if n < |t| {
      ValueGrows(t[..|t| - 1], n);
      assert t[..|t| - 1][..n] == t[..n];
    } else {
      assert t[..n] == t;
    }
  }

  /** The reading of the whole string, when the octets `seen` have been read. */
  ghost predicate Reading(host: seq<byte>, seen: seq<nat>, rest: seq<byte>, left: nat) {
    Octets(host, 4) == if left > 0 then Prepend(seen, Octets(rest, left)) else if rest == [] then Some(seen) else None
  }

  lemma ReadingNext(host: seq<byte>, seen: seq<nat>, rest: seq<byte>, left: nat)
    requires left > 0 && Reading(host, seen, rest, left)
    ensures HeadOctet(rest) == None ==> Octets(host, 4) == None
    ensures HeadOctet(rest).Some? ==> ReadingAfter(host, seen, HeadOctet(rest).value.value, rest[HeadOctet(rest).value.length..], left - 1)
  {
    hide HeadOctet;
  }

  ghost predicate ReadingAfter(host: seq<byte>, seen: seq<nat>, v: nat, rest: seq<byte>, left: nat) {
    Octets(host, 4) == Prepend(seen, After(v, rest, left))
  }

  lemma ReadingDot(host: seq<byte>, seen: seq<nat>, v: nat, rest: seq<byte>, left: nat)
    requires ReadingAfter(host, seen, v, rest, left)
    ensures left == 0 ==> Reading(host, seen + [v], rest, 0)
    ensures left > 0 && (rest == [] || rest[0] != DOT) ==> Octets(host, 4) == None
    ensures left > 0 && rest != [] && rest[0] == DOT ==> Reading(host, seen + [v], rest[1..], left)
  {
    if left > 0 && rest != [] {
      var o := Octets(rest[1..], left);
      hide Octets;
      if o.Some? { assert seen + ([v] + o.value) == seen + [v] + o.value; }
    }
  }

  /** One octet, and the dot after it unless it is the last. */
  method NextOctet(host: seq<byte>, p: nat, i: nat, ghost octets: seq<nat>) returns (ok: bool, v: nat, p': nat)
    requires i < 4 && p <= |host| && Reading(host, octets, host[p..], 4 - i)
    ensures !ok ==> Octets(host, 4) == None
    ensures ok ==> v <= 255 && p' <= |host| && Reading(host, octets + [v], host[p'..], 3 - i)
  {
    hide *;
    ReadingNext(host, octets, host[p..], 4 - i);
    ok, v, p' := ReadOctet(host, p);
    if !ok { return; }
    ghost var rest := host[p'..];
    assert host[p..][p' - p..] == rest;
    ReadingDot(host, octets, v, rest, 3 - i);
    if i < 3 {
      if p' == |host| || host[p'] != DOT { return false, v, p'; }
      assert rest[1..] == host[p' + 1..];
      p' := p' + 1;
    }
  }

  /** `sidetnfs_resolve_parse_ipv4`. */
  method ParseIpv4(host: seq<byte>) returns (addr: Option<dword>)
    requires CString(host)
    ensures addr.Some? ==> IsLiteral(host, addr.value)
    ensures addr.None? ==> forall a :: !IsLiteral(host, a)
  {
    hide *;
    var octets: seq<nat> := [];
    var p: nat := 0;
    StartReading(host);
    for i := 0 to 4
      invariant |octets| == i && AllBytes(octets) && p <= |host| && Reading(host, octets, host[p..], 4 - i)
    {
      var ok, v, p' := NextOctet(host, p, i, octets);
      if !ok {
        NotDotted(host);
        return None;
      }
      AllBytesGrow(octets, v);
      octets := octets + [v];
      p := p';
    }
    EndReading(host, octets, host[p..]);
    if p != |host| {
      NotDotted(host);
      return None;
    }
    return Some(Address(octets));
  }

  lemma AllBytesGrow(vs: seq<nat>, v: nat)
    ensures AllBytes([])
    ensures AllBytes(vs) && v <= 255 ==> AllBytes(vs + [v])
  {
  }

  lemma StartReading(host: seq<byte>)
    ensures Reading(host, [], host[0..], 4) && AllBytes([])
  {
    assert host[0..] == host;
    var o := Octets(host, 4);
    hide Octets;
    if o.Some? { assert [] + o.value == o.value; }
  }

  lemma EndReading(host: seq<byte>, vs: seq<nat>, rest: seq<byte>)
    requires |vs| == 4 && AllBytes(vs) && Reading(host, vs, rest, 0)
    ensures rest != [] ==> Octets(host, 4) == None
    ensures rest == [] ==> IsLiteral(host, Address(vs))
  {
    OctetsIffDotted(host, vs);
    hide Octets, Dotted, Address;
  }

  lemma NotDotted(host: seq<byte>)
    requires Octets(host, 4) == None
    ensures forall a :: !IsLiteral(host, a)
  {
    forall vs: seq<nat> | |vs| == 4 ensures !Dotted(host, vs) {
      OctetsIffDotted(host, vs);
    }
    hide Octets, Dotted, Address;
  }

  // -- The printer ----------------------------------------------------------------------------------

  function Decimal(n: nat): (t: seq<byte>)
    decreases n
  {
    if n < 10 then [n + '0' as int] else Decimal(n / 10) + Decimal(n % 10)
  }

  /** `print_ipv4`. */
  function PrintIpv4(addr: dword): seq<byte> {
    var b := Le32(addr);
    Decimal(b[0]) + [DOT] + Decimal(b[1]) + [DOT] + Decimal(b[2]) + [DOT] + Decimal(b[3])
  }

  lemma {:induction false} DecimalDigits(n: nat)
    ensures forall k :: 0 <= k < |Decimal(n)| ==> Digit(Decimal(n)[k])
    ensures Value(Decimal(n)) == n && |Decimal(n)| >= 1
    ensures |Decimal(n)| == if n < 10 then 1 else 1 + |Decimal(n / 10)|
    decreases n
  {
    if n < 10 {
      assert Value([n + '0' as int][..0]) == 0;
    } else {
      DecimalDigits(n / 10);
      var t, c := Decimal(n / 10), n % 10 + '0' as int;
      assert Decimal(n) == t + [c] && (t + [c])[..|t|] == t;
    }
  }

  lemma DecimalIsOctet(n: nat)
    requires n <= 255
    ensures Octet(Decimal(n), n)
  {
    DecimalDigits(n);
    DecimalDigits(n / 10);
    DecimalDigits(n / 100);
    assert n / 10 / 10 == n / 100;
    hide Decimal, Value;
  }

  lemma DottedCons(t: seq<byte>, v: nat, s: seq<byte>, vs: seq<nat>)
    requires Octet(t, v) && Dotted(s, vs)
    ensures Dotted(t + [DOT] + s, [v] + vs)
  {
    var whole := t + [DOT] + s;
    assert whole[..|t|] == t && whole[|t|] == DOT && whole[|t| + 1..] == s && ([v] + vs)[1..] == vs;
    hide Octet;
    assert FirstOctet(whole, [v] + vs, |t|);
  }

  lemma DottedOne(t: seq<byte>, v: nat)
    requires Octet(t, v)
    ensures Dotted(t, [v])
  {
    assert t[..|t|] == t;
    assert FirstOctet(t, [v], |t|);
  }

  lemma FourDotted(t0: seq<byte>, t1: seq<byte>, t2: seq<byte>, t3: seq<byte>, v0: nat, v1: nat, v2: nat, v3: nat)
    requires Octet(t0, v0) && Octet(t1, v1) && Octet(t2, v2) && Octet(t3, v3)
    ensures Dotted(t0 + [DOT] + t1 + [DOT] + t2 + [DOT] + t3, [v0, v1, v2, v3])
  {
    hide Octet, Dotted;
    DottedOne(t3, v3);
    DottedCons(t2, v2, t3, [v3]);
    DottedCons(t1, v1, t2 + [DOT] + t3, [v2] + [v3]);
    DottedCons(t0, v0, t1 + [DOT] + (t2 + [DOT] + t3), [v1] + ([v2] + [v3]));
    assert t0 + [DOT] + t1 + [DOT] + t2 + [DOT] + t3 == t0 + [DOT] + (t1 + [DOT] + (t2 + [DOT] + t3));
    assert [v0, v1, v2, v3] == [v0] + ([v1] + ([v2] + [v3]));
  }

  /** The first number of a literal is the lowest byte of the address, and is printed first; numbers have no leading zeros. */
  lemma LiteralByNumber(a: byte, b: byte, c: byte, d: byte)
    ensures var addr := (a as int) + 256 * b + 65536 * c + 16777216 * d;
            && (forall s :: Dotted(s, [a, b, c, d]) ==> IsLiteral(s, addr))
            && PrintIpv4(addr) == Decimal(a) + [46] + Decimal(b) + [46] + Decimal(c) + [46] + Decimal(d)
    ensures Decimal(a) == if a < 10 then [48 + a] else if a < 100 then [48 + a / 10, 48 + a % 10]
                          else [48 + a / 100, 48 + a / 10 % 10, 48 + a % 10]
  {
    var addr: int := (a as int) + 256 * b + 65536 * c + 16777216 * d;
    var vs: seq<nat> := [a, b, c, d];
    assert AllBytes(vs) && Address(vs) == addr;
    Le32OfBytes(a, b, c, d);
    DecimalByNumber(a);
    hide Decimal, Dotted;
  }

  lemma DecimalByNumber(a: byte)
    ensures Decimal(a) == if a < 10 then [48 + a] else if a < 100 then [48 + a / 10, 48 + a % 10]
                          else [48 + a / 100, 48 + a / 10 % 10, 48 + a % 10]
  {
    if a >= 100 {
      assert Decimal(a) == Decimal(a / 10) + [48 + a % 10];
      assert Decimal(a / 10) == Decimal(a / 10 / 10) + [48 + a / 10 % 10];
    } else if a >= 10 {
      assert Decimal(a) == Decimal(a / 10) + [48 + a % 10];
    }
  }

  /** Whatever is printed is read back as the same address. */
  lemma PrintedIsLiteral(addr: dword)
    ensures IsLiteral(PrintIpv4(addr), addr)
  {
    var b := Le32(addr);
    DecimalIsOctet(b[0]);
    DecimalIsOctet(b[1]);
    DecimalIsOctet(b[2]);
    DecimalIsOctet(b[3]);
    Le32RoundTrip(addr);
    hide Decimal, Octet, Dotted, Le32;
    FourDotted(Decimal(b[0]), Decimal(b[1]), Decimal(b[2]), Decimal(b[3]), b[0], b[1], b[2], b[3]);
    var vs: seq<nat> := [b[0], b[1], b[2], b[3]];
    assert Dotted(PrintIpv4(addr), vs) && Address(vs) == addr;
  }

  /** A literal names one address only. */
  lemma LiteralIsUnambiguous(s: seq<byte>, a: dword, b: dword)
    requires IsLiteral(s, a) && IsLiteral(s, b)
    ensures a == b
  {
    var vs: seq<nat> :| |vs| == 4 && Dotted(s, vs) && AllBytes(vs) && Address(vs) == a;
    var ws: seq<nat> :| |ws| == 4 && Dotted(s, ws) && AllBytes(ws) && Address(ws) == b;
    OctetsIffDotted(s, vs);
    OctetsIffDotted(s, ws);
  }

  /** Printing and parsing again. */
  method RoundTrip(addr: dword) returns (back: Option<dword>)
    ensures back == Some(addr)
  {
    PrintedIsLiteral(addr);
    PrintedIsCString(addr);
    back := ParseIpv4(PrintIpv4(addr));
    if back.Some? { LiteralIsUnambiguous(PrintIpv4(addr), addr, back.value); }
  }

  lemma PrintedIsCString(addr: dword)
    ensures CString(PrintIpv4(addr))
  {
    var b := Le32(addr);
    DecimalIsOctet(b[0]);
    DecimalIsOctet(b[1]);
    DecimalIsOctet(b[2]);
    DecimalIsOctet(b[3]);
    hide Decimal;
  }
}
