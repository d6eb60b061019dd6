// IP addresses and socket addresses as texts: what the client prints, what the DNS side parses back, and the
// "ip or ip:port" form of an upstream name server (src/util.rs, src/client.rs).
//
// Readers take a text and give the value together with the text left over, which is how Rust's address parser
// works; a whole-text parse succeeds when nothing is left over. The grammar is that of section 3.2.2 of RFC 3986
// for IPv4 and of section 2.2 of RFC 4291 for IPv6; IPv6 is printed as in section 4 of RFC 5952, with the mixed
// notation of its section 5 for IPv4-mapped addresses.

module Addresses {
  import opened Wrappers
  import opened Numerals

  type Octet = n: nat | n < 0x100
  type Segment = n: nat | n < 0x1_0000
  type Octets = o: seq<Octet> | |o| == 4 witness [0, 0, 0, 0]
  type Segments = s: seq<Segment> | |s| == 8 witness [0, 0, 0, 0, 0, 0, 0, 0]

  datatype IpAddr =
    | V4(octets: Octets)
    | V6(segments: Segments)

  /** The port is 16 bits wide; the scope is an IPv6 zone index and is 0 when there is none. */
  datatype SocketAddr =
    | SocketV4(ip4: IpAddr, port4: nat)
    | SocketV6(ip6: IpAddr, port6: nat, scope: nat)
  {
    predicate Valid() {
      match this
      case SocketV4(ip, port) => ip.V4? && port < 0x1_0000
      case SocketV6(ip, port, scope) => ip.V6? && port < 0x1_0000 && scope < 0x1_0000_0000
    }
  }

  // ---- Printing ----

  /** Octets as they stand in a text, the first of them at position index of the address. */
  function PrintOctets(octets: seq<Octet>, index: nat): string {
    if octets == [] then ""
    else (if index > 0 then "." else "") + Digits(octets[0], 10) + PrintOctets(octets[1..], index + 1)
  }

  function PrintV4(ip: IpAddr): string
    requires ip.V4?
  {
    PrintOctets(ip.octets, 0)
  }

  /** Segments as they stand in a text, the first of them at position index of its part. */
  function PrintSegments(segments: seq<Segment>, index: nat): string {
    if segments == [] then ""
    else (if index > 0 then ":" else "") + Digits(segments[0], 16) + PrintSegments(segments[1..], index + 1)
  }

  predicate IsMapped(segments: Segments) {
    segments[..6] == [0, 0, 0, 0, 0, 0xffff]
  }

  /** Is segments[start..start + len] all zero? */
  ghost predicate ZeroRun(segments: seq<Segment>, start: nat, len: nat) {
    start + len <= |segments| && forall i | start <= i < start + len :: segments[i] == 0
  }

  /** The number of zero segments that end just before position n. */
  function ZerosBefore(segments: seq<Segment>, n: nat): (len: nat)
    requires n <= |segments|
    ensures len <= n && ZeroRun(segments, n - len, len)
    ensures len < n ==> segments[n - len - 1] != 0
  {
    if n == 0 || segments[n - 1] != 0 then 0 else 1 + ZerosBefore(segments, n - 1)
  }

  /** The first of the longest runs of zeros in segments[..n], as (start, length). */
  function LongestZeroRun(segments: seq<Segment>, n: nat): (run: (nat, nat))
    requires n <= |segments|
    ensures ZeroRun(segments, run.0, run.1) && run.0 + run.1 <= n
    ensures forall start: nat, len: nat | ZeroRun(segments, start, len) && 0 < len && start + len <= n ::
              len < run.1 || (len == run.1 && run.0 <= start)
  {
    if n == 0 then (0, 0)
    else
      var before, current := LongestZeroRun(segments, n - 1), ZerosBefore(segments, n);
      assert forall start: nat, len: nat | ZeroRun(segments, start, len) && start + len == n :: len <= current by {
        forall start: nat, len: nat | ZeroRun(segments, start, len) && start + len == n
          ensures len <= current
        {
          assert current < n ==> segments[n - current - 1] != 0;
        }
      }
      if current > before.1 then (n - current, current) else before
  }

  function PrintV6(ip: IpAddr): string
    requires ip.V6?
  {
    if IsMapped(ip.segments) then
      "::ffff:" + PrintV4(EmbeddedV4(ip.segments[6], ip.segments[7]))
    else
      var (start, len) := LongestZeroRun(ip.segments, 8);
      if len > 1 then
        PrintSegments(ip.segments[..start], 0) + "::" + PrintSegments(ip.segments[start + len..], 0)
      else
        PrintSegments(ip.segments, 0)
  }

  /** Is this the first of the longest runs of zeros, and are there at least two? */
  ghost predicate IsLeftOut(segments: seq<Segment>, start: nat, len: nat) {
    && len > 1 && ZeroRun(segments, start, len)
    && forall other: nat, size: nat | ZeroRun(segments, other, size) && 0 < size ::
         size < len || (size == len && start <= other)
  }

  /** An address that is not IPv4-mapped is printed with the first of its longest runs of zeros left out, and in full
      when no two zeros stand together (section 4.2 of RFC 5952). */
  lemma ZerosAreLeftOut(ip: IpAddr)
    requires ip.V6? && ip.segments[..6] != [0, 0, 0, 0, 0, 0xffff]
    ensures forall start: nat, len: nat | IsLeftOut(ip.segments, start, len) ::
              PrintV6(ip)
              == PrintSegments(ip.segments[..start], 0) + "::" + PrintSegments(ip.segments[start + len..], 0)
    ensures (forall i | 0 <= i < 7 :: ip.segments[i] != 0 || ip.segments[i + 1] != 0) ==>
              PrintV6(ip) == PrintSegments(ip.segments, 0)
  {
    hide PrintSegments;
    var (first, longest) := LongestZeroRun(ip.segments, 8);
    forall start: nat, len: nat | IsLeftOut(ip.segments, start, len)
      ensures start == first && len == longest
    {
      assert ZeroRun(ip.segments, start, len) && ZeroRun(ip.segments, first, longest);
    }
    if longest > 1 {
      assert ip.segments[first] == 0 && ip.segments[first + 1] == 0;
    }
  }

  function EmbeddedV4(hi: Segment, lo: Segment): IpAddr {
    V4([hi / 0x100, hi % 0x100, lo / 0x100, lo % 0x100])
  }

  function PrintIp(ip: IpAddr): string {
    if ip.V4? then PrintV4(ip) else PrintV6(ip)
  }

  function PrintSocket(socket: SocketAddr): string
    requires socket.Valid()
  {
    match socket
    case SocketV4(ip, port) => PrintV4(ip) + ":" + Digits(port, 10)
    case SocketV6(ip, port, scope) =>
      "[" + PrintV6(ip) + (if scope == 0 then "" else "%" + Digits(scope, 10)) + "]:" + Digits(port, 10)
  }

  lemma DigitsStep(n: nat, radix: nat, front: string, last: string)
    requires Radix(radix) && n >= radix && Digits(n / radix, radix) == front && Digits(n % radix, radix) == last
    ensures Digits(n, radix) == front + last
  {
  }

  lemma OneDigit(d: nat)
    requires d < 16
    ensures Digits(d, 16) == ["0123456789abcdef"[d]] && (d < 10 ==> Digits(d, 10) == ["0123456789"[d]])
  {
  }

  lemma OneDigits()
    ensures Digits(0, 10) == "0" && Digits(1, 10) == "1" && Digits(2, 10) == "2" && Digits(3, 10) == "3"
    ensures Digits(5, 10) == "5" && Digits(6, 10) == "6" && Digits(7, 10) == "7" && Digits(8, 10) == "8"
    ensures Digits(9, 10) == "9"
    ensures Digits(0, 16) == "0" && Digits(1, 16) == "1" && Digits(2, 16) == "2" && Digits(8, 16) == "8"
    ensures Digits(0xb, 16) == "b" && Digits(0xd, 16) == "d"
  {
    hide Digits;
    OneDigit(0);
    OneDigit(1);
    OneDigit(2);
    OneDigit(3);
    OneDigit(5);
    OneDigit(6);
    OneDigit(7);
    OneDigit(8);
    OneDigit(9);
    OneDigit(0xb);
    OneDigit(0xd);
  }

  lemma HexDigits()
    ensures Digits(0x2001, 16) == "2001" && Digits(0xdb8, 16) == "db8" && Digits(1, 16) == "1"
  {
    hide Digits;
    OneDigits();
    DigitsStep(0x20, 16, "2", "0");
    DigitsStep(0x200, 16, "20", "0");
    DigitsStep(0x2001, 16, "200", "1");
    DigitsStep(0xdb, 16, "d", "b");
    DigitsStep(0xdb8, 16, "db", "8");
  }

  lemma DecimalDigits()
    ensures Digits(192, 10) == "192" && Digits(168, 10) == "168" && Digits(0, 10) == "0" && Digits(53, 10) == "53"
    ensures Digits(1, 10) == "1" && Digits(7, 10) == "7"
  {
    hide Digits;
    OneDigits();
    DigitsStep(19, 10, "1", "9");
    DigitsStep(192, 10, "19", "2");
    DigitsStep(16, 10, "1", "6");
    DigitsStep(168, 10, "16", "8");
    DigitsStep(53, 10, "5", "3");
  }

  const DOCUMENTATION: IpAddr := V6([0x2001, 0xdb8, 0, 0, 0, 0, 0, 1])
  const PRIVATE: IpAddr := V4([192, 168, 0, 1])

  /** How printed socket addresses look. */
  lemma SocketForms()
    ensures PrintSocket(SocketV4(PRIVATE, 53)) == "192.168.0.1:53"
    ensures PrintSocket(SocketV6(DOCUMENTATION, 53, 0)) == "[2001:db8::1]:53"
    ensures PrintSocket(SocketV6(DOCUMENTATION, 53, 7)) == "[2001:db8::1%7]:53"
  {
    DecimalDigits();
    FormV4();
    FormV6();
    hide Digits, PrintV6, PrintV4;
    assert PrintSocket(SocketV4(PRIVATE, 53)) == "192.168.0.1" + ":" + "53";
    assert PrintSocket(SocketV6(DOCUMENTATION, 53, 0)) == "[" + "2001:db8::1" + "" + "]:" + "53";
    assert PrintSocket(SocketV6(DOCUMENTATION, 53, 7)) == "[" + "2001:db8::1" + ("%" + "7") + "]:" + "53";
    hide PrintSocket;
    SocketLiterals();
  }

  lemma SocketLiterals()
    ensures "192.168.0.1" + ":" + "53" == "192.168.0.1:53"
    ensures "[" + "2001:db8::1" + "" + "]:" + "53" == "[2001:db8::1]:53"
    ensures "[" + "2001:db8::1" + ("%" + "7") + "]:" + "53" == "[2001:db8::1%7]:53"
  {
  }

  /** How a printed IPv4-mapped address looks. */
  lemma FormMapped()
    ensures PrintIp(V6([0, 0, 0, 0, 0, 0xffff, 192 * 256 + 168, 1])) == "::ffff:192.168.0.1"
  {
    hide Digits, PrintV4, LongestZeroRun;
    FormV4();
    assert EmbeddedV4(192 * 256 + 168, 1) == PRIVATE;
  }

  /** How a printed IPv4 address looks. */
  lemma FormV4()
    ensures PrintV4(PRIVATE) == "192.168.0.1" == PrintIp(PRIVATE)
  {
    hide Digits;
    DecimalDigits();
    var o := PRIVATE.octets;
    assert PrintOctets(o[3..], 3) == ".1" by {
      assert o[3..] == [1] && o[3..][1..] == [];
    }
    assert PrintOctets(o[2..], 2) == ".0.1" by {
      assert o[2..][1..] == o[3..];
    }
    assert PrintOctets(o[1..], 1) == ".168.0.1" by {
      assert o[1..][1..] == o[2..];
    }
    assert "" + "192" + ".168.0.1" == "192.168.0.1";
  }

  /** How a printed IPv6 address looks. */
  lemma FormV6()
    ensures PrintV6(DOCUMENTATION) == "2001:db8::1" == PrintIp(DOCUMENTATION)
  {
    hide Digits, PrintSegments, PrintV6, LongestZeroRun;
    var s := DOCUMENTATION.segments;
    assert s[..6][0] == 0x2001;
    forall other: nat, size: nat | ZeroRun(s, other, size) && 0 < size
      ensures size <= 5 && (size == 5 ==> 2 <= other)
    {
      assert s[other] == 0 && s[other + size - 1] == 0;
    }
    assert IsLeftOut(s, 2, 5);
    ZerosAreLeftOut(DOCUMENTATION);
    HeadAndTail();
    assert s[..2] == [0x2001, 0xdb8] && s[2 + 5..] == [1];
    assert "2001:db8" + "::" + "1" == "2001:db8::1";
  }

  lemma HeadAndTail()
    ensures PrintSegments([0x2001, 0xdb8], 0) == "2001:db8" && PrintSegments([1], 0) == "1"
  {
    hide Digits;
    HexDigits();
    assert [0x2001, 0xdb8][1..] == [0xdb8];
    assert PrintSegments([0xdb8], 1) == ":db8";
    assert "" + "2001" + ":db8" == "2001:db8";
  }

  // ---- Reading ----

  function ReadChar(s: string, c: char): Option<string> {
    if s != "" && s[0] == c then Some(s[1..]) else None
  }

  function ReadOctet(s: string): (r: Option<(Octet, string)>)
    ensures r.Some? ==> s != "" && IsDigit(s[0], 10) && |r.value.1| < |s|
  {
    var (n, rest) :- ReadNumber(s, 10, Some(3), false, 0x100);
    Some((n, rest))
  }

  /** The text of the part at position index, past the separator before it; none when the separator is missing. */
  function PastSeparator(s: string, separator: char, index: nat): (r: Option<string>)
    ensures r.Some? ==> |r.value| <= |s|
  {
    if index == 0 then Some(s) else ReadChar(s, separator)
  }

  function ReadOctets(s: string, index: nat, limit: nat): (r: Option<(seq<Octet>, string)>)
    requires index <= limit
    ensures r.Some? ==> |r.value.0| == limit - index
    ensures r.Some? && index == 0 < limit ==> s != "" && IsDigit(s[0], 10)
    decreases |s|
  {
    if index == limit then Some(([], s))
    else
      var inner :- PastSeparator(s, '.', index);
      var (octet, rest) :- ReadOctet(inner);
      var (more, end) :- ReadOctets(rest, index + 1, limit);
      Some(([octet] + more, end))
  }

  function ReadV4(s: string): (r: Option<(IpAddr, string)>)
    ensures r.Some? ==> r.value.0.V4? && s != "" && IsDigit(s[0], 10)
  {
    var (octets, rest) :- ReadOctets(s, 0, 4);
    Some((V4(octets), rest))
  }

  /** What a run of colon-separated groups gave; `v4` tells that it ended in an embedded IPv4 address. */
  datatype Groups = Groups(segments: seq<Segment>, v4: bool, rest: string)

  function FromBytes(hi: Octet, lo: Octet): Segment {
    hi * 0x100 + lo
  }

  function ReadGroups(s: string, index: nat, limit: nat): (g: Groups)
    requires index <= limit
    ensures |g.segments| <= limit - index
    decreases |s|
  {
    var inner := PastSeparator(s, ':', index);
    if index == limit || inner.None? then Groups([], false, s)
    else
      var v4 := if index + 1 < limit then ReadV4(inner.value) else None;
      if v4.Some? then
        var (ip, rest) := v4.value;
        Groups([FromBytes(ip.octets[0], ip.octets[1]), FromBytes(ip.octets[2], ip.octets[3])], true, rest)
      else
        match ReadNumber(inner.value, 16, Some(4), true, 0x1_0000)
        case None => Groups([], false, s)
        case Some((n, rest)) =>
          var more := ReadGroups(rest, index + 1, limit);
          Groups([n] + more.segments, more.v4, more.rest)
  }

  function Zeros(n: nat): (s: seq<Segment>)
    ensures |s| == n && forall i | 0 <= i < n :: s[i] == 0
  {
    seq(n, _ => 0)
  }

  function ReadV6(s: string): (r: Option<(IpAddr, string)>)
    ensures r.Some? ==> r.value.0.V6?
  {
    hide ReadGroups;
    var head := ReadGroups(s, 0, 8);
    if |head.segments| == 8 then Some((V6(head.segments), head.rest))
    else if head.v4 then None
    else
      var s1 :- ReadChar(head.rest, ':');
      var s2 :- ReadChar(s1, ':');
      var tail := ReadGroups(s2, 0, 7 - |head.segments|);
      var middle := Zeros(8 - |head.segments| - |tail.segments|);
      Some((V6(head.segments + middle + tail.segments), tail.rest))
  }

  function ReadIp(s: string): Option<(IpAddr, string)> {
    var v4 := ReadV4(s);
    if v4.Some? then v4 else ReadV6(s)
  }

  function ReadPort(s: string): Option<(nat, string)> {
    var s1 :- ReadChar(s, ':');
    ReadNumber(s1, 10, None, true, 0x1_0000)
  }

  function ReadSocketV4(s: string): Option<(SocketAddr, string)> {
    var (ip, s1) :- ReadV4(s);
    var (port, s2) :- ReadPort(s1);
    Some((SocketV4(ip, port), s2))
  }

  function ReadScope(s: string): Option<(nat, string)> {
    var s1 :- ReadChar(s, '%');
    ReadNumber(s1, 10, None, true, 0x1_0000_0000)
  }

  function ReadSocketV6(s: string): Option<(SocketAddr, string)> {
    var s1 :- ReadChar(s, '[');
    var (ip, s2) :- ReadV6(s1);
    var (scope, s3) := if ReadScope(s2).Some? then ReadScope(s2).value else (0, s2);
    var s4 :- ReadChar(s3, ']');
    var (port, s5) :- ReadPort(s4);
    Some((SocketV6(ip, port, scope), s5))
  }

  function ReadSocket(s: string): Option<(SocketAddr, string)> {
    var v4 := ReadSocketV4(s);
    if v4.Some? then v4 else ReadSocketV6(s)
  }

  function ParseIp(s: string): Option<IpAddr> {
    var (ip, rest) :- ReadIp(s);
    if rest == "" then Some(ip) else None
  }

  function ParseSocket(s: string): Option<SocketAddr> {
    var (socket, rest) :- ReadSocket(s);
    if rest == "" then Some(socket) else None
  }

  /** `parse_ip_optional_socket`: the socket form is tried first, then the bare address with the default port. */
  function ParseIpOptionalSocket(value: string, defaultPort: nat): Option<SocketAddr> {
    var socket := ParseSocket(value);
    if socket.Some? then socket
    else
      var ip :- ParseIp(value);
      Some(SocketOf(ip, defaultPort))
  }

  function SocketOf(ip: IpAddr, port: nat): SocketAddr {
    if ip.V4? then SocketV4(ip, port) else SocketV6(ip, port, 0)
  }

  // ---- Print, then read ----

  /** What may follow an address in a text: its end, or the bracket, scope or port that closes it. */
  ghost predicate Closes(rest: string) {
    rest == "" || rest[0] in {']', '%', ':'}
  }

  lemma {:induction false} ReadPrintedOctets(octets: seq<Octet>, index: nat, limit: nat, rest: string)
    requires index + |octets| == limit && Closes(rest)
    ensures ReadOctets(PrintOctets(octets, index) + rest, index, limit) == Some((octets, rest))
    ensures octets != [] && index > 0 ==> PrintOctets(octets, index)[0] == '.'
    decreases |octets|
  {
    hide ReadOctet, AllDigits;
    if octets == [] {
      assert PrintOctets(octets, index) + rest == rest;
    } else {
      var sep, d, tail := if index > 0 then "." else "", Digits(octets[0], 10), PrintOctets(octets[1..], index + 1);
      Regroup(sep, d, tail, rest);
      ReadPrintedOctets(octets[1..], index + 1, limit, rest);
      assert octets[1..] == [] ==> tail + rest == rest;
      ReadPrintedOctetAt(octets[0], index, limit, tail + rest);
      assert octets == [octets[0]] + octets[1..];
    }
  }

  /** One printed octet is one octet read. */
  lemma ReadPrintedOctetAt(n: Octet, index: nat, limit: nat, more: string)
    requires index < limit && (more != "" ==> !IsDigit(more[0], 10)) && ReadOctets(more, index + 1, limit).Some?
    ensures var (octets, rest) := ReadOctets(more, index + 1, limit).value;
            ReadOctets((if index > 0 then "." else "") + (Digits(n, 10) + more), index, limit) == Some(([n] + octets, rest))
  {
    PastPrinted('.', index, Digits(n, 10) + more);
    ReadPrintedOctet(n, more);
  }

  lemma PastPrinted(separator: char, index: nat, text: string)
    ensures PastSeparator((if index > 0 then [separator] else "") + text, separator, index) == Some(text)
  {
    if index > 0 {
      SkipChar(separator, text);
    } else {
      assert "" + text == text;
    }
  }

  lemma ReadPrintedV4(ip: IpAddr, rest: string)
    requires ip.V4? && Closes(rest)
    ensures ReadV4(PrintV4(ip) + rest) == Some((ip, rest))
  {
    ReadPrintedOctets(ip.octets, 0, 4, rest);
  }

  lemma Regroup(sep: string, t: string, tail: string, rest: string)
    ensures sep + t + tail + rest == sep + (t + (tail + rest))
  {
  }

  lemma SkipChar(c: char, rest: string)
    ensures ReadChar([c] + rest, c) == Some(rest)
  {
  }

  lemma ReadPrintedOctet(n: Octet, rest: string)
    requires rest != "" ==> !IsDigit(rest[0], 10)
    ensures ReadOctet(Digits(n, 10) + rest) == Some((n, rest))
  {
    assert Pow(10, 3) == 10 * Pow(10, 2) == 1000;
    DigitsLength(n, 10, 3);
    ReadPrinted(n, 10, Some(3), false, 0x100, rest);
  }

  lemma ReadPrintedSegment(n: Segment, rest: string)
    requires rest != "" ==> !IsDigit(rest[0], 16)
    ensures ReadNumber(Digits(n, 16) + rest, 16, Some(4), true, 0x1_0000) == Some((n, rest))
  {
    assert Pow(16, 2) == 16 * Pow(16, 1) == 256;
    assert Pow(16, 4) == 16 * Pow(16, 3) == 16 * (16 * Pow(16, 2)) == 0x1_0000;
    DigitsLength(n, 16, 4);
    ReadPrinted(n, 16, Some(4), true, 0x1_0000, rest);
  }

  /** Hexadecimal digits that no dot follows never read as an IPv4 address. */
  lemma HexIsNotV4(d: string, rest: string)
    requires AllDigits(d, 16) && Closes(rest)
    ensures ReadV4(d + rest).None?
  {
    var s := d + rest;
    var n := RunLength(s, 10);
    assert forall i | 0 <= i < |d| :: s[i] == d[i] && s[i] != '.';
    assert |d| < |s| ==> s[|d|] == rest[0];
    assert n > |d| ==> IsDigit(s[..n][|d|], 10);
    assert n < |s| ==> s[n] != '.';
    assert ReadOctet(s).Some? ==> ReadOctet(s).value.1 == s[n..];
    assert ReadOctets(s[n..], 1, 4).None?;
  }

  /** One printed segment is one group read. */
  lemma ReadPrintedGroup(n: Segment, index: nat, limit: nat, more: string)
    requires index < limit && Closes(more)
    ensures var g := ReadGroups(more, index + 1, limit);
            ReadGroups((if index > 0 then ":" else "") + (Digits(n, 16) + more), index, limit)
            == Groups([n] + g.segments, g.v4, g.rest)
  {
    PastPrinted(':', index, Digits(n, 16) + more);
    HexIsNotV4(Digits(n, 16), more);
    ReadPrintedSegment(n, more);
  }

  /** Printed segments are read back group by group up to a text that starts no further group. */
  lemma {:induction false} ReadPrintedGroups(segments: seq<Segment>, index: nat, limit: nat, rest: string)
    requires index + |segments| <= limit && Closes(rest)
    requires ReadGroups(rest, index + |segments|, limit) == Groups([], false, rest)
    ensures ReadGroups(PrintSegments(segments, index) + rest, index, limit) == Groups(segments, false, rest)
    ensures segments != [] && index > 0 ==> Closes(PrintSegments(segments, index) + rest)
    decreases |segments|
  {
    hide ReadNumber, ReadV4, Digits, AllDigits;
    if segments == [] {
      assert PrintSegments(segments, index) + rest == rest;
    } else {
      var sep, d, tail := if index > 0 then ":" else "", Digits(segments[0], 16), PrintSegments(segments[1..], index + 1);
      Regroup(sep, d, tail, rest);
      ReadPrintedGroups(segments[1..], index + 1, limit, rest);
      assert segments[1..] == [] ==> tail + rest == rest;
      ReadPrintedGroup(segments[0], index, limit, tail + rest);
      assert segments == [segments[0]] + segments[1..];
    }
  }

  /** What follows an IPv6 address: the end of the text, or the scope or bracket of a socket address. */
  ghost predicate ClosesV6(rest: string) {
    rest == "" || rest[0] in {']', '%'}
  }

  lemma ReadPrintedV6(ip: IpAddr, rest: string)
    requires ip.V6? && ClosesV6(rest)
    ensures ReadV6(PrintV6(ip) + rest) == Some((ip, rest))
    ensures ReadV4(PrintV6(ip) + rest).None?
  {
    var segments := ip.segments;
    var (start, len) := LongestZeroRun(segments, 8);
    if IsMapped(segments) {
      ReadPrintedMapped(ip, rest);
    } else if len > 1 {
      ReadPrintedCompressed(ip, start, len, rest);
    } else {
      ReadPrintedGroups(segments, 0, 8, rest);
      FirstSegmentIsNotV4(segments, rest);
      assert segments + Zeros(0) + [] == segments;
    }
  }

  lemma FirstSegmentIsNotV4(segments: seq<Segment>, rest: string)
    requires Closes(rest) && segments != []
    ensures ReadV4(PrintSegments(segments, 0) + rest).None?
  {
    hide ReadV4, AllDigits, Digits;
    var d, tail := Digits(segments[0], 16), PrintSegments(segments[1..], 1);
    MoreSegments(segments[1..], rest);
    assert ("" + d + tail) + rest == d + (tail + rest);
    HexIsNotV4(d, tail + rest);
  }

  lemma MoreSegments(segments: seq<Segment>, rest: string)
    requires Closes(rest)
    ensures Closes(PrintSegments(segments, 1) + rest)
  {
    hide Digits;
    if segments == [] {
      assert PrintSegments(segments, 1) + rest == rest;
    }
  }

  /** A text that starts with a double colon holds no group at its start, whether or not groups came before it. */
  lemma DoubleColonStops(index: nat, limit: nat, rest: string)
    requires index <= limit
    ensures ReadGroups("::" + rest, index, limit) == Groups([], false, "::" + rest)
    ensures ReadChar("::" + rest, ':') == Some(":" + rest)
    ensures ReadV4("::" + rest).None?
  {
    assert ("::" + rest)[1..] == ":" + rest;
  }

  lemma ReadPrintedCompressed(ip: IpAddr, start: nat, len: nat, rest: string)
    requires ip.V6? && ClosesV6(rest)
    requires len > 1 && ZeroRun(ip.segments, start, len)
    ensures var s := PrintSegments(ip.segments[..start], 0) + "::" + PrintSegments(ip.segments[start + len..], 0) + rest;
            ReadV6(s) == Some((ip, rest)) && ReadV4(s).None?
  {
    hide ReadNumber, ReadV4, Digits, AllDigits, PrintSegments, ReadGroups;
    var head, tail := ip.segments[..start], ip.segments[start + len..];
    var headText, tailText := PrintSegments(head, 0), PrintSegments(tail, 0);
    var after := tailText + rest;
    Regroup(headText, "::", tailText, rest);
    DoubleColonStops(start, 8, after);
    SkipChar(':', after);
    ReadPrintedGroups(head, 0, 8, "::" + after);
    NothingFollows(tail, 7 - start, rest);
    ReadPrintedGroups(tail, 0, 7 - start, rest);
    assert ip.segments == head + Zeros(len) + tail;
    HeadIsNotV4(head, after);
  }

  lemma NothingFollows(tail: seq<Segment>, limit: nat, rest: string)
    requires ClosesV6(rest) && |tail| <= limit
    ensures ReadGroups(rest, |tail|, limit) == Groups([], false, rest)
  {
  }

  lemma HeadIsNotV4(head: seq<Segment>, after: string)
    ensures ReadV4(PrintSegments(head, 0) + ("::" + after)).None?
  {
    if head == [] {
      DoubleColonStops(0, 8, after);
      assert "" + ("::" + after) == "::" + after;
    } else {
      FirstSegmentIsNotV4(head, "::" + after);
    }
  }

  lemma DigitsOfFfff()
    ensures Digits(0xffff, 16) == "ffff"
  {
  }

  /** The mixed notation: a group, then an embedded IPv4 address that fills the last two groups. */
  lemma ReadMixedTail(hi: Segment, lo: Segment, rest: string)
    requires ClosesV6(rest)
    ensures ReadGroups("ffff" + (":" + (PrintV4(EmbeddedV4(hi, lo)) + rest)), 0, 7)
            == Groups([0xffff, hi, lo], true, rest)
  {
    hide ReadNumber, ReadV4, Digits, AllDigits;
    var v4 := PrintV4(EmbeddedV4(hi, lo)) + rest;
    ReadPrintedV4(EmbeddedV4(hi, lo), rest);
    SkipChar(':', v4);
    assert ReadGroups(":" + v4, 1, 7) == Groups([hi, lo], true, rest);
    DigitsOfFfff();
    ReadPrintedGroup(0xffff, 0, 7, ":" + v4);
    assert "" + ("ffff" + (":" + v4)) == "ffff" + (":" + v4);
  }

  lemma ReadPrintedMapped(ip: IpAddr, rest: string)
    requires ip.V6? && ClosesV6(rest) && IsMapped(ip.segments)
    ensures ReadV6(PrintV6(ip) + rest) == Some((ip, rest))
    ensures ReadV4(PrintV6(ip) + rest).None?
  {
    hide ReadNumber, ReadV4, Digits, AllDigits;
    var hi, lo := ip.segments[6], ip.segments[7];
    var v4 := PrintV4(EmbeddedV4(hi, lo));
    var tail := "ffff" + (":" + (v4 + rest));
    assert PrintV6(ip) + rest == "::" + tail by {
      assert "::ffff:" == "::" + ("ffff" + ":");
      assert "::ffff:" + v4 + rest == "::" + ("ffff" + (":" + (v4 + rest)));
    }
    DoubleColonStops(0, 8, tail);
    SkipChar(':', tail);
    ReadMixedTail(hi, lo, rest);
    var segments := ip.segments;
    assert segments[..6] == [0, 0, 0, 0, 0, 0xffff];
    assert forall i | 0 <= i < 6 :: segments[i] == segments[..6][i];
    assert segments == [] + Zeros(5) + [0xffff, hi, lo];
  }

  /** Every address survives being printed by the client and parsed by the DNS side. */
  lemma PrintParseIp(ip: IpAddr)
    ensures ParseIp(PrintIp(ip)) == Some(ip)
  {
    if ip.V4? {
      ReadPrintedV4(ip, "");
      assert PrintV4(ip) + "" == PrintV4(ip);
    } else {
      ReadPrintedV6(ip, "");
      assert PrintV6(ip) + "" == PrintV6(ip);
    }
  }

  /** No address starts with five hexadecimal digits: octets have three at most and groups four. */
  lemma FiveDigitsAreNoGroup(s: string)
    requires |s| >= 5 && AllDigits(s[..5], 16)
    ensures ParseIp(s).None?
  {
    assert forall i | 0 <= i < 5 :: IsDigit(s[..5][i], 16) && s[i] == s[..5][i];
    var n := RunLength(s, 10);
    assert n < 5 ==> s[n] != '.';
    assert ReadOctet(s).Some? ==> n <= 3 && ReadOctet(s).value.1 == s[n..];
    assert ReadV4(s).None? by {
      assert n < 5 ==> ReadOctets(s[n..], 1, 4).None?;
    }
    assert ReadNumber(s, 16, Some(4), true, 0x1_0000).None?;
    assert s[0] != ':';
    assert ReadGroups(s, 0, 8) == Groups([], false, s);
  }

  lemma OctetIsPrinted(s: string)
    requires ReadOctet(s).Some?
    ensures s == Digits(ReadOctet(s).value.0, 10) + ReadOctet(s).value.1
  {
    var n := RunLength(s, 10);
    DecimalIsPrinted(s[..n]);
    assert s == s[..n] + s[n..];
  }

  lemma CharIsRead(s: string, c: char)
    requires ReadChar(s, c).Some?
    ensures s == [c] + ReadChar(s, c).value
  {
  }

  lemma {:induction false} OctetsArePrinted(s: string, index: nat, limit: nat)
    requires index <= limit && ReadOctets(s, index, limit).Some?
    ensures var (octets, rest) := ReadOctets(s, index, limit).value;
            s == PrintOctets(octets, index) + rest
    decreases |s|
  {
    hide ReadOctet, Digits;
    if index < limit {
      var (octets, end) := ReadOctets(s, index, limit).value;
      var inner := PastSeparator(s, '.', index).value;
      var (octet, rest) := ReadOctet(inner).value;
      if index > 0 {
        CharIsRead(s, '.');
      }
      OctetIsPrinted(inner);
      OctetsArePrinted(rest, index + 1, limit);
      assert octets[1..] == ReadOctets(rest, index + 1, limit).value.0;
      hide ReadOctets;
      Regroup(if index > 0 then "." else "", Digits(octet, 10), PrintOctets(octets[1..], index + 1), end);
    }
  }

  /** An IPv4 address has one text only: four octets without leading zeros. */
  lemma V4HasOneText(s: string, ip: IpAddr)
    requires ip.V4?
    ensures ParseIp(s) == Some(ip) <==> s == PrintIp(ip)
  {
    PrintParseIp(ip);
    if ParseIp(s) == Some(ip) {
      OctetsArePrinted(s, 0, 4);
      assert s == PrintV4(ip) + "";
    }
  }

  /** Two addresses with the same text are the same address. */
  lemma PrintIpInjective(ip: IpAddr, other: IpAddr)
    ensures PrintIp(ip) == PrintIp(other) ==> ip == other
  {
    PrintParseIp(ip);
    PrintParseIp(other);
  }

  /** Every socket address survives printing and parsing, bracket, scope and port included. */
  lemma PrintParseSocket(socket: SocketAddr)
    requires socket.Valid()
    ensures ParseSocket(PrintSocket(socket)) == Some(socket)
  {
    if socket.SocketV4? {
      var port := Digits(socket.port4, 10);
      assert PrintSocket(socket) == PrintV4(socket.ip4) + (":" + port);
      ReadPrintedPort(socket.port4);
      ReadPrintedV4(socket.ip4, ":" + port);
    } else {
      PrintParseSocketV6(socket.ip6, socket.port6, socket.scope);
    }
  }

  lemma ReadPrintedPort(port: nat)
    requires port < 0x1_0000
    ensures ReadPort(":" + Digits(port, 10)) == Some((port, ""))
  {
    SkipChar(':', Digits(port, 10));
    ReadPrinted(port, 10, None, true, 0x1_0000, "");
    assert Digits(port, 10) + "" == Digits(port, 10);
  }

  lemma PrintParseSocketV6(ip: IpAddr, port: nat, scope: nat)
    requires SocketV6(ip, port, scope).Valid()
    ensures ParseSocket(PrintSocket(SocketV6(ip, port, scope))) == Some(SocketV6(ip, port, scope))
  {
    hide ReadNumber, ReadV4, ReadV6, PrintV6, Digits, AllDigits;
    var close := "]" + (":" + Digits(port, 10));
    ReadPrintedPort(port);
    SkipChar(']', ":" + Digits(port, 10));
    var scopeText := if scope == 0 then close else "%" + (Digits(scope, 10) + close);
    if scope != 0 {
      SkipChar('%', Digits(scope, 10) + close);
      ReadPrinted(scope, 10, None, true, 0x1_0000_0000, close);
    }
    assert PrintSocket(SocketV6(ip, port, scope)) == "[" + (PrintV6(ip) + scopeText) by {
      SocketTextRegroups(PrintV6(ip), Digits(port, 10), Digits(scope, 10), scope == 0);
    }
    SkipChar('[', PrintV6(ip) + scopeText);
    ReadPrintedV6(ip, scopeText);
  }

  lemma SocketTextRegroups(ip: string, port: string, scope: string, bare: bool)
    ensures "[" + ip + (if bare then "" else "%" + scope) + "]:" + port
            == "[" + (ip + (if bare then "]" + (":" + port) else "%" + (scope + ("]" + (":" + port)))))
  {
  }

  /** No text is both a socket address and a bare address, so trying the socket form first changes no address. */
  lemma SocketAndIpDisjoint(s: string)
    ensures ParseSocket(s).None? || ParseIp(s).None?
  {
    if ReadSocketV4(s).Some? {
      assert ReadV4(s).Some? && ReadV4(s).value.1 != "";
    } else if ReadSocketV6(s).Some? {
      assert s[0] == '[';
      assert ReadGroups(s, 0, 8) == Groups([], false, s);
    }
  }

  /** The upstream parser reads a printed socket address as itself and a printed address with the default port. */
  lemma UpstreamRoundTrip(ip: IpAddr, socket: SocketAddr, defaultPort: nat)
    requires socket.Valid()
    ensures ParseIpOptionalSocket(PrintSocket(socket), defaultPort) == Some(socket)
    ensures ParseIpOptionalSocket(PrintIp(ip), defaultPort)
            == Some(if ip.V4? then SocketV4(ip, defaultPort) else SocketV6(ip, defaultPort, 0))
  {
    PrintParseSocket(socket);
    PrintParseIp(ip);
    SocketAndIpDisjoint(PrintIp(ip));
  }

  /** The upstream parser accepts exactly the texts of one form or the other, with the value that form gives. */
  lemma UpstreamMeaning(s: string, defaultPort: nat)
    ensures ParseIp(s).Some? ==>
              var ip := ParseIp(s).value;
              ParseIpOptionalSocket(s, defaultPort)
              == Some(if ip.V4? then SocketV4(ip, defaultPort) else SocketV6(ip, defaultPort, 0))
    ensures ParseIp(s).None? ==> ParseIpOptionalSocket(s, defaultPort) == ParseSocket(s)
  {
    SocketAndIpDisjoint(s);
  }
}
