/**
 * Model of the `Address` constructor (src/AsyncSocket.Core/Net/Address.cs), which parses
 * `protocol://ip_or_name:port` with the unanchored .NET regular expression
 * `(\w*)://(.+):(\d+)` and then interprets the three captured groups.
 *
 * The regular expression is modelled by its meaning: `MatchesAt` says which group
 * boundaries the pattern admits, `TriedBefore` is the order in which the backtracking
 * engine tries them (leftmost start, then greedy `\w*`, greedy `.+`, greedy `\d+`),
 * and `FirstMatch` computes the first admissible one. `IPAddress.TryParse` is a parameter.
 */
module Net {
  import opened Wrappers

  const Int32Max: int := 0x7FFF_FFFF

  /** The `Protocol` enum, by its underlying value; `Tcp` is its only named member. */
  datatype Protocol = Protocol(value: int)

  const Tcp: Protocol := Protocol(0)

  /** An IP address as `IPAddress.TryParse` produces it; its parsing is not modelled. */
  datatype IPAddress = IPAddress(bytes: seq<bv8>)

  /** `IPEndPoint(ip, port)` for an IP literal, `DnsEndPoint(name, port)` for a host name. */
  datatype EndPoint = IPEndPoint(address: IPAddress, port: int) | DnsEndPoint(host: string, port: int)

  /** The public, read-only results of a successful construction. */
  datatype Address = Address(originalAddress: string, protocol: Protocol, port: int, endPoint: EndPoint)

  /** The `ArgumentException`s the constructor raises, by message. */
  datatype AddressError =
    | BadFormat            // "Address must looks like tcp://<ip_or_name>:port"
    | ProtocolNotSupported // "Address protocol not supported"
    | IpOrNameInvalid      // "Address ip or name is invalid"
    | PortInvalid          // "Address port is invalid"

  /** `\w`, restricted to ASCII. */
  predicate IsWordChar(c: char)
  {
    ('a' <= c <= 'z') || ('A' <= c <= 'Z') || ('0' <= c <= '9') || c == '_'
  }

  /** `\d`, restricted to ASCII. */
  predicate IsDigit(c: char)
  {
    '0' <= c <= '9'
  }

  predicate AllDigits(d: string)
  {
    forall i :: 0 <= i < |d| ==> IsDigit(d[i])
  }

  // ---------------------------------------------------------------------------
  // The regular expression (\w*)://(.+):(\d+)

  /**
   * Group boundaries of one match: group 1 is `s[start..sep]`, the literal `://` sits at
   * `sep`, group 2 is `s[sep + 3..colon]`, the literal `:` sits at `colon` and group 3 is
   * `s[colon + 1..end]`.
   */
  datatype Groups = Groups(start: nat, sep: nat, colon: nat, end: nat)

  /** The pattern admits the boundaries `g` in `s` (`.` is any character but a newline). */
  predicate MatchesAt(s: string, g: Groups)
  {
    && g.start <= g.sep && g.sep + 3 < g.colon && g.colon + 1 < g.end <= |s|
    && (forall i :: g.start <= i < g.sep ==> IsWordChar(s[i]))
    && s[g.sep] == ':' && s[g.sep + 1] == '/' && s[g.sep + 2] == '/'
    && (forall i :: g.sep + 3 <= i < g.colon ==> s[i] != '\n')
    && s[g.colon] == ':'
    && (forall i :: g.colon + 1 <= i < g.end ==> IsDigit(s[i]))
  }

  /**
   * The backtracking engine tries `g` no later than `h`: it scans start positions from
   * the left, and at one start tries longer `\w*`, then longer `.+`, then longer `\d+` first.
   */
  predicate TriedBefore(g: Groups, h: Groups)
  {
    || g.start < h.start
    || (g.start == h.start && g.sep > h.sep)
    || (g.start == h.start && g.sep == h.sep && g.colon > h.colon)
    || (g.start == h.start && g.sep == h.sep && g.colon == h.colon && g.end >= h.end)
  }

  /** `g` is the match `Regex.Match` reports: admitted, and tried before every other one. */
  ghost predicate IsRegexMatch(s: string, g: Groups)
  {
    MatchesAt(s, g) && forall h :: MatchesAt(s, h) ==> TriedBefore(g, h)
  }

  /** End of the run of word characters starting at `i`. */
  function WordEnd(s: string, i: nat): (k: nat)
    requires i <= |s|
    ensures i <= k <= |s|
    ensures forall j :: i <= j < k ==> IsWordChar(s[j])
    ensures k == |s| || !IsWordChar(s[k])
    decreases |s| - i
  {
    if i < |s| && IsWordChar(s[i]) then WordEnd(s, i + 1) else i
  }

  /** End of the run of digits starting at `i`. */
  function DigitEnd(s: string, i: nat): (k: nat)
    requires i <= |s|
    ensures i <= k <= |s|
    ensures forall j :: i <= j < k ==> IsDigit(s[j])
    ensures k == |s| || !IsDigit(s[k])
    decreases |s| - i
  {
    if i < |s| && IsDigit(s[i]) then DigitEnd(s, i + 1) else i
  }

  /** The first newline at or after `i`, or `|s|`: how far `.+` can reach. */
  function LineEnd(s: string, i: nat): (k: nat)
    requires i <= |s|
    ensures i <= k <= |s|
    ensures forall j :: i <= j < k ==> s[j] != '\n'
    ensures k == |s| || s[k] == '\n'
    decreases |s| - i
  {
    if i < |s| && s[i] != '\n' then LineEnd(s, i + 1) else i
  }

  /** A `:` followed by a digit: where `.+` may stop and `:(\d+)` take over. */
  predicate PortColon(s: string, c: nat)
  {
    c + 1 < |s| && s[c] == ':' && IsDigit(s[c + 1])
  }

  /** The last port colon in `[lo, hi)`: greedy `.+` backs off from the right. */
  function LastPortColon(s: string, lo: nat, hi: nat): (r: Option<nat>)
    requires hi <= |s|
    ensures r.Some? ==> lo <= r.value < hi && PortColon(s, r.value)
    ensures r.Some? ==> forall c :: r.value < c < hi ==> !PortColon(s, c)
    ensures r.None? ==> forall c :: lo <= c < hi ==> !PortColon(s, c)
    decreases hi
  {
    if hi <= lo then None
    else if PortColon(s, hi - 1) then Some(hi - 1)
    else LastPortColon(s, lo, hi - 1)
  }

  /** The first match the engine finds when it starts at position `i`, if any. */
  function MatchAt(s: string, i: nat): (r: Option<Groups>)
    requires i <= |s|
    ensures r.Some? ==> MatchesAt(s, r.value) && r.value.start == i
  {
    var k := WordEnd(s, i);
    if k + 3 <= |s| && s[k] == ':' && s[k + 1] == '/' && s[k + 2] == '/' then
      match LastPortColon(s, k + 4, LineEnd(s, k + 3))
      case None => None
      case Some(c) => Some(Groups(i, k, c, DigitEnd(s, c + 1)))
    else None
  }

  /** `Regex.Match` scanning start positions from `i` on. */
  function FirstMatch(s: string, i: nat): (r: Option<Groups>)
    requires i <= |s|
    ensures r.Some? ==> MatchesAt(s, r.value) && i <= r.value.start
    decreases |s| - i
  {
    match MatchAt(s, i)
    case Some(g) => Some(g)
    case None => if i == |s| then None else FirstMatch(s, i + 1)
  }

  /** At a fixed start, `MatchAt` finds the boundaries the engine tries first, or none exist. */
  lemma MatchAtFirst(s: string, i: nat, h: Groups)
    requires i <= |s| && h.start == i && MatchesAt(s, h)
    ensures MatchAt(s, i).Some? && TriedBefore(MatchAt(s, i).value, h)
  {
    var k := WordEnd(s, i);
    SepIsWordEnd(s, h);
    var e := LineEnd(s, k + 3);
    ColonOnLine(s, h);
    var c := LastPortColon(s, k + 4, e);
    assert c.Some? && h.colon <= c.value;
    MatchAtUnfold(s, i, c.value);
    if c.value == h.colon {
      EndWithinDigits(s, h);
    }
  }

  /** How `MatchAt` assembles its groups once the `://` and a last port colon are found. */
  lemma MatchAtUnfold(s: string, i: nat, c: nat)
    requires i <= |s|
    requires WordEnd(s, i) + 3 <= |s|
    requires s[WordEnd(s, i)] == ':' && s[WordEnd(s, i) + 1] == '/' && s[WordEnd(s, i) + 2] == '/'
    requires LastPortColon(s, WordEnd(s, i) + 4, LineEnd(s, WordEnd(s, i) + 3)) == Some(c)
    ensures MatchAt(s, i) == Some(Groups(i, WordEnd(s, i), c, DigitEnd(s, c + 1)))
  {
  }

  /** `\w*` is greedy: any admitted `://` sits where the word run starting at `start` ends. */
  lemma SepIsWordEnd(s: string, h: Groups)
    requires MatchesAt(s, h)
    ensures WordEnd(s, h.start) == h.sep
  {
    assert !IsWordChar(s[h.sep]);
    WordEndMaximal(s, h.start, h.sep);
  }

  /** An admitted port colon lies on the line of its `://`, past the first host character. */
  lemma ColonOnLine(s: string, h: Groups)
    requires MatchesAt(s, h)
    ensures h.sep + 4 <= h.colon < LineEnd(s, h.sep + 3) && PortColon(s, h.colon)
  {
    LineEndMaximal(s, h.sep + 3, h.colon);
    assert s[h.colon] != '\n';
  }

  /** An admitted port run ends no later than the digit run after its colon. */
  lemma EndWithinDigits(s: string, h: Groups)
    requires MatchesAt(s, h)
    ensures h.end <= DigitEnd(s, h.colon + 1)
  {
    DigitEndMaximal(s, h.colon + 1, h.end);
  }

  lemma {:induction false} WordEndMaximal(s: string, i: nat, j: nat)
    requires i <= j <= |s| && forall x :: i <= x < j ==> IsWordChar(s[x])
    ensures j <= WordEnd(s, i)
    decreases j - i
  {
    if i < j {
      WordEndMaximal(s, i + 1, j);
    }
  }

  lemma {:induction false} DigitEndMaximal(s: string, i: nat, j: nat)
    requires i <= j <= |s| && forall x :: i <= x < j ==> IsDigit(s[x])
    ensures j <= DigitEnd(s, i)
    decreases j - i
  {
    if i < j {
      DigitEndMaximal(s, i + 1, j);
    }
  }

  lemma {:induction false} LineEndMaximal(s: string, i: nat, j: nat)
    requires i <= j <= |s| && forall x :: i <= x < j ==> s[x] != '\n'
    ensures j <= LineEnd(s, i)
    decreases j - i
  {
    if i < j {
      LineEndMaximal(s, i + 1, j);
    }
  }

  /** `FirstMatch` from `i` yields the engine's first match among starts `>= i`. */
  lemma {:induction false} FirstMatchFirst(s: string, i: nat)
    requires i <= |s|
    ensures FirstMatch(s, i).Some? ==>
      forall h :: MatchesAt(s, h) && i <= h.start ==> TriedBefore(FirstMatch(s, i).value, h)
    ensures FirstMatch(s, i).None? ==> forall h :: MatchesAt(s, h) ==> h.start < i
    decreases |s| - i
  {
    var m := MatchAt(s, i);
    if i < |s| {
      FirstMatchFirst(s, i + 1);
    }
    forall h | MatchesAt(s, h) && i <= h.start
      ensures FirstMatch(s, i).Some? && TriedBefore(FirstMatch(s, i).value, h)
    {
      if h.start == i {
        MatchAtFirst(s, i, h);
      } else if m.None? {
        assert FirstMatch(s, i) == FirstMatch(s, i + 1);
      }
    }
  }

  /** `Regex.Match(s)` as the constructor calls it. */
  function RegexMatch(s: string): (r: Option<Groups>)
    ensures r.Some? ==> MatchesAt(s, r.value)
  {
    FirstMatch(s, 0)
  }

  /** `RegexMatch` reports exactly the leftmost, greedy match, and fails exactly when none exists. */
  lemma RegexMatchSpec(s: string)
    ensures RegexMatch(s).Some? ==> IsRegexMatch(s, RegexMatch(s).value)
    ensures RegexMatch(s).None? <==> forall h :: !MatchesAt(s, h)
  {
    FirstMatchFirst(s, 0);
  }

  /** The engine's order leaves no ties: the reported match is determined by `s`. */
  lemma RegexMatchUnique(s: string, g: Groups, h: Groups)
    requires IsRegexMatch(s, g) && IsRegexMatch(s, h)
    ensures g == h
  {
    assert TriedBefore(g, h) && TriedBefore(h, g);
  }

  // ---------------------------------------------------------------------------
  // Interpreting the groups

  function ToLower(c: char): char
  {
    if 'A' <= c <= 'Z' then (c as int + 32) as char else c
  }

  predicate EqualsIgnoreCase(a: string, b: string)
  {
    |a| == |b| && forall i :: 0 <= i < |a| ==> ToLower(a[i]) == ToLower(b[i])
  }

  /** The value of a decimal numeral. */
  function DecimalValue(d: string): nat
    requires AllDigits(d)
  {
    if d == [] then 0
    else DecimalValue(d[..|d| - 1]) * 10 + (d[|d| - 1] as int - '0' as int)
  }

  /**
   * `Enum.TryParse<Protocol>(p, ignoreCase: true)` on a group of word characters: a
   * string that starts with a digit is read as the enum's underlying integer (any value
   * that fits an `int` is accepted), anything else must be a member name, compared
   * without regard to case.
   */
  function TryParseProtocol(p: string): (r: Option<Protocol>)
    ensures EqualsIgnoreCase(p, "tcp") ==> r == Some(Tcp)
    ensures r.Some? ==> EqualsIgnoreCase(p, "tcp") || (AllDigits(p) && p != [] && r.value.value == DecimalValue(p) <= Int32Max)
    ensures r.Some? && r.value != Tcp ==> p != [] && AllDigits(p)
    ensures p != [] && AllDigits(p) && DecimalValue(p) <= Int32Max ==> r == Some(Protocol(DecimalValue(p)))
    ensures p != [] && IsDigit(p[0]) && !(AllDigits(p) && DecimalValue(p) <= Int32Max) ==> r.None?
  {
    if |p| > 0 && IsDigit(p[0]) then
      if AllDigits(p) && DecimalValue(p) <= Int32Max then Some(Protocol(DecimalValue(p))) else None
    else if EqualsIgnoreCase(p, "Tcp") then Some(Tcp)
    else None
  }

  /** `int.TryParse` on a non-empty digit string: fails exactly on overflow. */
  function TryParseInt32(d: string): (r: Option<int>)
    requires AllDigits(d)
    ensures r.Some? <==> DecimalValue(d) <= Int32Max
    ensures r.Some? ==> r.value == DecimalValue(d)
  {
    if DecimalValue(d) <= Int32Max then Some(DecimalValue(d)) else None
  }

  function Pow10(n: nat): (p: nat)
    ensures p > 0
  {
    if n == 0 then 1 else 10 * Pow10(n - 1)
  }

  /** A numeral of `n` digits is below `10^n`. */
  lemma {:induction false} DecimalValueBound(d: string)
    requires AllDigits(d)
    ensures DecimalValue(d) < Pow10(|d|)
  {
    if d != [] {
      DecimalValueBound(d[..|d| - 1]);
    }
  }

  /** Every numeral of at most nine digits fits in an `int`, so `int.TryParse` accepts it. */
  lemma ShortNumeralParses(d: string)
    requires AllDigits(d) && |d| <= 9
    ensures TryParseInt32(d) == Some(DecimalValue(d))
  {
    DecimalValueBound(d);
    var n := |d|;
    while n < 9
      invariant |d| <= n <= 9 && Pow10(|d|) <= Pow10(n)
    {
      n := n + 1;
    }
    assert Pow10(9) == 1000000000;
  }

  /** Leading zeros do not change what `int.TryParse` reads. */
  lemma {:induction false} LeadingZeroIgnored(d: string)
    requires AllDigits(d)
    ensures AllDigits(['0'] + d) && TryParseInt32(['0'] + d) == TryParseInt32(d)
  {
    ZeroPrefixValue(d);
  }

  lemma {:induction false} ZeroPrefixValue(d: string)
    requires AllDigits(d)
    ensures AllDigits(['0'] + d) && DecimalValue(['0'] + d) == DecimalValue(d)
  {
    var z := ['0'] + d;
    assert forall i :: 0 <= i < |z| ==> IsDigit(z[i]);
    if d != [] {
      ZeroPrefixValue(d[..|d| - 1]);
      assert z[..|z| - 1] == ['0'] + d[..|d| - 1];
    }
  }

  /** Group 1, the protocol. */
  function ProtocolGroup(s: string, g: Groups): string
    requires MatchesAt(s, g)
  {
    s[g.start..g.sep]
  }

  /** Group 2, the IP literal or host name. */
  function HostGroup(s: string, g: Groups): string
    requires MatchesAt(s, g)
  {
    s[g.sep + 3..g.colon]
  }

  /** Group 3, the port digits. */
  function PortGroup(s: string, g: Groups): (d: string)
    requires MatchesAt(s, g)
    ensures AllDigits(d) && d != []
  {
    s[g.colon + 1..g.end]
  }

  /**
   * `new Address(address)`: the parsed address, or the `ArgumentException` raised, in the
   * order the constructor checks them (match, protocol, host, port).
   */
  function Parse(address: string, tryParseIp: string -> Option<IPAddress>): (r: Result<Address, AddressError>)
    ensures r.Success? ==> r.value.originalAddress == address
    ensures r.Success? ==> r.value.port == r.value.endPoint.port && 0 <= r.value.port <= Int32Max
  {
    match RegexMatch(address)
    case None => Failure(BadFormat)
    case Some(g) =>
      match TryParseProtocol(ProtocolGroup(address, g))
      case None => Failure(ProtocolNotSupported)
      case Some(protocol) =>
        var host := HostGroup(address, g);
        var ip := tryParseIp(host);
        if ip.None? && |host| == 0 then Failure(IpOrNameInvalid)
        else
          match TryParseInt32(PortGroup(address, g))
          case None => Failure(PortInvalid)
          case Some(port) =>
            var endPoint := if ip.Some? then IPEndPoint(ip.value, port) else DnsEndPoint(host, port);
            Success(Address(address, protocol, port, endPoint))
  }

  // ---------------------------------------------------------------------------
  // Properties of Parse

  /** A string the pattern matches nowhere is rejected by the group-count check, and only such a string is. */
  lemma ParseRejectsUnmatched(s: string, tryParseIp: string -> Option<IPAddress>)
    ensures Parse(s, tryParseIp) == Failure(BadFormat) <==> forall h :: !MatchesAt(s, h)
  {
    RegexMatchSpec(s);
  }

  /** The protocol group decides "protocol not supported"; on success it gives the protocol. */
  lemma ParseProtocol(s: string, tryParseIp: string -> Option<IPAddress>, g: Groups)
    requires IsRegexMatch(s, g)
    ensures Parse(s, tryParseIp) == Failure(ProtocolNotSupported) <==> TryParseProtocol(ProtocolGroup(s, g)).None?
    ensures Parse(s, tryParseIp).Success? ==> Parse(s, tryParseIp).value.protocol == TryParseProtocol(ProtocolGroup(s, g)).value
    ensures EqualsIgnoreCase(ProtocolGroup(s, g), "tcp") ==> Parse(s, tryParseIp).Failure? ==> Parse(s, tryParseIp).error == PortInvalid
  {
    RegexMatchSpec(s);
    RegexMatchUnique(s, g, RegexMatch(s).value);
  }

  /** The host group is never empty, so the "ip or name is invalid" branch cannot be taken. */
  lemma HostNeverEmpty(s: string, tryParseIp: string -> Option<IPAddress>)
    ensures Parse(s, tryParseIp) != Failure(IpOrNameInvalid)
  {
  }

  /**
   * The host is everything after `://` up to the last `:` on that line that is
   * followed by a digit (greedy `.+`), and it is never empty.
   */
  lemma HostIsGreedy(s: string, g: Groups)
    requires IsRegexMatch(s, g)
    ensures |HostGroup(s, g)| > 0
    ensures forall c :: g.colon < c < LineEnd(s, g.sep + 3) ==> !PortColon(s, c)
  {
    var e := LineEnd(s, g.sep + 3);
    forall c | g.colon < c < e && PortColon(s, c) ensures false {
      var h := Groups(g.start, g.sep, c, c + 2);
      assert MatchesAt(s, h);
    }
  }

  /** The end point is an `IPEndPoint` when the host is an IP literal, a `DnsEndPoint` on the name otherwise. */
  lemma ParseEndPoint(s: string, tryParseIp: string -> Option<IPAddress>, g: Groups)
    requires IsRegexMatch(s, g)
    requires Parse(s, tryParseIp).Success?
    ensures tryParseIp(HostGroup(s, g)).Some? ==>
      Parse(s, tryParseIp).value.endPoint == IPEndPoint(tryParseIp(HostGroup(s, g)).value, Parse(s, tryParseIp).value.port)
    ensures tryParseIp(HostGroup(s, g)).None? ==>
      Parse(s, tryParseIp).value.endPoint == DnsEndPoint(HostGroup(s, g), Parse(s, tryParseIp).value.port)
  {
    RegexMatchSpec(s);
    RegexMatchUnique(s, g, RegexMatch(s).value);
  }

  /** Past a successful protocol and a non-empty host, `Parse` is decided by the port group. */
  lemma ParseAtMatch(s: string, tryParseIp: string -> Option<IPAddress>, g: Groups)
    requires RegexMatch(s) == Some(g) && AllDigits(PortGroup(s, g)) && |HostGroup(s, g)| > 0
    requires TryParseProtocol(ProtocolGroup(s, g)).Some?
    ensures Parse(s, tryParseIp) == Failure(PortInvalid) <==> TryParseInt32(PortGroup(s, g)).None?
    ensures Parse(s, tryParseIp).Success? <==> TryParseInt32(PortGroup(s, g)).Some?
    ensures Parse(s, tryParseIp).Success? ==> Parse(s, tryParseIp).value.port == TryParseInt32(PortGroup(s, g)).value
  {
  }

  /**
   * The port is the maximal digit run after that `:` (what follows it is ignored), and
   * a run too large for an `int` raises "port is invalid".
   */
  lemma ParsePort(s: string, tryParseIp: string -> Option<IPAddress>, g: Groups)
    requires IsRegexMatch(s, g)
    requires TryParseProtocol(ProtocolGroup(s, g)).Some?
    ensures g.end == |s| || !IsDigit(s[g.end])
    ensures Parse(s, tryParseIp) == Failure(PortInvalid) <==> DecimalValue(PortGroup(s, g)) > Int32Max
    ensures Parse(s, tryParseIp).Success? ==> Parse(s, tryParseIp).value.port == DecimalValue(PortGroup(s, g))
  {
    RegexMatchSpec(s);
    RegexMatchUnique(s, g, RegexMatch(s).value);
    HostIsGreedy(s, g);
    PortRunMaximal(s, g);
    ParseAtMatch(s, tryParseIp, g);
  }

  /** Greedy `\d+`: the port group cannot be followed by another digit. */
  lemma PortRunMaximal(s: string, g: Groups)
    requires IsRegexMatch(s, g)
    ensures g.end == |s| || !IsDigit(s[g.end])
  {
    if g.end < |s| && IsDigit(s[g.end]) {
      var h := g.(end := g.end + 1);
      assert MatchesAt(s, h);
    }
  }
}
