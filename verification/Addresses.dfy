/** Control and Server addresses: `host[:port]` parsing and printing. */
module Addresses {
  import opened Prelude
  import opened Hostnames

  const DEFAULT_PORT: nat := 443
  const MAX_PORT: nat := 65535

  // ---------------------------------------------------------------------------------------------
  // Ports
  // ---------------------------------------------------------------------------------------------

  predicate IsDigit(c: char) {
    '0' <= c <= '9'
  }

  function Digit(n: nat): (c: char)
    requires n < 10
    ensures IsDigit(c) && c as int - '0' as int == n
  {
    '0' + n as char
  }

  function PrintNat(n: nat): (s: string)
    ensures s != [] && forall i :: 0 <= i < |s| ==> IsDigit(s[i])
  {
    if n < 10 then [Digit(n)] else PrintNat(n / 10) + [Digit(n % 10)]
  }

  function DigitsValue(s: string): nat
    requires forall i :: 0 <= i < |s| ==> IsDigit(s[i])
  {
    if s == [] then 0
    else
      assert IsDigit(s[|s| - 1]);
      10 * DigitsValue(s[..|s| - 1]) + (s[|s| - 1] as int - '0' as int)
  }

  predicate AllDigits(s: string) {
    forall i :: 0 <= i < |s| ==> IsDigit(s[i])
  }

  /** Unsigned parsing up to `max`: an optional plus sign, then digits; leading zeros are accepted. */
  function ParseUnsigned(s: string, max: nat): Option<nat> {
    var digits := if |s| > 1 && s[0] == '+' then s[1..] else s;
    if digits == [] || !AllDigits(digits) then None
    else if DigitsValue(digits) > max then None
    else Some(DigitsValue(digits))
  }

  lemma {:induction false} PrintedValue(n: nat)
    ensures DigitsValue(PrintNat(n)) == n
  {
    if n >= 10 {
      PrintedValue(n / 10);
      var s := PrintNat(n);
      assert s[..|s| - 1] == PrintNat(n / 10);
    }
  }

  lemma PortRoundTrip(port: nat)
    requires port <= MAX_PORT
    ensures ParseUnsigned(PrintNat(port), MAX_PORT) == Some(port)
  {
    PrintedValue(port);
    assert IsDigit(PrintNat(port)[0]);
  }

  /** Leading zeros and one leading plus sign change nothing, and anything but digits is refused. */
  lemma NumbersReadExactly(digits: string, max: nat)
    requires digits != [] && forall i :: 0 <= i < |digits| ==> '0' <= digits[i] <= '9'
    ensures ParseUnsigned("0" + digits, max) == ParseUnsigned(digits, max)
    ensures ParseUnsigned("+" + digits, max) == ParseUnsigned(digits, max)
    ensures forall s: string :: (exists i :: 0 <= i < |s| && !('0' <= s[i] <= '9') && (i > 0 || s[i] != '+')) ==> ParseUnsigned(s, max).None?
    ensures ParseUnsigned("", max).None? && ParseUnsigned("+", max).None?
  {
    LeadingZero(digits);
    assert ("+" + digits)[1..] == digits;
    forall s: string | exists i :: 0 <= i < |s| && !('0' <= s[i] <= '9') && (i > 0 || s[i] != '+')
      ensures ParseUnsigned(s, max).None?
    {
      var i :| 0 <= i < |s| && !('0' <= s[i] <= '9') && (i > 0 || s[i] != '+');
      NotANumber(s, i, max);
    }
    NotANumber("+", 0, max);
  }

  lemma NotANumber(s: string, i: nat, max: nat)
    requires i < |s| && !IsDigit(s[i]) && (i > 0 || s[i] != '+' || |s| == 1)
    ensures ParseUnsigned(s, max).None?
  {
    var digits := if |s| > 1 && s[0] == '+' then s[1..] else s;
    var j := if |s| > 1 && s[0] == '+' then i - 1 else i;
    assert digits[j] == s[i];
    assert !AllDigits(digits);
  }

  lemma {:induction false} LeadingZero(digits: string)
    requires forall i :: 0 <= i < |digits| ==> IsDigit(digits[i])
    ensures (forall i :: 0 <= i < |"0" + digits| ==> IsDigit(("0" + digits)[i])) && DigitsValue("0" + digits) == DigitsValue(digits)
  {
    var all := "0" + digits;
    if digits == [] {
      assert all == "0" && all[..0] == "";
    } else {
      var n := |digits| - 1;
      LeadingZero(digits[..n]);
      assert all[..|all| - 1] == "0" + digits[..n];
    }
  }

  // ---------------------------------------------------------------------------------------------
  // Splitting at the last colon
  // ---------------------------------------------------------------------------------------------

  /** The index of the last colon, or -1. */
  function LastColon(s: string): (i: int)
    ensures -1 <= i < |s|
    ensures i >= 0 ==> s[i] == ':'
    ensures forall k :: i < k < |s| ==> s[k] != ':'
  {
    if s == [] then -1
    else if s[|s| - 1] == ':' then |s| - 1
    else LastColon(s[..|s| - 1])
  }

  /** The text before the last colon and the port after it, the default port without a colon. */
  function SplitPort(value: string): Result<(string, nat), ()> {
    var i := LastColon(value);
    if i < 0 then Ok((value, DEFAULT_PORT))
    else
      match ParseUnsigned(value[i + 1..], MAX_PORT)
      case Some(port) => Ok((value[..i], port))
      case None => Err(())
  }

  predicate NoColon(s: string) {
    forall k :: 0 <= k < |s| ==> s[k] != ':'
  }

  lemma {:induction false} LastColonIs(host: string, digits: string)
    requires NoColon(digits)
    ensures LastColon(host + ":" + digits) == |host|
    decreases |digits|
  {
    var value, n := host + ":" + digits, |digits|;
    if n == 0 {
      assert value == host + ":";
    } else {
      assert value[..|value| - 1] == host + ":" + digits[..n - 1];
      assert value[|value| - 1] == digits[n - 1];
      LastColonIs(host, digits[..n - 1]);
    }
  }

  lemma SplitRendered(host: string, port: nat)
    requires NoColon(host) && port <= MAX_PORT
    ensures SplitPort(host + ":" + PrintNat(port)) == Ok((host, port))
    ensures SplitPort(host) == Ok((host, DEFAULT_PORT))
  {
    var digits := PrintNat(port);
    LastColonIs(host, digits);
    var value := host + ":" + digits;
    assert value[..|host|] == host && value[|host| + 1..] == digits;
    PortRoundTrip(port);
  }

  // ---------------------------------------------------------------------------------------------
  // Server addresses
  // ---------------------------------------------------------------------------------------------

  datatype AddressError = MissingHostname | InvalidPort | Scheme | Path | InvalidHostname(error: HostnameError)

  datatype ServerAddress = ServerAddress(hostname: string, port: nat)

  function ParseServer(isIp: string -> bool, value: string): Result<ServerAddress, AddressError> {
    match SplitPort(value)
    case Err(_) => Err(InvalidPort)
    case Ok((host, port)) =>
      if host == [] then Err(MissingHostname)
      else
        match Validate(isIp, host)
        case Err(error) => Err(InvalidHostname(error))
        case Ok(hostname) => Ok(ServerAddress(hostname, port))
  }

  /** The report key of a Server address, with the port always present. */
  function Render(a: ServerAddress): string {
    a.hostname + ":" + PrintNat(a.port)
  }

  /** What parsing guarantees about an address, and all that rendering relies on. */
  predicate Renderable(a: ServerAddress) {
    NoColon(a.hostname) && a.port <= MAX_PORT
  }

  lemma ParsedServer(isIp: string -> bool, value: string)
    requires ParseServer(isIp, value).Ok?
    ensures Renderable(ParseServer(isIp, value).value)
    ensures Canonical(isIp, ParseServer(isIp, value).value.hostname)
  {
    var host := SplitPort(value).value.0;
    ValidatesExactlyCanonical(isIp, host);
    CanonicalIsNormal(isIp, Normalize(host));
  }

  /** The host and port a text names: a port after the last colon, or 443 without one. */
  ghost predicate Names(value: string, host: string, port: nat) {
    || (NoColon(value) && host == value && port == 443)
    || exists digits: string :: NoColon(digits) && value == host + ":" + digits && ParseUnsigned(digits, 65535) == Some(port)
  }

  lemma SplitsExactly(value: string, host: string, port: nat)
    ensures SplitPort(value) == Ok((host, port)) <==> Names(value, host, port)
  {
    var i := LastColon(value);
    if i >= 0 {
      assert value == value[..i] + ":" + value[i + 1..];
      assert NoColon(value[i + 1..]);
      assert !NoColon(value);
    }
    if digits: string :| NoColon(digits) && value == host + ":" + digits && ParseUnsigned(digits, 65535) == Some(port) {
      LastColonIs(host, digits);
      assert value[..|host|] == host && value[|host| + 1..] == digits;
    }
  }

  /** A text parses to a Server address exactly when it names a host that validates to its hostname, and its port. */
  lemma ServerParsesExactly(isIp: string -> bool, value: string, a: ServerAddress)
    ensures ParseServer(isIp, value) == Ok(a) <==> Denotes(isIp, value, a.hostname, a.port)
  {
    hide Validate, SplitPort, Names;
    if ParseServer(isIp, value).Ok? {
      var host, port := SplitPort(value).value.0, SplitPort(value).value.1;
      SplitsExactly(value, host, port);
    }
    if host: string :| Names(value, host, a.port) && host != [] && Validate(isIp, host) == Ok(a.hostname) {
      SplitsExactly(value, host, a.port);
    }
  }

  /** How a Server address is refused: the port first, then a missing host, then the host. */
  lemma ServerRefusedExactly(isIp: string -> bool, value: string)
    ensures ParseServer(isIp, value) == Err(InvalidPort) <==> forall host, port: nat :: !Names(value, host, port)
    ensures ParseServer(isIp, value) == Err(MissingHostname) <==> exists port: nat :: Names(value, [], port)
    ensures forall error :: ParseServer(isIp, value) == Err(InvalidHostname(error)) <==>
      exists host: string, port: nat :: Names(value, host, port) && host != [] && Validate(isIp, host) == Err(error)
  {
    hide Validate;
    forall host: string, port: nat ensures SplitPort(value) == Ok((host, port)) <==> Names(value, host, port) {
      SplitsExactly(value, host, port);
    }
    if SplitPort(value).Ok? {
      assert Names(value, SplitPort(value).value.0, SplitPort(value).value.1);
    }
  }

  /** A parsed address renders to a key that parses back to it. */
  lemma ServerRoundTrip(isIp: string -> bool, value: string)
    requires ParseServer(isIp, value).Ok?
    ensures ParseServer(isIp, Render(ParseServer(isIp, value).value)) == ParseServer(isIp, value)
  {
    var a := ParseServer(isIp, value).value;
    ParsedServer(isIp, value);
    SplitRendered(a.hostname, a.port);
    ValidationIsIdempotent(isIp, SplitPort(value).value.0);
  }

  /** A report key is the hostname, a colon, and the port in decimal without leading zeros, also for port 443. */
  lemma KeysShowThePort(a: ServerAddress)
    requires a.port <= 65535
    ensures
      var key, n := Render(a), |a.hostname|;
      && n + 1 < |key| && key[..n] == a.hostname && key[n] == ':'
      && ParseUnsigned(key[n + 1..], 65535) == Some(a.port) && (key[n + 1] == '0' ==> a.port == 0)
  {
    PortRoundTrip(a.port);
    NoLeadingZero(a.port);
    var key, n := Render(a), |a.hostname|;
    assert key[n + 1..] == PrintNat(a.port) && key[n + 1] == PrintNat(a.port)[0];
  }

  lemma {:induction false} NoLeadingZero(n: nat)
    ensures PrintNat(n)[0] == '0' ==> n == 0
  {
    if n >= 10 { NoLeadingZero(n / 10); }
  }

  /** Distinct addresses have distinct report keys. */
  lemma RenderIsInjective(a: ServerAddress, b: ServerAddress)
    requires Renderable(a) && Renderable(b)
    ensures Render(a) == Render(b) <==> a == b
  {
    SplitRendered(a.hostname, a.port);
    SplitRendered(b.hostname, b.port);
  }

  // ---------------------------------------------------------------------------------------------
  // Control addresses
  // ---------------------------------------------------------------------------------------------

  datatype ControlAddress = ControlAddress(hostname: string, port: nat)

  predicate HasScheme(value: string) {
    exists i :: 0 <= i && i + 2 < |value| && value[i] == ':' && value[i + 1] == '/' && value[i + 2] == '/'
  }

  function ParseControl(isIp: string -> bool, value: string): Result<ControlAddress, AddressError> {
    if HasScheme(value) then Err(Scheme)
    else if '/' in value then Err(Path)
    else
      match SplitPort(value)
      case Err(_) => Err(InvalidPort)
      case Ok((host, port)) =>
        if host == [] then Err(MissingHostname)
        else
          match Validate(isIp, host)
          case Err(error) => Err(InvalidHostname(error))
          case Ok(hostname) => if port == 0 then Err(InvalidPort) else Ok(ControlAddress(hostname, port))
  }

  function PrintControl(a: ControlAddress): string {
    if a.port == DEFAULT_PORT then a.hostname else a.hostname + ":" + PrintNat(a.port)
  }

  /** Printing a parsed Control address and parsing it again returns the same address; the default port is elided. */
  lemma ControlRoundTrip(isIp: string -> bool, value: string)
    requires ParseControl(isIp, value).Ok?
    ensures
      var a := ParseControl(isIp, value).value;
      && ParseControl(isIp, PrintControl(a)) == Ok(a)
      && (NoColon(PrintControl(a)) <==> a.port == 443)
      && 1 <= a.port <= 65535
  {
    var a := ParseControl(isIp, value).value;
    var host := SplitPort(value).value.0;
    ValidatesExactlyCanonical(isIp, host);
    CanonicalIsNormal(isIp, a.hostname);
    ValidationIsIdempotent(isIp, host);
    SplitRendered(a.hostname, a.port);
    PrintedChars(a);
  }

  /** A printed address has no slash, and a colon exactly when it shows a port. */
  lemma PrintedChars(a: ControlAddress)
    requires forall k :: 0 <= k < |a.hostname| ==> LabelChar(a.hostname[k]) || a.hostname[k] == '.'
    ensures '/' !in PrintControl(a)
    ensures NoColon(PrintControl(a)) <==> a.port == DEFAULT_PORT
  {
    var printed, digits := PrintControl(a), PrintNat(a.port);
    if a.port != DEFAULT_PORT {
      assert printed[|a.hostname|] == ':';
      forall k | 0 <= k < |printed| ensures printed[k] != '/' {
        if k > |a.hostname| { assert printed[k] == digits[k - |a.hostname| - 1]; }
      }
    }
  }

  /** A text names a host that validates to this hostname, and this port. */
  ghost predicate Denotes(isIp: string -> bool, value: string, hostname: string, port: nat) {
    exists host: string :: Names(value, host, port) && host != [] && Validate(isIp, host) == Ok(hostname)
  }

  /** A text parses to a Control address exactly when it has no slash and denotes it, with a port other than 0. */
  lemma ControlParsesExactly(isIp: string -> bool, value: string, a: ControlAddress)
    ensures ParseControl(isIp, value) == Ok(a) <==> '/' !in value && a.port != 0 && Denotes(isIp, value, a.hostname, a.port)
  {
    hide Validate, HasScheme, SplitPort, Names;
    SchemeIs(value);
    if ParseControl(isIp, value).Ok? {
      SplitsExactly(value, SplitPort(value).value.0, SplitPort(value).value.1);
    }
    if host: string :| Names(value, host, a.port) && host != [] && Validate(isIp, host) == Ok(a.hostname) {
      SplitsExactly(value, host, a.port);
    }
  }

  /**
   * How a Control address is refused: a scheme before a path, and both before anything else; then a
   * missing host, then the host, and a port that is none or 0.
   */
  lemma ControlRefusesExactly(isIp: string -> bool, value: string)
    ensures ParseControl(isIp, value) == Err(Scheme) <==> exists before: string, after: string :: value == before + "://" + after
    ensures ParseControl(isIp, value) == Err(Path) <==>
      '/' in value && !exists before: string, after: string :: value == before + "://" + after
    ensures ParseControl(isIp, value) == Err(MissingHostname) <==> '/' !in value && exists port: nat :: Names(value, [], port)
    ensures forall error :: ParseControl(isIp, value) == Err(InvalidHostname(error)) <==>
      '/' !in value && ParseServer(isIp, value) == Err(InvalidHostname(error))
  {
    SchemeIs(value);
    ServerRefusedExactly(isIp, value);
    hide Validate, HasScheme, SplitPort, Names;
  }

  lemma SchemeIs(value: string)
    ensures HasScheme(value) <==> exists before: string, after: string :: value == before + "://" + after
    ensures HasScheme(value) ==> '/' in value
  {
    if HasScheme(value) {
      var i :| 0 <= i && i + 2 < |value| && value[i] == ':' && value[i + 1] == '/' && value[i + 2] == '/';
      assert value == value[..i] + "://" + value[i + 3..];
    }
    if before: string, after: string :| value == before + "://" + after {
      var i := |before|;
      assert value[i] == ':' && value[i + 1] == '/' && value[i + 2] == '/';
    }
  }
}
