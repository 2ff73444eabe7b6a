/** `ServerAddr`: where a broker listens or connects, either a socket address (an IP
    literal with a port) or a domain name with a port, and its `host:port` text form.
    Parsing and printing IP literals belong to the standard library and are parameters
    here: `parseIp` stands for `str::parse::<IpAddr>`, `formatIp` for `IpAddr`'s
    `to_string`. */
module Config {
  import opened Wrappers

  /** `u16`. */
  type U16 = p: nat | p < 65536

  /** `std::net::IpAddr`: the family decides how a socket address is printed. */
  datatype IpAddr = V4(octets: seq<nat>) | V6(segments: seq<nat>)

  /** `std::net::SocketAddr`, as `SocketAddr::new(ip, port)` makes it. */
  datatype SocketAddress = SocketAddress(ip: IpAddr, port: U16)

  datatype ServerAddr = SocketAddr(addr: SocketAddress) | DomainName(domain: string, domainPort: U16)

  /** `ServerAddr::from_str`: an IP literal becomes a socket address, anything else is
      kept as a domain name. */
  function FromStr(host: string, port: U16, parseIp: string -> Option<IpAddr>): (a: ServerAddr)
    ensures a.SocketAddr? <==> parseIp(host).Some?
    ensures a.SocketAddr? ==> a.addr.ip == parseIp(host).value
  {
    match parseIp(host)
    case Some(ip) => SocketAddr(SocketAddress(ip, port))
    case None => DomainName(host, port)
  }

  /** `ServerAddr::host`: the IP literal's text, or the domain name as given. */
  function Host(a: ServerAddr, formatIp: IpAddr -> string): string
  {
    match a
    case SocketAddr(addr) => formatIp(addr.ip)
    case DomainName(domain, _) => domain
  }

  /** `ServerAddr::port`. */
  function Port(a: ServerAddr): U16
  {
    match a
    case SocketAddr(addr) => addr.port
    case DomainName(_, port) => port
  }

  predicate IsDigit(c: char)
  {
    '0' <= c <= '9'
  }

  function Digit(d: nat): (c: char)
    requires d < 10
    ensures IsDigit(c)
  {
    "0123456789"[d]
  }

  function DigitValue(c: char): nat
    requires IsDigit(c)
  {
    (c as int - '0' as int) as nat
  }

  /** Rust's `{}` for an unsigned integer: decimal digits, no sign, no leading zero. */
  function Decimal(n: nat): (s: string)
    ensures |s| >= 1 && (|s| > 1 ==> s[0] != '0')
    ensures forall i :: 0 <= i < |s| ==> IsDigit(s[i])
  {
    if n < 10 then [Digit(n)] else Decimal(n / 10) + [Digit(n % 10)]
  }

  /** Reads a string of decimal digits back as a number. */
  function ParseDecimal(s: string): nat
    requires forall i :: 0 <= i < |s| ==> IsDigit(s[i])
  {
    if s == [] then 0 else 10 * ParseDecimal(s[..|s| - 1]) + DigitValue(s[|s| - 1])
  }

  lemma {:induction false} DecimalRoundTrip(n: nat)
    ensures ParseDecimal(Decimal(n)) == n
  {
    var s := Decimal(n);
    if n >= 10 {
      assert s[..|s| - 1] == Decimal(n / 10);
      DecimalRoundTrip(n / 10);
    }
  }

  /** The host part as it appears in the text form: IPv6 literals are bracketed. */
  function HostText(a: ServerAddr, formatIp: IpAddr -> string): string
  {
    if a.SocketAddr? && a.addr.ip.V6? then "[" + Host(a, formatIp) + "]" else Host(a, formatIp)
  }

  /** `Display for ServerAddr`: `domain:port` for a domain name (a `write!` of the two);
      a socket address prints as `SocketAddr` does, `ip:port` or `[ip]:port`. */
  function Display(a: ServerAddr, formatIp: IpAddr -> string): (text: string)
    ensures text == HostText(a, formatIp) + ":" + Decimal(Port(a))
  {
    match a
    case SocketAddr(SocketAddress(V4(o), port)) => formatIp(V4(o)) + ":" + Decimal(port)
    case SocketAddr(SocketAddress(V6(s), port)) => "[" + formatIp(V6(s)) + "]:" + Decimal(port)
    case DomainName(domain, port) => domain + ":" + Decimal(port)
  }

  /** Index of the last `:` in `s`, or -1. */
  function LastColon(s: string): (i: int)
    ensures -1 <= i < |s|
    ensures i >= 0 ==> s[i] == ':'
    ensures forall j :: i < j < |s| ==> s[j] != ':'
  {
    if s == [] then -1 else if s[|s| - 1] == ':' then |s| - 1 else LastColon(s[..|s| - 1])
  }

  /** Reading the text form back: everything before the last `:` is the host part
      (bracketed for IPv6), everything after it is the port in decimal. */
  lemma DisplaySplits(a: ServerAddr, formatIp: IpAddr -> string)
    ensures var text := Display(a, formatIp);
      var i := LastColon(text);
      0 <= i && text[..i] == HostText(a, formatIp) &&
      (forall j :: i < j < |text| ==> IsDigit(text[j])) &&
      ParseDecimal(text[i + 1..]) == Port(a)
  {
    var text := Display(a, formatIp);
    var host := HostText(a, formatIp);
    var digits := Decimal(Port(a));
    assert text == host + ":" + digits;
    var i := LastColon(text);
    assert text[|host|] == ':';
    assert forall j :: |host| < j < |text| ==> text[j] == digits[j - |host| - 1];
    assert i == |host|;
    assert text[i + 1..] == digits;
    DecimalRoundTrip(Port(a));
  }

  /** `from_str` keeps the port; the host comes back as the IP literal's printed form or
      as the domain name given. */
  lemma FromStrHostPort(host: string, port: U16, parseIp: string -> Option<IpAddr>, formatIp: IpAddr -> string)
    ensures Port(FromStr(host, port, parseIp)) == port
    ensures parseIp(host).None? ==> Host(FromStr(host, port, parseIp), formatIp) == host
    ensures parseIp(host).Some? ==> Host(FromStr(host, port, parseIp), formatIp) == formatIp(parseIp(host).value)
  {
  }

  /** Printing what `from_str` built and splitting the text at its last `:` gives back
      the host as given when it is not an IP literal, the IP literal's printed form
      (bracketed for IPv6) when it is, and the port. */
  lemma FromStrDisplay(host: string, port: U16, parseIp: string -> Option<IpAddr>, formatIp: IpAddr -> string)
    ensures var text := Display(FromStr(host, port, parseIp), formatIp);
      var i := LastColon(text);
      0 <= i && (forall j :: i < j < |text| ==> IsDigit(text[j])) && ParseDecimal(text[i + 1..]) == port &&
      (parseIp(host).None? ==> text[..i] == host) &&
      (parseIp(host).Some? && parseIp(host).value.V4? ==> text[..i] == formatIp(parseIp(host).value)) &&
      (parseIp(host).Some? && parseIp(host).value.V6? ==> text[..i] == "[" + formatIp(parseIp(host).value) + "]")
  {
    DisplaySplits(FromStr(host, port, parseIp), formatIp);
  }
}
