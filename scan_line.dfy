/** Parsing one report line of an nmap ping scan
    (`extract_device_info_from_nmap_line`). */
module ScanLine {
  import opened Text

  /** The text that marks a host report line in nmap's output. */
  const Marker: string := "Nmap scan report for"

  /** What the parser makes of one line. `SlicePanic` is the case in which
      the source slices `line[ip_start + 1..ip_end]` with the last ')'
      before the last '(': Rust panics there instead of returning. */
  datatype LineParse =
    | NoHost
    | Host(ip: string, hostname: Option<string>)
    | SlicePanic

  /** A hostname as the parser can return one: not empty, no space in it,
      no whitespace at either end. */
  predicate HostnameShape(h: string)
  {
    h != [] && ' ' !in h && !IsWhitespace(h[0]) && !IsWhitespace(h[|h| - 1])
  }

  /** The last '(' is followed by no ')' at all: there is a ')' only before it. */
  predicate CloseBeforeOpen(line: string)
  {
    ')' in line && exists i :: 0 <= i < |line| && line[i] == '(' && ')' !in line[i + 1..]
  }

  /** `extract_device_info_from_nmap_line`: with a '(' in the line, the
      address is what lies between the last '(' and the last ')' and the
      hostname is the last space-separated word before the '('; with no '(',
      the address is the last whitespace-separated word, kept only if it
      starts with an ASCII digit. */
  function ExtractDeviceInfo(line: string): (r: LineParse)
    ensures r.SlicePanic? <==> CloseBeforeOpen(line)
    ensures '(' in line && ')' !in line ==> r == NoHost
    ensures r.Host? && r.hostname.Some? ==>
      HostnameShape(r.hostname.value) && r.hostname.value != r.ip
    ensures r.Host? && '(' in line ==> '(' !in r.ip
    ensures r.Host? && '(' !in line ==>
      r.hostname == None && r.ip != [] && NoWhitespace(r.ip) && IsAsciiDigit(r.ip[0])
    ensures AllWhitespace(line) ==> r == NoHost
  {
    match FindLast(line, '(')
    case Some(ipStart) =>
      (match FindLast(line, ')')
       case Some(ipEnd) =>
         if ipEnd < ipStart + 1 then
           assert line[ipStart] == '(' && ')' !in line[ipStart + 1..];
           SlicePanic
         else
           OpenParenUnique(line, ipStart);
           ParenthesizedHost(line, ipStart, ipEnd)
       case None => NoHost)
    case None =>
      assert !CloseBeforeOpen(line);
      BareHost(line)
  }

  /** The host of a line whose last '(' is at `ipStart` and last ')' at `ipEnd`. */
  function ParenthesizedHost(line: string, ipStart: nat, ipEnd: nat): (r: LineParse)
    requires ipStart < ipEnd <= |line|
    ensures r.Host? && r.ip == line[ipStart + 1..ipEnd]
    ensures r.hostname.Some? ==> HostnameShape(r.hostname.value) && r.hostname.value != r.ip
    ensures '(' !in line[ipStart + 1..] ==> '(' !in r.ip
  {
    var ip := line[ipStart + 1..ipEnd];
    assert ip == line[ipStart + 1..][..ipEnd - ipStart - 1];
    Host(ip, HostnameOf(Trim(line[..ipStart]), ip))
  }

  /** The hostname taken from the trimmed text before the '(': the trimmed
      word after its last space, if that is not empty and not the address. */
  function HostnameOf(hostnamePart: string, ip: string): (h: Option<string>)
    ensures h.Some? ==> HostnameShape(h.value) && h.value != ip
  {
    match FindLast(hostnamePart, ' ')
    case Some(hostnameStart) => KeptHostname(Trim(hostnamePart[hostnameStart + 1..]), ip)
    case None => None
  }

  /** A trimmed word is kept as the hostname unless empty or equal to the address. */
  function KeptHostname(hostname: string, ip: string): (h: Option<string>)
    ensures h.Some? <==> hostname != [] && hostname != ip
    ensures h.Some? ==> h.value == hostname
  {
    if hostname != [] && hostname != ip then Some(hostname) else None
  }

  /** The host of a line without '(': its last whitespace-separated word,
      if that starts with an ASCII digit. */
  function BareHost(line: string): (r: LineParse)
    ensures r.Host? ==>
      r.hostname == None && r.ip != [] && NoWhitespace(r.ip) && IsAsciiDigit(r.ip[0])
    ensures AllWhitespace(line) ==> r == NoHost
    ensures !r.SlicePanic?
  {
    match LastWord(line)
    case Some(ipPart) => if IsAsciiDigit(ipPart[0]) then Host(ipPart, None) else NoHost
    case None => NoHost
  }

  /** Only the last '(' has no ')' after it when the last ')' comes after it. */
  lemma OpenParenUnique(line: string, ipStart: nat)
    requires ipStart < |line| && line[ipStart] == '(' && '(' !in line[ipStart + 1..]
    requires FindLast(line, ')').Some? && FindLast(line, ')').value > ipStart
    ensures !CloseBeforeOpen(line)
  {
    var ipEnd := FindLast(line, ')').value;
    forall j | ipStart < j < |line| ensures line[j] != '(' {
      assert line[j] == line[ipStart + 1..][j - ipStart - 1];
    }
    forall i | 0 <= i < |line| && line[i] == '('
      ensures ')' in line[i + 1..]
    {
      assert line[i + 1..][ipEnd - i - 1] == ')';
    }
  }

  // ---------------------------------------------------------------------
  // the three shapes of a line

  /** With a '(' whose ')' follows: the address is exactly the text strictly
      between the last '(' and the last ')', and the hostname comes from the
      trimmed text before that '('. */
  lemma {:induction false} ParenthesizedLine(line: string, open: nat, close: nat)
    requires open < close < |line|
    requires line[open] == '(' && '(' !in line[open + 1..]
    requires line[close] == ')' && ')' !in line[close + 1..]
    ensures var ip := line[open + 1..close];
      ExtractDeviceInfo(line) == Host(ip, HostnameOf(Trim(line[..open]), ip))
  {
    FindLastAt(line, '(', open);
    FindLastAt(line, ')', close);
  }

  /** No space in the text before the '(': no hostname. */
  lemma NoSpaceNoHostname(hostnamePart: string, ip: string)
    requires ' ' !in hostnamePart
    ensures HostnameOf(hostnamePart, ip) == None
  {
  }

  /** With a space in the trimmed text before the last '(': the hostname is
      the trimmed word after the last such space, unless it equals the
      address. That word is never empty, so the source's emptiness test
      never rejects it. */
  lemma HostnameAfterLastSpace(hostnamePart: string, sp: nat, ip: string)
    requires sp < |hostnamePart| && !IsWhitespace(hostnamePart[|hostnamePart| - 1])
    requires hostnamePart[sp] == ' ' && ' ' !in hostnamePart[sp + 1..]
    ensures var w := Trim(hostnamePart[sp + 1..]);
      && w != []
      && HostnameOf(hostnamePart, ip) == if w == ip then None else Some(w)
  {
    var tail := hostnamePart[sp + 1..];
    assert Trim(tail) != [] by {
      assert tail[|tail| - 1] == hostnamePart[|hostnamePart| - 1];
    }
    assert HostnameOf(hostnamePart, ip) == KeptHostname(Trim(tail), ip) by {
      FindLastAt(hostnamePart, ' ', sp);
    }
  }

  /** With no '(': the address is the last whitespace-separated word, kept
      when it begins with an ASCII digit; never a hostname. */
  lemma {:induction false} BareLine(line: string, p: string, w: string, q: string)
    requires '(' !in line && line == p + w + q
    requires w != [] && NoWhitespace(w) && AllWhitespace(q)
    requires p == [] || IsWhitespace(p[|p| - 1])
    ensures ExtractDeviceInfo(line) == if IsAsciiDigit(w[0]) then Host(w, None) else NoHost
  {
    LastWordPadded(p, w, q);
  }

  /** A line with no '(' and nothing but whitespace names no host. */
  lemma BlankLine(line: string)
    requires '(' !in line && AllWhitespace(line)
    ensures ExtractDeviceInfo(line) == NoHost
  {
  }

  // ---------------------------------------------------------------------
  // the lines nmap writes

  /** The report line nmap writes for a host: `for name (address)` when it
      resolved a name, `for address` otherwise. */
  function ReportLine(ip: string, hostname: Option<string>): string
  {
    match hostname
    case Some(h) => Marker + " " + h + " (" + ip + ")"
    case None => Marker + " " + ip
  }

  /** The addresses and names the parser can take back out of a report line. */
  predicate Recoverable(ip: string, hostname: Option<string>)
  {
    match hostname
    case Some(h) => '(' !in ip && h != [] && NoWhitespace(h) && h != ip
    case None => ip != [] && NoWhitespace(ip) && '(' !in ip && IsAsciiDigit(ip[0])
  }

  /** Parsing a report line gives back the address and the name it was written with. */
  lemma ParseReportLine(ip: string, hostname: Option<string>)
    requires Recoverable(ip, hostname)
    ensures ExtractDeviceInfo(ReportLine(ip, hostname)) == Host(ip, hostname)
  {
    match hostname
    case Some(h) => ParseNamedReport(ip, h);
    case None => ParseBareReport(ip);
  }

  lemma ParseNamedReport(ip: string, h: string)
    requires '(' !in ip && h != [] && NoWhitespace(h) && h != ip
    ensures ExtractDeviceInfo(Marker + " " + h + " (" + ip + ")") == Host(ip, Some(h))
  {
    ParseNamedAfter(Marker, h, ip);
  }

  /** The same, after any leading text whose ends are not whitespace. */
  lemma ParseNamedAfter(lead: string, h: string, ip: string)
    requires lead != [] && !IsWhitespace(lead[0]) && !IsWhitespace(lead[|lead| - 1])
    requires '(' !in ip && h != [] && NoWhitespace(h) && h != ip
    ensures ExtractDeviceInfo(lead + " " + h + " (" + ip + ")") == Host(ip, Some(h))
  {
    var trimmed := lead + " " + h;
    NamedLineSplits(trimmed, ip);
    HostnameAfterLead(lead, h, ip);
  }

  /** In `t (ip)` the address is `ip` and the hostname comes from `t`. */
  lemma NamedLineSplits(t: string, ip: string)
    requires '(' !in ip
    ensures ExtractDeviceInfo(t + " (" + ip + ")") == Host(ip, HostnameOf(Trim(t + " "), ip))
  {
    var line := t + " (" + ip + ")";
    var open := |t| + 1;
    var close := |line| - 1;
    assert line[open] == '(' && line[close] == ')';
    assert line[open + 1..] == ip + ")";
    assert '(' !in line[open + 1..];
    assert line[close + 1..] == [];
    assert line[open + 1..close] == ip;
    assert line[..open] == t + " ";
    ParenthesizedLine(line, open, close);
  }

  /** The hostname taken from `lead h ` is `h`. */
  lemma HostnameAfterLead(lead: string, h: string, ip: string)
    requires lead != [] && !IsWhitespace(lead[0]) && !IsWhitespace(lead[|lead| - 1])
    requires h != [] && NoWhitespace(h) && h != ip
    ensures HostnameOf(Trim(lead + " " + h + " "), ip) == Some(h)
  {
    var trimmed := lead + " " + h;
    assert trimmed + " " == [] + trimmed + " ";
    assert AllWhitespace(" ");
    TrimPadded([], trimmed, " ");
    HostnameOfLeadWord(lead, h, ip);
  }

  lemma HostnameOfLeadWord(lead: string, h: string, ip: string)
    requires lead != [] && h != [] && NoWhitespace(h) && h != ip
    ensures HostnameOf(lead + " " + h, ip) == Some(h)
  {
    var t := lead + " " + h;
    var sp := |lead|;
    assert t[sp + 1..] == h;
    assert t[sp] == ' ';
    assert ' ' !in h by { assert IsWhitespace(' '); }
    assert h == [] + h + [];
    TrimPadded([], h, []);
    HostnameAfterLastSpace(t, sp, ip);
  }

  lemma ParseBareReport(ip: string)
    requires ip != [] && NoWhitespace(ip) && '(' !in ip && IsAsciiDigit(ip[0])
    ensures ExtractDeviceInfo(Marker + " " + ip) == Host(ip, None)
  {
    var line := Marker + " " + ip;
    assert line == (Marker + " ") + ip + [];
    assert '(' !in Marker + " ";
    assert '(' !in line;
    BareLine(line, Marker + " ", ip, []);
  }

  /** The two shapes of report line, and a line without an address. */
  lemma NamedReportExample(line: string)
    requires line == "Nmap scan report for router (192.168.1.1)"
    ensures ExtractDeviceInfo(line) == Host("192.168.1.1", Some("router"))
  {
    var h, ip := "router", "192.168.1.1";
    assert line == Marker + " " + h + " (" + ip + ")";
    assert NoWhitespace(h);
    ParseNamedReport(ip, h);
  }

  lemma BareReportExample(line: string)
    requires line == "Nmap scan report for 10.0.0.5"
    ensures ExtractDeviceInfo(line) == Host("10.0.0.5", None)
  {
    var ip := "10.0.0.5";
    assert line == Marker + " " + ip;
    assert NoWhitespace(ip);
    ParseBareReport(ip);
  }

  lemma NamelessReportExample(line: string)
    requires line == "Nmap scan report for somehost"
    ensures ExtractDeviceInfo(line) == NoHost
  {
    var p, w := "Nmap scan report for ", "somehost";
    assert line == p + w + "";
    assert NoWhitespace(w);
    BareLine(line, p, w, "");
  }
}
