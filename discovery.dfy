/** The discovery pass (`discover_shelly_devices` after nmap has run):
    walk nmap's standard output line by line, parse every host report line
    and keep, in order, the hosts the cascade accepts. */
module Discovery {
  import opened Text
  import opened ScanLine
  import opened Classifier
  import opened Identifier

  /** `ShellyDevice`: a confirmed device, its address and the name nmap
      gave for it. */
  datatype ShellyDevice = ShellyDevice(ip: string, hostname: Option<string>)

  /** The result of a pass: the devices found, or `Aborted` when the parser
      panicked on a report line (which ends the program). */
  datatype Discovery = Found(devices: seq<ShellyDevice>) | Aborted

  predicate IsReportLine(line: string)
  {
    Contains(line, Marker)
  }

  /** A report line on which the parser panics. */
  predicate PanicsOn(line: string)
  {
    IsReportLine(line) && ExtractDeviceInfo(line).SlicePanic?
  }

  /** What one line adds to the list: its host, when it is a report line
      that parses to a host the cascade accepts; nothing otherwise. */
  function LineDevice(net: Network, line: string): (ds: seq<ShellyDevice>)
    ensures |ds| <= 1
    ensures forall d :: d in ds ==>
      IsReportLine(line) && ExtractDeviceInfo(line) == Host(d.ip, d.hostname) &&
      IsPotentialShellyDevice(net, d.ip)
  {
    if IsReportLine(line) then
      match ExtractDeviceInfo(line)
      case Host(ip, hostname) =>
        if IsPotentialShellyDevice(net, ip) then [ShellyDevice(ip, hostname)] else []
      case _ => []
    else []
  }

  /** What each line adds, as a function of the line. */
  function PerLine(net: Network): string -> seq<ShellyDevice>
  {
    line => LineDevice(net, line)
  }

  /** What `each` draws from the lines, in line order. */
  function Collect(each: string -> seq<ShellyDevice>, lines: seq<string>): seq<ShellyDevice>
  {
    if lines == [] then []
    else Collect(each, lines[..|lines| - 1]) + each(lines[|lines| - 1])
  }

  /** The devices the lines yield, in line order. */
  function AcceptedDevices(net: Network, lines: seq<string>): seq<ShellyDevice>
  {
    Collect(PerLine(net), lines)
  }

  /** The pass over nmap's output: aborted when some report line makes the
      parser panic, otherwise the accepted devices. */
  function Discover(net: Network, nmapOutput: string): (r: Discovery)
    ensures r.Aborted? <==>
      exists i :: 0 <= i < |Lines(nmapOutput)| && PanicsOn(Lines(nmapOutput)[i])
    ensures r.Found? ==> forall d :: d in r.devices ==> IsPotentialShellyDevice(net, d.ip)
  {
    var lines := Lines(nmapOutput);
    PanicFreeLines(lines);
    AllAccepted(net, lines);
    if PanicFree(lines) then Found(AcceptedDevices(net, lines)) else Aborted
  }

  /** Every device drawn from the lines has an address the cascade accepts. */
  lemma AllAccepted(net: Network, lines: seq<string>)
    ensures forall d :: d in AcceptedDevices(net, lines) ==> IsPotentialShellyDevice(net, d.ip)
  {
    forall d | d in AcceptedDevices(net, lines) ensures IsPotentialShellyDevice(net, d.ip) {
      CollectMembers(PerLine(net), lines, d);
    }
  }

  /** No line makes the parser panic. */
  predicate PanicFree(lines: seq<string>)
  {
    lines == [] || (PanicFree(lines[..|lines| - 1]) && !PanicsOn(lines[|lines| - 1]))
  }

  /** The pass aborts exactly when some line makes the parser panic. */
  lemma {:induction false} PanicFreeLines(lines: seq<string>)
    ensures PanicFree(lines) <==> forall i :: 0 <= i < |lines| ==> !PanicsOn(lines[i])
    decreases |lines|
  {
    if lines != [] {
      var init := lines[..|lines| - 1];
      PanicFreeLines(init);
      assert forall i :: 0 <= i < |init| ==> init[i] == lines[i];
    }
  }

  /** One more line: what `each` draws from `lines[..i + 1]` is what it
      draws from `lines[..i]` followed by what it draws from line `i`. */
  lemma NextLine(each: string -> seq<ShellyDevice>, lines: seq<string>, i: nat)
    requires i < |lines|
    ensures Collect(each, lines[..i + 1]) == Collect(each, lines[..i]) + each(lines[i])
  {
    assert lines[..i + 1][..i] == lines[..i];
  }

  /** One more line: `lines[..i + 1]` is panic-free when `lines[..i]` is
      and line `i` does not panic; equally, a panic on line `i` ends it. */
  lemma NextPanicFree(lines: seq<string>, i: nat)
    requires i < |lines|
    ensures PanicFree(lines[..i + 1]) <==> PanicFree(lines[..i]) && !PanicsOn(lines[i])
  {
    assert lines[..i + 1][..i] == lines[..i];
  }

  /** A prefix of panic-free lines is panic-free. */
  lemma {:induction false} PanicFreePrefix(lines: seq<string>, i: nat)
    requires i <= |lines| && !PanicFree(lines[..i])
    ensures !PanicFree(lines)
    decreases |lines| - i
  {
    if i < |lines| {
      NextPanicFree(lines, i);
      PanicFreePrefix(lines, i + 1);
    } else {
      assert lines[..i] == lines;
    }
  }

  /** One line handled without a panic: both loop facts hold one line on. */
  lemma Advance(net: Network, lines: seq<string>, i: nat, before: seq<ShellyDevice>, after: seq<ShellyDevice>)
    requires i < |lines| && PanicFree(lines[..i]) && !PanicsOn(lines[i])
    requires before == AcceptedDevices(net, lines[..i])
    requires after == before + LineDevice(net, lines[i])
    ensures PanicFree(lines[..i + 1])
    ensures after == AcceptedDevices(net, lines[..i + 1])
  {
    NextPanicFree(lines, i);
    NextLine(PerLine(net), lines, i);
  }

  /** `discover_shelly_devices` from the nmap output on: keep report lines,
      parse them, push each accepted host onto the list. */
  method DiscoverShellyDevices(nmapOutput: string, net: Network) returns (r: Discovery)
    ensures r == Discover(net, nmapOutput)
  {
    var lines := Lines(nmapOutput);
    var discovered: seq<ShellyDevice> := [];
    var i := 0;
    while i < |lines|
      invariant 0 <= i <= |lines|
      invariant PanicFree(lines[..i])
      invariant discovered == AcceptedDevices(net, lines[..i])
    {
      var line := lines[i];
      ghost var before := discovered;
      if Contains(line, Marker) {
        match ExtractDeviceInfo(line) {
          case SlicePanic =>
            NextPanicFree(lines, i);
            PanicFreePrefix(lines, i + 1);
            return Aborted;
          case Host(ip, hostname) =>
            if IsPotentialShellyDevice(net, ip) {
              discovered := discovered + [ShellyDevice(ip, hostname)];
            }
          case NoHost =>
        }
      }
      assert !PanicsOn(line) && discovered == before + LineDevice(net, line);
      Advance(net, lines, i, before, discovered);
      i := i + 1;
    }
    assert lines[..i] == lines;
    return Found(discovered);
  }

  // ---------------------------------------------------------------------
  // what the list holds

  /** Order is kept: what is drawn from two runs of lines is what is
      drawn from the first followed by what is drawn from the second.
      Nothing is deduplicated. */
  lemma {:induction false} CollectAppend(each: string -> seq<ShellyDevice>, a: seq<string>, b: seq<string>)
    ensures Collect(each, a + b) == Collect(each, a) + Collect(each, b)
    decreases |b|
  {
    if b == [] {
      assert a + b == a;
    } else {
      var b' := b[..|b| - 1];
      assert (a + b)[..|a + b| - 1] == a + b';
      CollectAppend(each, a, b');
    }
  }

  /** Something is drawn from the lines exactly when it is drawn from one of them. */
  lemma {:induction false} CollectMembers(each: string -> seq<ShellyDevice>, lines: seq<string>, d: ShellyDevice)
    ensures d in Collect(each, lines) <==> exists i :: 0 <= i < |lines| && d in each(lines[i])
    decreases |lines|
  {
    if lines != [] {
      var init := lines[..|lines| - 1];
      CollectMembers(each, init, d);
      assert forall i :: 0 <= i < |init| ==> init[i] == lines[i];
    }
  }

  /** A line from which nothing is drawn can be dropped wherever it stands. */
  lemma DropSilentLine(each: string -> seq<ShellyDevice>, a: seq<string>, line: string, b: seq<string>)
    requires each(line) == []
    ensures Collect(each, a + [line] + b) == Collect(each, a + b)
  {
    CollectAppend(each, a + [line], b);
    CollectAppend(each, a, [line]);
    CollectAppend(each, a, b);
    assert [line][..0] == [];
  }

  /** Lines that are not report lines contribute nothing wherever they stand. */
  lemma OtherLinesIgnored(net: Network, a: seq<string>, line: string, b: seq<string>)
    requires !IsReportLine(line)
    ensures AcceptedDevices(net, a + [line] + b) == AcceptedDevices(net, a + b)
  {
    DropSilentLine(PerLine(net), a, line, b);
  }

  /** `line` is a report line that parses to the address and name of `d`,
      and the cascade accepts that address. */
  predicate Yields(net: Network, line: string, d: ShellyDevice)
  {
    IsReportLine(line) && ExtractDeviceInfo(line) == Host(d.ip, d.hostname) &&
    IsPotentialShellyDevice(net, d.ip)
  }

  lemma LineDeviceMembers(net: Network, line: string, d: ShellyDevice)
    ensures d in LineDevice(net, line) <==> Yields(net, line, d)
  {
  }

  /** A device is found exactly when some line of the output is a report
      line that parses to it and the cascade accepts its address. */
  lemma FoundExactlyYielded(net: Network, lines: seq<string>, d: ShellyDevice)
    ensures d in AcceptedDevices(net, lines) <==>
      exists i :: 0 <= i < |lines| && Yields(net, lines[i], d)
  {
    var each := PerLine(net);
    CollectMembers(each, lines, d);
    forall i | 0 <= i < |lines|
      ensures d in each(lines[i]) <==> Yields(net, lines[i], d)
    {
      LineDeviceMembers(net, lines[i], d);
    }
  }

  /** No deduplication: a report line that appears twice yields its host twice. */
  lemma RepeatedLineTwice(net: Network, line: string, d: ShellyDevice)
    requires LineDevice(net, line) == [d]
    ensures AcceptedDevices(net, [line, line]) == [d, d]
  {
    var each := PerLine(net);
    assert Collect(each, [line]) == [d] by {
      assert [line][..0] == [];
    }
    assert [line, line] == [line] + [line];
    CollectAppend(each, [line], [line]);
  }

  // ---------------------------------------------------------------------
  // a pass over two hosts

  lemma ReportLineIsReport(ip: string, hostname: Option<string>)
    ensures IsReportLine(ReportLine(ip, hostname))
  {
    var line := ReportLine(ip, hostname);
    var rest := line[|Marker|..];
    assert line == [] + Marker + rest;
    assert OccursAt(Marker, Marker, 0);
    ContainsWithin([], Marker, rest, Marker);
  }

  /** A host nmap can report: an address and name the parser takes back
      out of its report line, neither holding whitespace. */
  predicate Reportable(d: ShellyDevice)
  {
    Recoverable(d.ip, d.hostname) && d.ip != [] && NoWhitespace(d.ip)
  }

  /** A report line is one line of output: it holds no line feed and does
      not end in a carriage return. */
  lemma ReportLineIsOneLine(d: ShellyDevice)
    requires Reportable(d)
    ensures '\n' !in ReportLine(d.ip, d.hostname)
    ensures ReportLine(d.ip, d.hostname)[|ReportLine(d.ip, d.hostname)| - 1] != '\r'
  {
    assert '\n' !in Marker;
  }

  /** The line a reportable host adds to the list: itself when the cascade
      accepts its address, nothing otherwise. */
  lemma LineDeviceOfReport(net: Network, d: ShellyDevice)
    requires Reportable(d)
    ensures LineDevice(net, ReportLine(d.ip, d.hostname)) ==
      if IsPotentialShellyDevice(net, d.ip) then [d] else []
  {
    ParseReportLine(d.ip, d.hostname);
    ReportLineIsReport(d.ip, d.hostname);
  }

  /** nmap's output for a run of hosts: one report line each. */
  function ReportLines(hosts: seq<ShellyDevice>): (ls: seq<string>)
    ensures |ls| == |hosts|
  {
    seq(|hosts|, i requires 0 <= i < |hosts| => ReportLine(hosts[i].ip, hosts[i].hostname))
  }

  /** The hosts the cascade accepts, in order. */
  function AcceptedHosts(net: Network, hosts: seq<ShellyDevice>): (ds: seq<ShellyDevice>)
    ensures forall d :: d in ds <==> d in hosts && IsPotentialShellyDevice(net, d.ip)
  {
    if hosts == [] then []
    else
      var last := hosts[|hosts| - 1];
      AcceptedHosts(net, hosts[..|hosts| - 1]) + (if IsPotentialShellyDevice(net, last.ip) then [last] else [])
  }

  lemma {:induction false} AcceptedOfReports(net: Network, hosts: seq<ShellyDevice>)
    requires forall i :: 0 <= i < |hosts| ==> Reportable(hosts[i])
    ensures AcceptedDevices(net, ReportLines(hosts)) == AcceptedHosts(net, hosts)
    decreases |hosts|
  {
    if hosts != [] {
      var init := hosts[..|hosts| - 1];
      assert ReportLines(hosts)[..|hosts| - 1] == ReportLines(init);
      AcceptedOfReports(net, init);
      LineDeviceOfReport(net, hosts[|hosts| - 1]);
    }
  }

  /** Over an output made of report lines of reportable hosts, the pass
      finds exactly the hosts the cascade accepts, in the order nmap
      listed them, and does not abort. */
  lemma DiscoverReported(net: Network, hosts: seq<ShellyDevice>)
    requires forall i :: 0 <= i < |hosts| ==> Reportable(hosts[i])
    ensures Discover(net, Terminated(ReportLines(hosts))) == Found(AcceptedHosts(net, hosts))
  {
    var ls := ReportLines(hosts);
    forall i | 0 <= i < |ls|
      ensures IsLine(ls[i])
      ensures !PanicsOn(ls[i])
    {
      ReportLineIsOneLine(hosts[i]);
      ParseReportLine(hosts[i].ip, hosts[i].hostname);
    }
    LinesOfTerminated(ls);
    PanicFreeLines(ls);
    AcceptedOfReports(net, hosts);
  }

  /** Two hosts answer `/shelly`: a camera whose page names its brand, and a
      Shelly device. Only the Shelly device is found. */
  lemma CameraAndShelly(net: Network, cam: ShellyDevice, plug: ShellyDevice)
    requires cam == ShellyDevice("10.0.0.2", Some("cam")) && plug == ShellyDevice("10.0.0.3", None)
    requires net(Url(cam.ip, ShellyPath)) == Resp(true, Some("hikvision"))
    requires net(Url(plug.ip, ShellyPath)) == Resp(true, Some("shelly"))
    ensures Discover(net, Terminated(ReportLines([cam, plug]))) == Found([plug])
  {
    assert NoWhitespace(cam.ip) && NoWhitespace("cam") && NoWhitespace(plug.ip);
    DiscoverReported(net, [cam, plug]);
    CameraPageRejected(net, cam.ip, "hikvision");
    ShellyPageAccepted(net, plug.ip, "shelly");
    SecondAccepted(net, cam, plug);
  }

  lemma CameraPageRejected(net: Network, ip: string, page: string)
    requires page == "hikvision" && net(Url(ip, ShellyPath)) == Resp(true, Some(page))
    ensures !IsPotentialShellyDevice(net, ip)
  {
    assert Classify(page, ShellyKeywords) == Reject by {
      assert ToLower(page) in Exclusions by {
        ExclusionsAreLower(page);
        ToLowerIsLower(page);
      }
      ExclusionDominates([], page, [], ShellyKeywords);
      assert [] + page + [] == page;
    }
  }

  lemma ShellyPageAccepted(net: Network, ip: string, page: string)
    requires page == "shelly" && net(Url(ip, ShellyPath)) == Resp(true, Some(page))
    ensures IsPotentialShellyDevice(net, ip)
  {
    ShellyPageExample(page);
  }

  lemma SecondAccepted(net: Network, a: ShellyDevice, b: ShellyDevice)
    requires !IsPotentialShellyDevice(net, a.ip) && IsPotentialShellyDevice(net, b.ip)
    ensures AcceptedHosts(net, [a, b]) == [b]
  {
    assert [a, b][..1] == [a];
    assert [a][..0] == [];
    assert AcceptedHosts(net, [a]) == [];
  }
}
