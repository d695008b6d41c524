/** Deciding whether a host is a Shelly device from the answers it gives
    to a cascade of HTTP probes (`is_potential_shelly_device` and
    `check_shelly_endpoints`). The HTTP client is replaced by a `Network`:
    what a GET of each URL comes back with. */
module Identifier {
  import opened Text
  import opened Classifier

  /** The outcome of one GET. `TransportFail` is an error from `send()`:
      no connection, a timeout, a refused connection. `Resp` is an answer;
      `statusOk` is whether its status is a success, `body` its text, or
      None when reading the body failed. */
  datatype Probe = TransportFail | Resp(statusOk: bool, body: Option<string>)

  /** The answer a host network gives to a GET of each URL. */
  type Network = string -> Probe

  function Url(ip: string, path: string): string
  {
    "http://" + ip + path
  }

  const ShellyPath: string := "/shelly"
  const StatusPath: string := "/status"

  /** The confirmation endpoints, in the order they are tried. */
  const Endpoints: seq<string> := ["/settings", "/ota", "/meter/0"]

  // ---------------------------------------------------------------------
  // the confirmation sweep

  /** What the sweep makes of one answer: only a successful answer with a
      readable body is classified; every other answer is passed over. */
  function SweepVerdict(p: Probe): (v: Verdict)
    ensures v != Inconclusive ==> p.Resp? && p.statusOk && p.body.Some?
  {
    if p.Resp? && p.statusOk && p.body.Some? then Classify(p.body.value, SweepKeywords)
    else Inconclusive
  }

  /** The sweep's verdict on each of `paths`, in order. */
  function Verdicts(net: Network, ip: string, paths: seq<string>): (vs: seq<Verdict>)
    ensures |vs| == |paths|
  {
    seq(|paths|, i requires 0 <= i < |paths| => SweepVerdict(net(Url(ip, paths[i]))))
  }

  /** The sweep over `paths`: the first decisive answer decides, and with
      no decisive answer the host is not a Shelly device. */
  function SweepOver(net: Network, ip: string, paths: seq<string>): (b: bool)
    ensures b ==> exists i :: 0 <= i < |paths| && SweepVerdict(net(Url(ip, paths[i]))) == Accept
    decreases |paths|
  {
    if paths == [] then false
    else
      match SweepVerdict(net(Url(ip, paths[0])))
      case Reject => false
      case Accept => true
      case Inconclusive =>
        var b := SweepOver(net, ip, paths[1..]);
        assert b ==> exists i :: 0 <= i < |paths| && SweepVerdict(net(Url(ip, paths[i]))) == Accept by {
          if b {
            var i :| 0 <= i < |paths[1..]| && SweepVerdict(net(Url(ip, paths[1..][i]))) == Accept;
            assert paths[1..][i] == paths[i + 1];
          }
        }
        b
  }

  /** The sweep of `check_shelly_endpoints`: it accepts only on an endpoint
      that answered successfully with a readable body the sweep words accept. */
  function ConfirmSweep(net: Network, ip: string): (b: bool)
    ensures b ==> exists i :: (0 <= i < |Endpoints| &&
      var p := net(Url(ip, Endpoints[i]));
      p.Resp? && p.statusOk && p.body.Some? && Classify(p.body.value, SweepKeywords) == Accept)
  {
    SweepOver(net, ip, Endpoints)
  }

  /** The URLs the sweep over `paths` requests, in order: up to and
      including the first decisive one, so at most one per endpoint, and
      the first endpoint always. */
  function SweepRequests(net: Network, ip: string, paths: seq<string>): (urls: seq<string>)
    ensures |urls| <= |paths|
    ensures paths != [] ==> urls != [] && urls[0] == Url(ip, paths[0])
    decreases |paths|
  {
    if paths == [] then []
    else
      [Url(ip, paths[0])] +
      (if SweepVerdict(net(Url(ip, paths[0]))) == Inconclusive
       then SweepRequests(net, ip, paths[1..]) else [])
  }

  /** The sweep requests the endpoints in order and stops right after the
      first decisive answer: every request but the last was passed over,
      and a sweep that stops early stops on a decisive answer. */
  lemma {:induction false} SweepRequestsInOrder(net: Network, ip: string, paths: seq<string>)
    ensures var urls := SweepRequests(net, ip, paths);
      && (forall k :: 0 <= k < |urls| ==> urls[k] == Url(ip, paths[k]))
      && (forall k :: 0 <= k < |urls| - 1 ==> SweepVerdict(net(urls[k])) == Inconclusive)
      && (urls != [] && |urls| < |paths| ==> SweepVerdict(net(urls[|urls| - 1])) != Inconclusive)
    decreases |paths|
  {
    if paths != [] && SweepVerdict(net(Url(ip, paths[0]))) == Inconclusive {
      var tail := paths[1..];
      SweepRequestsInOrder(net, ip, tail);
      var rest := SweepRequests(net, ip, tail);
      assert SweepRequests(net, ip, paths) == [Url(ip, paths[0])] + rest;
      assert forall k :: 0 <= k < |rest| ==> rest[k] == Url(ip, paths[k + 1]) by {
        forall k | 0 <= k < |rest| ensures rest[k] == Url(ip, paths[k + 1]) {
          assert tail[k] == paths[k + 1];
        }
      }
    }
  }

  /** Some verdict accepts, and every verdict before it passed over. */
  predicate FirstDecisiveAccepts(vs: seq<Verdict>)
  {
    exists i: nat :: (i < |vs| && vs[i] == Accept &&
      forall j: nat :: j < i ==> vs[j] == Inconclusive)
  }

  /** First decisive wins: the sweep accepts exactly when its first
      decisive answer accepts. */
  lemma {:induction false} SweepOverFirstDecisive(net: Network, ip: string, paths: seq<string>)
    ensures SweepOver(net, ip, paths) <==> FirstDecisiveAccepts(Verdicts(net, ip, paths))
    decreases |paths|
  {
    if paths != [] {
      var vs := Verdicts(net, ip, paths);
      assert vs[1..] == Verdicts(net, ip, paths[1..]);
      if vs[0] == Inconclusive {
        SweepOverFirstDecisive(net, ip, paths[1..]);
        PassedOver(vs);
      } else {
        assert vs[0] == SweepVerdict(net(Url(ip, paths[0])));
      }
    }
  }

  /** A verdict that passes over leaves the decision to the ones after it. */
  lemma PassedOver(vs: seq<Verdict>)
    requires vs != [] && vs[0] == Inconclusive
    ensures FirstDecisiveAccepts(vs) <==> FirstDecisiveAccepts(vs[1..])
  {
    var tail := vs[1..];
    if FirstDecisiveAccepts(tail) {
      var i: nat :| i < |tail| && tail[i] == Accept && forall j: nat :: j < i ==> tail[j] == Inconclusive;
      assert forall j: nat :: j < i + 1 ==> vs[j] == Inconclusive by {
        forall j: nat | j < i + 1 ensures vs[j] == Inconclusive {
          if j > 0 { assert tail[j - 1] == Inconclusive; }
        }
      }
      assert vs[i + 1] == Accept;
    }
    if FirstDecisiveAccepts(vs) {
      var i: nat :| i < |vs| && vs[i] == Accept && forall j: nat :: j < i ==> vs[j] == Inconclusive;
      assert i > 0;
      assert forall j: nat :: j < i - 1 ==> tail[j] == Inconclusive by {
        forall j: nat | j < i - 1 ensures tail[j] == Inconclusive {
          assert vs[j + 1] == Inconclusive;
        }
      }
      assert tail[i - 1] == Accept;
    }
  }

  /** An accepting sweep requested the endpoint whose answer accepted. */
  lemma {:induction false} SweepAcceptRequested(net: Network, ip: string, paths: seq<string>)
    requires SweepOver(net, ip, paths)
    ensures exists i: nat :: (i < |paths| && Verdicts(net, ip, paths)[i] == Accept &&
      Url(ip, paths[i]) in SweepRequests(net, ip, paths))
    decreases |paths|
  {
    if SweepVerdict(net(Url(ip, paths[0]))) == Accept {
      assert Verdicts(net, ip, paths)[0] == Accept;
    } else {
      var tail := paths[1..];
      SweepAcceptRequested(net, ip, tail);
      var i: nat :| i < |tail| && Verdicts(net, ip, tail)[i] == Accept &&
        Url(ip, tail[i]) in SweepRequests(net, ip, tail);
      assert Verdicts(net, ip, paths)[i + 1] == Accept;
    }
  }

  /** The sweep's verdict and requests depend on the answers to the URLs it requested and on nothing else. */
  lemma {:induction false} SweepDependsOnRequested(net1: Network, net2: Network, ip: string, paths: seq<string>)
    requires forall u :: u in SweepRequests(net1, ip, paths) ==> net1(u) == net2(u)
    ensures SweepOver(net1, ip, paths) == SweepOver(net2, ip, paths)
    ensures SweepRequests(net1, ip, paths) == SweepRequests(net2, ip, paths)
    decreases |paths|
  {
    if paths != [] {
      var u := Url(ip, paths[0]);
      assert u in SweepRequests(net1, ip, paths);
      if SweepVerdict(net1(u)) == Inconclusive {
        SweepDependsOnRequested(net1, net2, ip, paths[1..]);
      }
    }
  }

  /** Fail-closed: when no endpoint answers successfully with a readable
      body, the sweep does not accept. */
  lemma SweepFailClosed(net: Network, ip: string)
    requires forall i :: 0 <= i < |Endpoints| ==>
      var p := net(Url(ip, Endpoints[i])); !(p.Resp? && p.statusOk && p.body.Some?)
    ensures !ConfirmSweep(net, ip)
  {
    SweepOverFirstDecisive(net, ip, Endpoints);
    forall i: nat | i < |Endpoints| ensures Verdicts(net, ip, Endpoints)[i] == Inconclusive {
    }
  }

  /** `check_shelly_endpoints`: try each endpoint in turn and return at the
      first successful, readable answer that rejects or accepts. */
  method CheckShellyEndpoints(net: Network, ip: string) returns (found: bool)
    ensures found == ConfirmSweep(net, ip)
    ensures found <==> FirstDecisiveAccepts(Verdicts(net, ip, Endpoints))
  {
    SweepOverFirstDecisive(net, ip, Endpoints);
    var i := 0;
    while i < |Endpoints|
      invariant 0 <= i <= |Endpoints|
      invariant ConfirmSweep(net, ip) == SweepOver(net, ip, Endpoints[i..])
    {
      var response := net(Url(ip, Endpoints[i]));
      assert Endpoints[i..][0] == Endpoints[i] && Endpoints[i..][1..] == Endpoints[i + 1..];
      if response.Resp? && response.statusOk && response.body.Some? {
        var verdict := Classify(response.body.value, SweepKeywords);
        if verdict == Reject {
          return false;
        }
        if verdict == Accept {
          return true;
        }
      }
      i := i + 1;
    }
    return false;
  }

  // ---------------------------------------------------------------------
  // the cascade

  /** `is_potential_shelly_device`. An answer from `/shelly` decides alone:
      accepted exactly when its body is readable and passes the `/shelly`
      words. Only when `/shelly` cannot be reached is `/status` asked: no
      answer rejects, a readable body decides by the `/status` words
      whatever the status code, and an unreadable body hands over to the
      sweep. */
  function IsPotentialShellyDevice(net: Network, ip: string): (b: bool)
    ensures b ==> net(Url(ip, ShellyPath)).Resp? || net(Url(ip, StatusPath)).Resp?
    ensures net(Url(ip, ShellyPath)).Resp? && net(Url(ip, ShellyPath)).body.None? ==> !b
  {
    match net(Url(ip, ShellyPath))
    case Resp(_, body) =>
      body.Some? && Classify(body.value, ShellyKeywords) == Accept
    case TransportFail =>
      match net(Url(ip, StatusPath))
      case Resp(_, body) =>
        if body.Some? then Classify(body.value, StatusKeywords) == Accept
        else ConfirmSweep(net, ip)
      case TransportFail => false
  }

  /** The URLs the cascade requests, in order. */
  function ProbesIssued(net: Network, ip: string): (urls: seq<string>)
    ensures 1 <= |urls| <= 2 + |Endpoints|
    ensures urls[0] == Url(ip, ShellyPath)
  {
    var shelly := Url(ip, ShellyPath);
    var status := Url(ip, StatusPath);
    if net(shelly).Resp? then [shelly]
    else if net(status).TransportFail? || net(status).body.Some? then [shelly, status]
    else [shelly, status] + SweepRequests(net, ip, Endpoints)
  }

  /** A reachable `/shelly` decides alone: accepted exactly when its body is
      readable, holds no excluded word and holds "shelly"; nothing else is
      requested. */
  lemma ShellyAnswerDecides(net: Network, ip: string)
    requires net(Url(ip, ShellyPath)).Resp?
    ensures var body := net(Url(ip, ShellyPath)).body;
      IsPotentialShellyDevice(net, ip) <==>
        && body.Some?
        && !MentionsAny(ToLower(body.value), Exclusions)
        && Contains(ToLower(body.value), "shelly")
    ensures ProbesIssued(net, ip) == [Url(ip, ShellyPath)]
  {
  }

  /** When `/shelly` cannot be reached: an unreachable `/status` rejects; a
      readable `/status` body decides by the `/status` words, successful
      status or not; an unreadable one hands over to the sweep. */
  lemma StatusFallback(net: Network, ip: string)
    requires net(Url(ip, ShellyPath)) == TransportFail
    ensures var status := net(Url(ip, StatusPath));
      && (status == TransportFail ==> !IsPotentialShellyDevice(net, ip))
      && (status.Resp? && status.body.Some? ==>
            (IsPotentialShellyDevice(net, ip) <==>
              !MentionsAny(ToLower(status.body.value), Exclusions) &&
              MentionsAny(ToLower(status.body.value), StatusKeywords)))
      && (status.Resp? && status.body.None? ==>
            IsPotentialShellyDevice(net, ip) == ConfirmSweep(net, ip))
  {
  }

  /** Fail-closed at the end of the cascade: both first probes unreachable,
      or the sweep reached with no successful readable answer, rejects. */
  lemma CascadeFailClosed(net: Network, ip: string)
    requires net(Url(ip, ShellyPath)) == TransportFail
    requires net(Url(ip, StatusPath)) == TransportFail ||
      (net(Url(ip, StatusPath)).Resp? && net(Url(ip, StatusPath)).body.None? &&
       forall i :: 0 <= i < |Endpoints| ==>
         var p := net(Url(ip, Endpoints[i])); !(p.Resp? && p.statusOk && p.body.Some?))
    ensures !IsPotentialShellyDevice(net, ip)
  {
    if net(Url(ip, StatusPath)).Resp? {
      SweepFailClosed(net, ip);
    }
  }

  /** The verdict depends on the answers to the URLs the cascade requested
      and on nothing else; in particular no hidden state. */
  lemma DependsOnlyOnProbesIssued(net1: Network, net2: Network, ip: string)
    requires forall u :: u in ProbesIssued(net1, ip) ==> net1(u) == net2(u)
    ensures IsPotentialShellyDevice(net1, ip) == IsPotentialShellyDevice(net2, ip)
    ensures ProbesIssued(net1, ip) == ProbesIssued(net2, ip)
  {
    var shelly := Url(ip, ShellyPath);
    var status := Url(ip, StatusPath);
    assert net1(shelly) == net2(shelly);
    if net1(shelly).TransportFail? {
      assert status in ProbesIssued(net1, ip);
      if net1(status).Resp? && net1(status).body.None? {
        var sweep := SweepRequests(net1, ip, Endpoints);
        forall u | u in sweep ensures net1(u) == net2(u) {
          assert u in ProbesIssued(net1, ip);
        }
        SweepDependsOnRequested(net1, net2, ip, Endpoints);
      }
    }
  }

  /** Nothing is accepted without evidence: an accepted host gave, to one of
      the URLs requested, a readable answer that names no excluded word and
      names at least one of the `/status` words. */
  lemma AcceptedHasEvidence(net: Network, ip: string)
    requires IsPotentialShellyDevice(net, ip)
    ensures exists u :: (u in ProbesIssued(net, ip) && net(u).Resp? && net(u).body.Some? &&
      Classify(net(u).body.value, StatusKeywords) == Accept)
  {
    var shelly := Url(ip, ShellyPath);
    var status := Url(ip, StatusPath);
    KeywordSetsNest();
    if net(shelly).Resp? {
      AcceptGrowsWithKeywords(net(shelly).body.value, ShellyKeywords, StatusKeywords);
      assert shelly in ProbesIssued(net, ip);
    } else if net(status).body.Some? {
      assert status in ProbesIssued(net, ip);
    } else {
      SweepAcceptRequested(net, ip, Endpoints);
      var i: nat :| i < |Endpoints| && Verdicts(net, ip, Endpoints)[i] == Accept &&
        Url(ip, Endpoints[i]) in SweepRequests(net, ip, Endpoints);
      var u := Url(ip, Endpoints[i]);
      AcceptGrowsWithKeywords(net(u).body.value, SweepKeywords, StatusKeywords);
      assert u in ProbesIssued(net, ip);
    }
  }
}
