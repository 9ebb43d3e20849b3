/** The command-output parsers of `bsd_netgui/backend/wifi_handler.py`: the scan table
    of `ifconfig <iface> scan`, the security class of one scan line, the `wlan`
    interface names of `ifconfig -a`, and the association check on `ifconfig <iface>`.
    Each command's success flag and standard output are the inputs. */
module Wifi {
  import opened Wrappers
  import opened Text
  import opened Patterns

  // ---------------------------------------------------------------------------------
  // Security class.

  /** `_determine_security(scan_line)`: substrings of the whole line, strongest first. */
  function DetermineSecurity(line: string): string {
    if Contains(line, "WPA2") || Contains(line, "RSN") then "WPA2"
    else if Contains(line, "WPA") then "WPA"
    else if Contains(line, "WEP") then "WEP"
    else "Open"
  }

  /** The classes in the order the checks try them. */
  function Rank(security: string): nat {
    if security == "WPA2" then 3 else if security == "WPA" then 2 else if security == "WEP" then 1 else 0
  }

  lemma ContainsAppend(a: string, b: string, p: string)
    requires Contains(a, p)
    ensures Contains(a + b, p) && Contains(b + a, p)
  {
    var j := Find(a, p).value;
    assert (a + b)[j..j + |p|] == a[j..j + |p|];
    assert OccursAt(a + b, p, j);
    assert (b + a)[|b| + j..|b| + j + |p|] == a[j..j + |p|];
    assert OccursAt(b + a, p, |b| + j);
  }

  /** A line with `WPA2` also holds `WPA`: only the order of the checks makes `WPA2`
      reachable. */
  lemma Wpa2HoldsWpa(line: string)
    requires Contains(line, "WPA2")
    ensures Contains(line, "WPA")
  {
    var j := Find(line, "WPA2").value;
    assert line[j..j + 3] == line[j..j + 4][..3];
    assert OccursAt(line, "WPA", j);
  }

  /** More text never lowers the class: whatever a line holds, a line around it holds
      too. */
  lemma SecurityMonotone(a: string, b: string, c: string)
    ensures Rank(DetermineSecurity(b)) <= Rank(DetermineSecurity(a + b + c))
  {
    var line := a + b + c;
    assert line == a + (b + c);
    forall p | Contains(b, p) ensures Contains(line, p) {
      ContainsAppend(b, c, p);
      ContainsAppend(b + c, a, p);
    }
  }

  // ---------------------------------------------------------------------------------
  // Scan table.

  /** One network of the scan table (the source's dict with keys `ssid`, `bssid`,
      `channel`, `signal`, `security`). */
  datatype Network = Network(ssid: string, bssid: string, channel: string, signal: string, security: string)

  /** The network one scan line yields: none for a blank line, a line starting with
      `SSID` (the heading) or one with fewer than three fields. */
  function ScanEntry(line: string): (r: Option<Network>)
    ensures r.Some? <==> Strip(line) != [] && !StartsWith(line, "SSID") && |Fields(line)| >= 3
    ensures r.Some? ==> var f := Fields(line);
      r.value.ssid == f[0] && r.value.bssid == f[1] && r.value.channel == f[2] &&
      r.value.signal == (if |f| > 4 then f[4] else "") && r.value.security == DetermineSecurity(line)
  {
    if Strip(line) == [] || StartsWith(line, "SSID") then None
    else
      var parts := Fields(line);
      if |parts| >= 3 then
        Some(Network(parts[0], parts[1], parts[2], if |parts| > 4 then parts[4] else "", DetermineSecurity(line)))
      else None
  }

  function ScanLines(lines: seq<string>): seq<Network> {
    if lines == [] then []
    else
      match ScanEntry(lines[0])
      case Some(n) => [n] + ScanLines(lines[1..])
      case None => ScanLines(lines[1..])
  }

  /** `_parse_scan_output(output)` */
  function ParseScan(output: string): seq<Network> { ScanLines(Split(output, '\n')) }

  /** `_parse_scan_output`: the loop appending one dict per kept line. */
  method ParseScanOutput(output: string) returns (networks: seq<Network>)
    ensures networks == ParseScan(output)
  {
    var lines := Split(output, '\n');
    networks := [];
    var i := 0;
    while i < |lines|
      invariant 0 <= i <= |lines|
      invariant networks + ScanLines(lines[i..]) == ScanLines(lines)
    {
      assert lines[i..][1..] == lines[i + 1..];
      var entry := ScanEntry(lines[i]);
      if entry.Some? {
        networks := networks + [entry.value];
      }
      i := i + 1;
    }
  }

  /** Lines contribute independently and in order. */
  lemma {:induction false} ScanAppend(a: seq<string>, b: seq<string>)
    ensures ScanLines(a + b) == ScanLines(a) + ScanLines(b)
  {
    if a == [] {
      assert a + b == b;
    } else {
      assert (a + b)[1..] == a[1..] + b;
      ScanAppend(a[1..], b);
    }
  }

  /** Every network comes from a line of its own: each record is the entry of a kept
      line, and there are never more records than lines. */
  lemma {:induction false} ScanOrigin(lines: seq<string>)
    ensures |ScanLines(lines)| <= |lines|
    ensures forall n :: n in ScanLines(lines) ==> exists i :: 0 <= i < |lines| && ScanEntry(lines[i]) == Some(n)
  {
    if lines != [] {
      ScanOrigin(lines[1..]);
      forall n | n in ScanLines(lines)
        ensures exists i :: 0 <= i < |lines| && ScanEntry(lines[i]) == Some(n)
      {
        if ScanEntry(lines[0]) == Some(n) {
        } else {
          assert n in ScanLines(lines[1..]);
          var i :| 0 <= i < |lines[1..]| && ScanEntry(lines[1..][i]) == Some(n);
          assert ScanEntry(lines[i + 1]) == Some(n);
        }
      }
    }
  }

  /** The heading line of the table yields nothing. */
  lemma HeadingSkipped(rest: string)
    ensures ScanEntry("SSID" + rest) == None
  {
    assert ("SSID" + rest)[..4] == "SSID";
  }

  // ---------------------------------------------------------------------------------
  // Wireless interface names.

  /** `re.match(r'^(wlan\d+):', line)` on a line that is non-empty and does not start
      with a tab. */
  function WlanName(line: string): (r: Option<string>)
    ensures r.Some? ==> |r.value| > 4 && r.value[..4] == "wlan" && IsDigits(r.value[4..]) &&
                        StartsWith(line, r.value + ":")
  {
    if line == [] || line[0] == '\t' || !StartsWith(line, "wlan") then None
    else
      var n := DigitLen(line[4..]);
      if n > 0 && 4 + n < |line| && line[4 + n] == ':' then
        assert line[..4 + n][4..] == line[4..][..n];
        assert line[..4 + n + 1] == line[..4 + n] + ":";
        Some(line[..4 + n])
      else None
  }

  function WlanNames(lines: seq<string>): seq<string> {
    if lines == [] then []
    else
      match WlanName(lines[0])
      case Some(name) => [name] + WlanNames(lines[1..])
      case None => WlanNames(lines[1..])
  }

  /** `get_wifi_interfaces()` on the result of `ifconfig -a`: no names when the
      command fails. */
  method GetWifiInterfaces(success: bool, stdout: string) returns (names: seq<string>)
    ensures names == if success then WlanNames(Split(stdout, '\n')) else []
  {
    if !success {
      return [];
    }
    var lines := Split(stdout, '\n');
    names := [];
    var i := 0;
    while i < |lines|
      invariant 0 <= i <= |lines|
      invariant names + WlanNames(lines[i..]) == WlanNames(lines)
    {
      assert lines[i..][1..] == lines[i + 1..];
      var line := lines[i];
      if line != [] && line[0] != '\t' {
        var m := WlanName(line);
        if m.Some? {
          names := names + [m.value];
        }
      }
      i := i + 1;
    }
  }

  /** A header `wlan<digits>:...` gives its name. */
  lemma WlanNameOf(digits: string, rest: string)
    requires IsDigits(digits)
    ensures WlanName("wlan" + digits + ":" + rest) == Some("wlan" + digits)
  {
    var line := "wlan" + digits + ":" + rest;
    assert line[4..] == digits + (":" + rest);
    DigitLenOf(digits, ":" + rest);
    assert line[4 + |digits|] == ':';
    assert line[..4 + |digits|] == "wlan" + digits;
  }

  lemma {:induction false} DigitLenOf(d: string, rest: string)
    requires forall i :: 0 <= i < |d| ==> IsDigit(d[i])
    requires rest == [] || !IsDigit(rest[0])
    ensures DigitLen(d + rest) == |d|
  {
    if d == [] {
      assert d + rest == rest;
    } else {
      assert (d + rest)[1..] == d[1..] + rest;
      DigitLenOf(d[1..], rest);
    }
  }

  /** Other interfaces, and lines indented with a tab, give no name. */
  lemma OtherInterfaces(line: string)
    requires line == [] || line[0] == '\t' || !StartsWith(line, "wlan")
    ensures WlanName(line) == None
  {
  }

  /** Names keep the order of their lines. */
  lemma {:induction false} WlanNamesAppend(a: seq<string>, b: seq<string>)
    ensures WlanNames(a + b) == WlanNames(a) + WlanNames(b)
  {
    if a == [] {
      assert a + b == b;
    } else {
      assert (a + b)[1..] == a[1..] + b;
      WlanNamesAppend(a[1..], b);
    }
  }

  // ---------------------------------------------------------------------------------
  // Association.

  /** `re.search(r'ssid\s+([^\s]+)', line)`: the leftmost match, which may be the tail
      of `bssid`. */
  function SsidOf(line: string): Option<string> { Capture(line, "ssid", NonSpace) }

  /** The status word of a line holding `status:`. */
  function StatusOf(line: string): Option<string> {
    if Contains(line, "status:") then Capture(line, "status:", Word) else None
  }

  /** A status other than `associated` ends the search with no connection. */
  predicate Disconnects(line: string) { StatusOf(line).Some? && StatusOf(line).value != "associated" }

  /** The ssid each line carries, and whether it reports another status. */
  function Ssids(lines: seq<string>): (r: seq<Option<string>>)
    ensures |r| == |lines|
  {
    if lines == [] then [] else Ssids(lines[..|lines| - 1]) + [SsidOf(lines[|lines| - 1])]
  }

  function Stops(lines: seq<string>): (r: seq<bool>)
    ensures |r| == |lines|
  {
    if lines == [] then [] else Stops(lines[..|lines| - 1]) + [Disconnects(lines[|lines| - 1])]
  }

  lemma {:induction false} LineAt(lines: seq<string>, i: nat)
    requires i < |lines|
    ensures Ssids(lines)[i] == SsidOf(lines[i]) && Stops(lines)[i] == Disconnects(lines[i])
  {
    if i < |lines| - 1 {
      var init := lines[..|lines| - 1];
      LineAt(init, i);
      assert init[i] == lines[i];
    }
  }

  /** The last value present. */
  function LastSome(xs: seq<Option<string>>): Option<string> {
    if xs == [] then None
    else if xs[|xs| - 1].Some? then xs[|xs| - 1]
    else LastSome(xs[..|xs| - 1])
  }

  lemma LastSomeStep(xs: seq<Option<string>>, i: nat)
    requires i < |xs|
    ensures LastSome(xs[..i + 1]) == if xs[i].Some? then xs[i] else LastSome(xs[..i])
  {
    assert xs[..i + 1][..i] == xs[..i];
  }

  /** `LastSome` finds a value exactly when there is one, and then it is the last. */
  lemma {:induction false} LastSomeSpec(xs: seq<Option<string>>)
    ensures LastSome(xs).Some? <==> exists i :: 0 <= i < |xs| && xs[i].Some?
    ensures LastSome(xs).Some? ==>
      exists j :: 0 <= j < |xs| && xs[j] == LastSome(xs) && forall k :: j < k < |xs| ==> xs[k].None?
  {
    if xs != [] && xs[|xs| - 1].None? {
      var init := xs[..|xs| - 1];
      LastSomeSpec(init);
      assert forall i :: 0 <= i < |init| ==> init[i] == xs[i];
    }
  }

  /** The connected network: none when any line reports another status, otherwise the
      last ssid seen. */
  function Connection(lines: seq<string>): Option<string> {
    if true in Stops(lines) then None else LastSome(Ssids(lines))
  }

  /** `get_current_connection(iface)`, the record reduced to its one key `ssid`. */
  method GetCurrentConnection(success: bool, stdout: string) returns (ssid: Option<string>)
    ensures ssid == if success then Connection(Split(stdout, '\n')) else None
  {
    if !success {
      return None;
    }
    var lines := Split(stdout, '\n');
    ghost var ssids, stops := Ssids(lines), Stops(lines);
    ssid := None;
    var i := 0;
    while i < |lines|
      invariant 0 <= i <= |lines|
      invariant ssid == LastSome(ssids[..i])
      invariant true !in stops[..i]
    {
      var stop;
      ssid, stop := ConnectionLine(ssid, lines[i]);
      LineAt(lines, i);
      LastSomeStep(ssids, i);
      if stop {
        return None;
      }
      assert stops[..i + 1] == stops[..i] + [stops[i]];
      i := i + 1;
    }
    assert ssids[..i] == ssids;
    assert stops[..i] == stops;
  }

  /** The loop body on one line: a new ssid replaces the one seen so far, and a status
      other than `associated` stops the search. */
  method ConnectionLine(ssid: Option<string>, line: string) returns (ssid': Option<string>, stop: bool)
    ensures ssid' == if SsidOf(line).Some? then SsidOf(line) else ssid
    ensures stop <==> Disconnects(line)
  {
    ssid' := ssid;
    var m := Capture(line, "ssid", NonSpace);
    if m.Some? {
      ssid' := m;
    }
    stop := false;
    if Contains(line, "status:") {
      var status := Capture(line, "status:", Word);
      if status.Some? && status.value != "associated" {
        stop := true;
      }
    }
  }

  /** Connected exactly when no line reports another status and some line has an
      ssid; the network is then the ssid of the last such line. */
  lemma ConnectionIff(lines: seq<string>)
    ensures Connection(lines).Some? <==>
      (forall i :: 0 <= i < |lines| ==> !Disconnects(lines[i])) &&
      (exists i :: 0 <= i < |lines| && SsidOf(lines[i]).Some?)
    ensures Connection(lines).Some? ==>
      exists j :: 0 <= j < |lines| && SsidOf(lines[j]) == Connection(lines) &&
                  forall k :: j < k < |lines| ==> SsidOf(lines[k]).None?
  {
    StopsIff(lines);
    SsidsIff(lines);
  }

  lemma StopsIff(lines: seq<string>)
    ensures (true in Stops(lines)) <==> exists i :: 0 <= i < |lines| && Disconnects(lines[i])
  {
    if true in Stops(lines) {
      var i :| 0 <= i < |lines| && Stops(lines)[i];
      LineAt(lines, i);
    }
    if exists i :: 0 <= i < |lines| && Disconnects(lines[i]) {
      var i :| 0 <= i < |lines| && Disconnects(lines[i]);
      LineAt(lines, i);
    }
  }

  lemma SsidsIff(lines: seq<string>)
    ensures LastSome(Ssids(lines)).Some? <==> exists i :: 0 <= i < |lines| && SsidOf(lines[i]).Some?
    ensures LastSome(Ssids(lines)).Some? ==>
      exists j :: 0 <= j < |lines| && SsidOf(lines[j]) == LastSome(Ssids(lines)) &&
                  forall k :: j < k < |lines| ==> SsidOf(lines[k]).None?
  {
    var ssids := Ssids(lines);
    var r := LastSome(ssids);
    LastSomeSpec(ssids);
    if r.Some? {
      var j :| 0 <= j < |ssids| && ssids[j] == r && forall k :: j < k < |ssids| ==> ssids[k].None?;
      LineAt(lines, j);
      forall k | j < k < |lines| ensures SsidOf(lines[k]).None? {
        LineAt(lines, k);
      }
    }
    if exists i :: 0 <= i < |lines| && SsidOf(lines[i]).Some? {
      var i :| 0 <= i < |lines| && SsidOf(lines[i]).Some?;
      LineAt(lines, i);
    }
  }

  /** On a line `ssid <name> ... bssid <mac>` the ssid is the name, not the tail of
      `bssid`. */
  lemma SsidBeforeBssid(name: string, rest: string)
    requires name != [] && NoSpace(name)
    requires rest == [] || IsSpace(rest[0])
    ensures SsidOf("ssid " + name + rest) == Some(name)
  {
    var line := "ssid " + name + rest;
    assert line[4..] == " " + name + rest;
    SpacedRunOf(NonSpace, " ", name, rest);
    assert OccursAt(line, "ssid", 0);
    CaptureAtStart(line, "ssid", NonSpace);
  }

  /** `status: associated` keeps the connection. */
  lemma AssociatedKeeps(rest: string)
    requires rest == [] || !IsWordChar(rest[0])
    ensures !Disconnects("status: associated" + rest)
  {
    var line := "status: associated" + rest;
    assert line[7..] == " " + "associated" + rest;
    SpacedRunOf(Word, " ", "associated", rest);
    assert OccursAt(line, "status:", 0);
    CaptureAtStart(line, "status:", Word);
  }
}
