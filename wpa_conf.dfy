/** The wpa_supplicant.conf handler: global settings, header comments and an ordered
    list of network blocks, read by a line-by-line state machine and written back
    by `_generate_content`. */
module WpaConf {
  import opened Wrappers
  import opened Text
  import opened ConfigLines
  import opened WpaNetworks
  import ConfigParsing

  /** What the handler keeps of a wpa_supplicant.conf file. */
  datatype Conf = Conf(
    ctrlInterface: Option<string>,
    ctrlInterfaceGroup: Option<string>,
    updateConfig: int,
    globalParams: Params,
    networks: seq<Network>,
    headerComments: seq<string>)

  /** A handler before anything is loaded. */
  const Fresh: Conf := Conf(None, None, 1, [], [], [])

  // ----- _parse_global_param ----------------------------------------------------

  function SetGlobal(c: Conf, key: string, value: string): Conf {
    if key == "ctrl_interface" then c.(ctrlInterface := Some(value))
    else if key == "ctrl_interface_group" then c.(ctrlInterfaceGroup := Some(value))
    else if key == "update_config" then c.(updateConfig := ParseInt(value).GetOr(1))
    else c.(globalParams := DictSet(c.globalParams, key, value))
  }

  /** `_parse_global_param` on a stripped line: nothing without `=`; otherwise the
      stripped key and value, the value keeping any quotes. */
  function GlobalParam(line: string, c: Conf): Conf {
    match IndexOf(line, '=')
    case None => c
    case Some(j) => SetGlobal(c, Strip(line[..j]), Strip(line[j + 1..]))
  }

  /** Global values are stored as written, quotes included; an unparsable
      `update_config` becomes 1; an unknown key goes to `global_params` only. */
  lemma GlobalParamReads(c: Conf, key: string, value: string)
    requires CleanKey(key) && Trimmed(value)
    ensures var r := GlobalParam(key + "=" + value, c);
      (key == "ctrl_interface" ==> r == c.(ctrlInterface := Some(value))) &&
      (key == "ctrl_interface_group" ==> r == c.(ctrlInterfaceGroup := Some(value))) &&
      (key == "update_config" ==>
        r.updateConfig == (if ParseInt(value).Some? then ParseInt(value).value else 1)) &&
      (key !in {"ctrl_interface", "ctrl_interface_group", "update_config"} ==>
        r.(globalParams := c.globalParams) == c && Lookup(r.globalParams, key) == Some(value))
  {
    GlobalParamSplit(c, key, value);
  }

  /** A line `key=value` sets the global `key` to `value`. */
  lemma GlobalParamSplit(c: Conf, key: string, value: string)
    requires CleanKey(key) && Trimmed(value)
    ensures GlobalParam(key + "=" + value, c) == SetGlobal(c, key, value)
  {
    var line := key + "=" + value;
    AssignmentLine("", key, value);
    assert "" + key + "=" + value == line;
    assert line[..|key|] == key;
    assert line[|key| + 1..] == value;
    StripNoSpace(key);
    StripNoSpace(value);
  }

  // ----- _parse_content ---------------------------------------------------------

  /** The parser's loop state besides the handler's fields: the pending comments, the
      network being read (`in_network_block` holds exactly when there is one) and
      whether a global line has been seen. */
  datatype ParseState = ParseState(
    conf: Conf, comments: seq<string>, block: Option<Network>, seen: bool)

  function Start(c: Conf): ParseState { ParseState(c, [], None, false) }

  /** One iteration of the `_parse_content` loop on a raw line. */
  function Step(st: ParseState, raw: string): ParseState {
    var line := Strip(raw);
    if line == [] then st
    else if line[0] == '#' then
      (if st.block.Some? then st else st.(comments := st.comments + [Strip(line[1..])]))
    else if StartsWith(line, "network={") then
      st.(block := Some(Default.(comments := st.comments)), comments := [])
    else if st.block.Some? && line[0] == '}' then
      st.(conf := st.conf.(networks := st.conf.networks + [st.block.value]), block := None)
    else if st.block.Some? then
      st.(block := Some(NetworkParam(line, st.block.value)))
    else
      var frozen :=
        if !st.seen && st.comments != [] then
          st.(conf := st.conf.(headerComments := st.comments), comments := [])
        else st;
      frozen.(conf := GlobalParam(line, frozen.conf), seen := true)
  }

  function ParseLines(st: ParseState, lines: seq<string>): ParseState
    decreases |lines|
  {
    if lines == [] then st else Step(ParseLines(st, lines[..|lines| - 1]), lines[|lines| - 1])
  }

  /** After the loop: pending comments become the header if no global line was seen. */
  function Finish(st: ParseState): Conf {
    if st.comments != [] && !st.seen then st.conf.(headerComments := st.comments) else st.conf
  }

  /** `_parse_content(content)` applied to a handler holding `c`. */
  function ParseContent(c: Conf, content: string): Conf {
    Finish(ParseLines(Start(c), Split(content, '\n')))
  }

  lemma {:induction false} ParseLinesAppend(st: ParseState, a: seq<string>, b: seq<string>)
    ensures ParseLines(st, a + b) == ParseLines(ParseLines(st, a), b)
    decreases |b|
  {
    if b == [] {
      assert a + b == a;
    } else {
      assert (a + b)[..|a + b| - 1] == a + b[..|b| - 1];
      ParseLinesAppend(st, a, b[..|b| - 1]);
    }
  }

  /** The state machine line by line: blank lines change nothing; a comment inside a
      block is dropped and one outside is queued; `network={` opens a block that
      takes the queued comments; `}` inside a block appends it; any other line is a
      parameter of the open block or, outside one, a global line, the first of which
      turns the queued comments into the header. */
  lemma StepCases(st: ParseState, raw: string)
    ensures var line := Strip(raw);
      var r := Step(st, raw);
      (line == [] ==> r == st) &&
      (line != [] && line[0] == '#' && st.block.Some? ==> r == st) &&
      (line != [] && line[0] == '#' && st.block.None? ==>
        r == st.(comments := st.comments + [Strip(line[1..])])) &&
      (StartsWith(line, "network={") ==>
        r.block == Some(Default.(comments := st.comments)) && r.comments == [] && r.conf == st.conf) &&
      (line != [] && line[0] == '}' && st.block.Some? ==>
        r.conf.networks == st.conf.networks + [st.block.value] && r.block.None?) &&
      (line != [] && line[0] != '#' && !StartsWith(line, "network={") && st.block.None? ==>
        r.seen && r.block.None? &&
        r.conf.headerComments ==
          (if !st.seen && st.comments != [] then st.comments else st.conf.headerComments) &&
        (!st.seen ==> r.comments == []) && (st.seen ==> r.comments == st.comments))
  {
  }

  /** A global line only touches the global settings. */
  lemma GlobalParamKeeps(line: string, c: Conf)
    ensures GlobalParam(line, c).networks == c.networks
    ensures GlobalParam(line, c).headerComments == c.headerComments
  {
  }

  /** Once a global line has been seen the header is fixed for the rest of the file. */
  lemma {:induction false} SeenKeepsHeader(st: ParseState, lines: seq<string>)
    requires st.seen
    ensures ParseLines(st, lines).seen
    ensures ParseLines(st, lines).conf.headerComments == st.conf.headerComments
    ensures Finish(ParseLines(st, lines)).headerComments == st.conf.headerComments
    decreases |lines|
  {
    if lines != [] {
      var p := ParseLines(st, lines[..|lines| - 1]);
      SeenKeepsHeader(st, lines[..|lines| - 1]);
      GlobalParamKeeps(Strip(lines[|lines| - 1]), p.conf);
    }
  }

  /** Parsing never drops or alters a network already read; networks only arrive at
      the end of the list. */
  lemma {:induction false} ParseKeepsNetworks(st: ParseState, lines: seq<string>)
    ensures var r := ParseLines(st, lines).conf.networks;
      |st.conf.networks| <= |r| && r[..|st.conf.networks|] == st.conf.networks
    decreases |lines|
  {
    if lines != [] {
      var p := ParseLines(st, lines[..|lines| - 1]);
      ParseKeepsNetworks(st, lines[..|lines| - 1]);
      GlobalParamKeeps(Strip(lines[|lines| - 1]), p.conf);
      var r := Step(p, lines[|lines| - 1]).conf.networks;
      assert r[..|p.conf.networks|] == p.conf.networks;
      assert p.conf.networks[..|st.conf.networks|] == st.conf.networks;
    }
  }

  // ----- _generate_content ------------------------------------------------------

  /** Global lines are written without indentation. */
  function GlobalLines(d: Params): seq<string> {
    seq(|d|, i requires 0 <= i < |d| => d[i].0 + "=" + d[i].1)
  }

  function HeaderLines(c: Conf): seq<string> {
    CommentLines(c.headerComments) + (if c.headerComments != [] then [""] else [])
  }

  function SettingLines(c: Conf): seq<string> {
    (if Truthy(c.ctrlInterface) then ["ctrl_interface=" + c.ctrlInterface.value] else []) +
    (if Truthy(c.ctrlInterfaceGroup) then ["ctrl_interface_group=" + c.ctrlInterfaceGroup.value] else []) +
    ["update_config=" + IntToString(c.updateConfig)] +
    GlobalLines(SortByKey(c.globalParams))
  }

  /** Each network block followed by an empty line. */
  function NetworkChunks(ns: seq<Network>): seq<string>
    decreases |ns|
  {
    if ns == [] then [] else NetworkChunks(ns[..|ns| - 1]) + [ToBlock(ns[|ns| - 1]), ""]
  }

  /** The list `_generate_content` joins. */
  function ContentLines(c: Conf): seq<string> {
    var pre := HeaderLines(c) + SettingLines(c);
    pre + (if pre != [] then [""] else []) + NetworkChunks(c.networks)
  }

  /** `_generate_content()`. */
  function Generate(c: Conf): string {
    Join("\n", ContentLines(c))
  }

  // ----- networks by ssid -------------------------------------------------------

  /** The index of the first network whose ssid is `ssid`. */
  function FirstWithSsid(ns: seq<Network>, ssid: string): (r: Option<nat>)
    ensures r.Some? ==> r.value < |ns| && ns[r.value].ssid == Some(ssid)
    ensures r.Some? ==> forall j :: 0 <= j < r.value ==> ns[j].ssid != Some(ssid)
    ensures r.None? ==> forall j :: 0 <= j < |ns| ==> ns[j].ssid != Some(ssid)
  {
    if ns == [] then None
    else if ns[0].ssid == Some(ssid) then Some(0)
    else match FirstWithSsid(ns[1..], ssid)
      case None => None
      case Some(i) => Some(i + 1)
  }

  function NetworkNamed(ns: seq<Network>, ssid: string): Option<Network> {
    match FirstWithSsid(ns, ssid)
    case None => None
    case Some(i) => Some(ns[i])
  }

  /** `[n for n in networks if n.ssid != ssid]`. */
  function WithoutSsid(ns: seq<Network>, ssid: string): seq<Network> {
    if ns == [] then []
    else (if ns[0].ssid == Some(ssid) then [] else [ns[0]]) + WithoutSsid(ns[1..], ssid)
  }

  lemma {:induction false} WithoutSsidAppend(a: seq<Network>, b: seq<Network>, ssid: string)
    ensures WithoutSsid(a + b, ssid) == WithoutSsid(a, ssid) + WithoutSsid(b, ssid)
  {
    if a == [] {
      assert a + b == b;
    } else {
      assert (a + b)[1..] == a[1..] + b;
      WithoutSsidAppend(a[1..], b, ssid);
    }
  }

  /** Removal keeps exactly the networks with another ssid, in their order, and
      shortens the list exactly when some network had that ssid. */
  lemma {:induction false} WithoutSsidSpec(ns: seq<Network>, ssid: string)
    ensures var r := WithoutSsid(ns, ssid);
      |r| <= |ns| &&
      (forall m :: m in r ==> m in ns && m.ssid != Some(ssid)) &&
      (forall i :: 0 <= i < |ns| && ns[i].ssid != Some(ssid) ==> ns[i] in r) &&
      (|r| < |ns| <==> FirstWithSsid(ns, ssid).Some?)
  {
    if ns != [] {
      WithoutSsidSpec(ns[1..], ssid);
      var r := WithoutSsid(ns, ssid);
      forall i | 0 <= i < |ns| && ns[i].ssid != Some(ssid) ensures ns[i] in r {
        if i > 0 {
          assert ns[1..][i - 1] == ns[i];
        }
      }
    }
  }

  /** The fields `update_network` changes: a supplied password and a supplied
      priority, nothing else. */
  function Updated(n: Network, password: Option<string>, priority: Option<int>): Network {
    n.(psk := if password.Some? then password else n.psk,
       priority := if priority.Some? then priority.value else n.priority)
  }

  /** `update_network` does not change the mode, so a new password on an open
      network never reaches the file. */
  lemma UpdateOpenNetwork(n: Network, password: string, priority: Option<int>)
    requires n.keyMgmt == "NONE" && ParamsClean(n.otherParams)
    ensures ValuesOf(BodyItems(Updated(n, Some(password), priority)), "psk") == []
    ensures Updated(n, Some(password), priority).psk == Some(password)
  {
    BlockPsk(Updated(n, Some(password), priority));
  }

  // ----- validate ---------------------------------------------------------------

  /** `[n.ssid for n in networks if n.ssid]`. */
  function Ssids(ns: seq<Network>): seq<string>
    decreases |ns|
  {
    if ns == [] then []
    else Ssids(ns[..|ns| - 1]) + (if Truthy(ns[|ns| - 1].ssid) then [ns[|ns| - 1].ssid.value] else [])
  }

  function SetOf(ss: seq<string>): set<string> {
    set i | 0 <= i < |ss| :: ss[i]
  }

  function CountOf(ss: seq<string>, s: string): nat {
    if ss == [] then 0 else (if ss[0] == s then 1 else 0) + CountOf(ss[1..], s)
  }

  /** The elements of `part` that occur more than once in `all`, in order. */
  function RepeatedIn(part: seq<string>, all: seq<string>): seq<string> {
    if part == [] then []
    else (if CountOf(all, part[0]) > 1 then [part[0]] else []) + RepeatedIn(part[1..], all)
  }

  /** `[s for s in ssids if ssids.count(s) > 1]`. */
  function Repeated(ss: seq<string>): seq<string> { RepeatedIn(ss, ss) }

  /** The first occurrence of each element, in order. */
  function Dedup(ss: seq<string>): seq<string>
    decreases |ss|
  {
    if ss == [] then []
    else
      var d := Dedup(ss[..|ss| - 1]);
      if ss[|ss| - 1] in d then d else d + [ss[|ss| - 1]]
  }

  function ReprEach(ss: seq<string>): seq<string> {
    seq(|ss|, i requires 0 <= i < |ss| => "'" + ss[i] + "'")
  }

  /** Python's text of `set(ss)` for plain strings. */
  function SetRepr(ss: seq<string>): string {
    "{" + Join(", ", ReprEach(Dedup(ss))) + "}"
  }

  /** The mode names `validate` accepts. */
  const ValidModes: set<string> := {"NONE", "WPA-PSK", "WPA-EAP", "SAE"}

  /** What `f"{network.ssid}"` prints. */
  function SsidText(s: Option<string>): string {
    if s.Some? then s.value else "None"
  }

  /** The three checks `validate` makes on network number `i`. */
  function NetworkErrors(i: nat, n: Network): seq<string> {
    (if !Truthy(n.ssid) then ["Network #" + IntToString(i) + " has no SSID"] else []) +
    (if n.keyMgmt !in ValidModes
     then ["Network " + SsidText(n.ssid) + ": Invalid key_mgmt: " + n.keyMgmt] else []) +
    (if n.keyMgmt != "NONE" && !Truthy(n.psk)
     then ["Network " + SsidText(n.ssid) + ": No password set for secured network"] else [])
  }

  function AllNetworkErrors(ns: seq<Network>): seq<string>
    decreases |ns|
  {
    if ns == [] then [] else AllNetworkErrors(ns[..|ns| - 1]) + NetworkErrors(|ns| - 1, ns[|ns| - 1])
  }

  predicate NetworkOk(n: Network) {
    Truthy(n.ssid) && n.keyMgmt in ValidModes && (n.keyMgmt != "NONE" ==> Truthy(n.psk))
  }

  /** `validate()`: one message for repeated non-empty ssids, then each network's
      messages in order; valid exactly when there are no messages. */
  function ValidateConf(ns: seq<Network>): (bool, seq<string>) {
    var ss := Ssids(ns);
    var dup := if |ss| != |SetOf(ss)| then ["Duplicate SSIDs found: " + SetRepr(Repeated(ss))] else [];
    var errors := dup + AllNetworkErrors(ns);
    (errors == [], errors)
  }

  lemma {:induction false} SetOfSize(ss: seq<string>)
    ensures |SetOf(ss)| <= |ss|
    ensures |SetOf(ss)| == |ss| <==> ConfigParsing.Distinct(ss)
    decreases |ss|
  {
    if ss != [] {
      var p := ss[..|ss| - 1];
      var x := ss[|ss| - 1];
      SetOfSize(p);
      assert SetOf(ss) == SetOf(p) + {x} by {
        forall y | y in SetOf(ss) ensures y in SetOf(p) + {x} {
          var i :| 0 <= i < |ss| && ss[i] == y;
          if i < |ss| - 1 {
            assert p[i] == y;
          }
        }
      }
      if x in SetOf(p) {
        var i :| 0 <= i < |p| && p[i] == x;
        assert ss[i] == ss[|ss| - 1];
      } else {
        assert |SetOf(ss)| == |SetOf(p)| + 1;
        if ConfigParsing.Distinct(p) {
          forall i, j | 0 <= i < j < |ss| ensures ss[i] != ss[j] {
            if j < |ss| - 1 {
              assert ss[i] == p[i] && ss[j] == p[j];
            } else {
              assert ss[i] == p[i];
            }
          }
        } else {
          var i, j :| 0 <= i < j < |p| && p[i] == p[j];
          assert ss[i] == ss[j];
        }
      }
    }
  }

  lemma {:induction false} AllNetworkErrorsEmpty(ns: seq<Network>)
    ensures AllNetworkErrors(ns) == [] <==> forall i :: 0 <= i < |ns| ==> NetworkOk(ns[i])
    decreases |ns|
  {
    if ns != [] {
      var p := ns[..|ns| - 1];
      AllNetworkErrorsEmpty(p);
      assert forall i :: 0 <= i < |p| ==> p[i] == ns[i];
      assert NetworkErrors(|ns| - 1, ns[|ns| - 1]) == [] <==> NetworkOk(ns[|ns| - 1]);
    }
  }

  /** The configuration is valid exactly when the non-empty ssids are distinct and
      every network has an ssid, an accepted mode and, unless open, a password. */
  lemma ValidateExact(ns: seq<Network>)
    ensures ValidateConf(ns).0 <==>
      ConfigParsing.Distinct(Ssids(ns)) && forall i :: 0 <= i < |ns| ==> NetworkOk(ns[i])
    ensures ValidateConf(ns).1 ==
      (if ConfigParsing.Distinct(Ssids(ns)) then []
       else ["Duplicate SSIDs found: " + SetRepr(Repeated(Ssids(ns)))]) + AllNetworkErrors(ns)
  {
    SetOfSize(Ssids(ns));
    AllNetworkErrorsEmpty(ns);
  }

  // ----- the handler --------------------------------------------------------------

  /** `WPAConfHandler`. The file and its `.bak` copy are modelled as optional
      contents (`None` when the file does not exist). */
  class WPAConfHandler {
    var ctrlInterface: Option<string>
    var ctrlInterfaceGroup: Option<string>
    var updateConfig: int
    var globalParams: Params
    var networks: seq<Network>
    var headerComments: seq<string>
    var loaded: bool
    var file: Option<string>
    var backupFile: Option<string>

    function Model(): Conf
      reads this`ctrlInterface, this`ctrlInterfaceGroup, this`updateConfig,
            this`globalParams, this`networks, this`headerComments
    {
      Conf(ctrlInterface, ctrlInterfaceGroup, updateConfig, globalParams, networks, headerComments)
    }

    constructor (file: Option<string>, backupFile: Option<string>)
      ensures Model() == Fresh && !loaded
      ensures this.file == file && this.backupFile == backupFile
    {
      ctrlInterface := None;
      ctrlInterfaceGroup := None;
      updateConfig := 1;
      globalParams := [];
      networks := [];
      headerComments := [];
      loaded := false;
      this.file := file;
      this.backupFile := backupFile;
    }

    /** `load()`: a missing file leaves the handler as it is but loaded; otherwise
        the content, read in text mode, is parsed on top of the current settings. */
    method Load() returns (ok: bool)
      modifies this
      ensures ok && loaded
      ensures file == old(file) && backupFile == old(backupFile)
      ensures old(file).None? ==> Model() == old(Model())
      ensures old(file).Some? ==> Model() == ParseContent(old(Model()), TranslateNewlines(old(file).value))
    {
      if file.Some? {
        ParseFile(TranslateNewlines(file.value));
      }
      loaded := true;
      ok := true;
    }

    /** `_parse_content(content)`. */
    method ParseFile(content: string)
      modifies this`ctrlInterface, this`ctrlInterfaceGroup, this`updateConfig,
               this`globalParams, this`networks, this`headerComments
      ensures Model() == ParseContent(old(Model()), content)
    {
      var lines := Split(content, '\n');
      var i := 0;
      var comments: seq<string> := [];
      var current: Option<Network> := None;
      var seen := false;
      while i < |lines|
        invariant 0 <= i <= |lines|
        invariant ParseState(Model(), comments, current, seen) ==
          ParseLines(Start(old(Model())), lines[..i])
      {
        assert lines[..i + 1][..i] == lines[..i];
        var line := Strip(lines[i]);
        if line == [] {
        } else if line[0] == '#' {
          if current.None? {
            comments := comments + [Strip(line[1..])];
          }
        } else if StartsWith(line, "network={") {
          current := Some(Default.(comments := comments));
          comments := [];
        } else if current.Some? && line[0] == '}' {
          networks := networks + [current.value];
          current := None;
        } else if current.Some? {
          current := Some(NetworkParam(line, current.value));
        } else {
          if !seen && comments != [] {
            headerComments := comments;
            comments := [];
          }
          seen := true;
          ParseGlobalParam(line);
        }
        i := i + 1;
      }
      assert lines[..i] == lines;
      if comments != [] && !seen {
        headerComments := comments;
      }
    }

    /** `_parse_global_param(line)`. */
    method ParseGlobalParam(line: string)
      modifies this`ctrlInterface, this`ctrlInterfaceGroup, this`updateConfig, this`globalParams
      ensures Model() == GlobalParam(line, old(Model()))
    {
      var eq := IndexOf(line, '=');
      if eq.Some? {
        var key := Strip(line[..eq.value]);
        var value := Strip(line[eq.value + 1..]);
        if key == "ctrl_interface" {
          ctrlInterface := Some(value);
        } else if key == "ctrl_interface_group" {
          ctrlInterfaceGroup := Some(value);
        } else if key == "update_config" {
          updateConfig := ParseInt(value).GetOr(1);
        } else {
          globalParams := DictSet(globalParams, key, value);
        }
      }
    }

    /** `save(backup)`: refused before `load`; otherwise the previous file is copied
        to the backup when asked and present, and the generated text is written.
        The configuration is not validated first. */
    method Save(backup: bool) returns (ok: bool)
      modifies this`file, this`backupFile
      ensures ok <==> loaded
      ensures ok ==> file == Some(Generate(Model()))
      ensures ok ==> backupFile == if backup && old(file).Some? then old(file) else old(backupFile)
      ensures !ok ==> file == old(file) && backupFile == old(backupFile)
    {
      if !loaded {
        return false;
      }
      if backup && file.Some? {
        backupFile := file;
      }
      var content := GenerateContent();
      file := Some(content);
      ok := true;
    }

    /** `_generate_content()`. */
    method GenerateContent() returns (content: string)
      ensures content == Generate(Model())
    {
      var header := RenderComments(headerComments);
      if headerComments != [] {
        header := header + [""];
      }
      assert header == HeaderLines(Model());
      var settings: seq<string> := [];
      if Truthy(ctrlInterface) {
        settings := settings + ["ctrl_interface=" + ctrlInterface.value];
      }
      if Truthy(ctrlInterfaceGroup) {
        settings := settings + ["ctrl_interface_group=" + ctrlInterfaceGroup.value];
      }
      settings := settings + ["update_config=" + IntToString(updateConfig)];
      var globals := RenderGlobals(SortByKey(globalParams));
      settings := settings + globals;
      assert settings == SettingLines(Model());
      var lines := header + settings;
      if lines != [] {
        lines := lines + [""];
      }
      var chunks := RenderNetworks(networks);
      lines := lines + chunks;
      content := Join("\n", lines);
    }

    /** `add_network(...)`: one new network at the end. */
    method AddNetwork(ssid: string, password: Option<string>, security: string,
                      priority: int, scanSsid: bool) returns (ok: bool)
      modifies this`networks
      ensures ok && networks == old(networks) + [NewNetwork(ssid, password, security, priority, scanSsid)]
    {
      networks := networks + [NewNetwork(ssid, password, security, priority, scanSsid)];
      ok := true;
    }

    /** `remove_network(ssid)`: true exactly when the list got shorter. */
    method RemoveNetwork(ssid: string) returns (removed: bool)
      modifies this`networks
      ensures networks == WithoutSsid(old(networks), ssid)
      ensures removed <==> |networks| < |old(networks)|
    {
      var before := |networks|;
      networks := WithoutSsid(networks, ssid);
      removed := |networks| < before;
    }

    /** `get_network(ssid)`: the first network with that ssid. */
    method GetNetwork(ssid: string) returns (r: Option<Network>)
      ensures r == NetworkNamed(networks, ssid)
    {
      var i := 0;
      while i < |networks|
        invariant 0 <= i <= |networks|
        invariant forall j :: 0 <= j < i ==> networks[j].ssid != Some(ssid)
      {
        if networks[i].ssid == Some(ssid) {
          assert FirstWithSsid(networks, ssid) == Some(i) by {
            FirstWithSsidAt(networks, ssid, i);
          }
          return Some(networks[i]);
        }
        i := i + 1;
      }
      return None;
    }

    /** `update_network(ssid, password, priority)`: only the first match changes, and
        only in the supplied fields. */
    method UpdateNetwork(ssid: string, password: Option<string>, priority: Option<int>)
      returns (ok: bool)
      modifies this`networks
      ensures ok <==> FirstWithSsid(old(networks), ssid).Some?
      ensures ok ==> var i := FirstWithSsid(old(networks), ssid).value;
        networks == old(networks)[i := Updated(old(networks)[i], password, priority)]
      ensures !ok ==> networks == old(networks)
    {
      var i := FirstWithSsid(networks, ssid);
      if i.None? {
        return false;
      }
      networks := networks[i.value := Updated(networks[i.value], password, priority)];
      ok := true;
    }

    /** `list_networks()`: one summary per network, in order, without the psk. */
    method ListNetworks() returns (r: seq<Summary>)
      ensures |r| == |networks|
      ensures forall i :: 0 <= i < |networks| ==> r[i] == Summarize(networks[i])
    {
      r := [];
      var i := 0;
      while i < |networks|
        invariant 0 <= i <= |networks|
        invariant |r| == i
        invariant forall j :: 0 <= j < i ==> r[j] == Summarize(networks[j])
      {
        r := r + [Summarize(networks[i])];
        i := i + 1;
      }
    }

    /** `clear_networks()`. */
    method ClearNetworks()
      modifies this`networks
      ensures networks == []
    {
      networks := [];
    }

    /** `validate()`. */
    method Validate() returns (ok: bool, errors: seq<string>)
      ensures (ok, errors) == ValidateConf(networks)
    {
      var ss := Ssids(networks);
      errors := [];
      if |ss| != |SetOf(ss)| {
        errors := ["Duplicate SSIDs found: " + SetRepr(Repeated(ss))];
      }
      var perNetwork := CheckNetworks(networks);
      errors := errors + perNetwork;
      ok := |errors| == 0;
    }
  }

  /** The header comment lines, one `# ` line per comment. */
  method RenderComments(cs: seq<string>) returns (lines: seq<string>)
    ensures lines == CommentLines(cs)
  {
    lines := [];
    var i := 0;
    while i < |cs|
      invariant 0 <= i <= |cs|
      invariant lines == CommentLines(cs[..i])
    {
      lines := lines + ["# " + cs[i]];
      i := i + 1;
    }
    assert cs[..i] == cs;
  }

  /** The `key=value` lines of the sorted global parameters. */
  method RenderGlobals(d: Params) returns (lines: seq<string>)
    ensures lines == GlobalLines(d)
  {
    lines := [];
    var i := 0;
    while i < |d|
      invariant 0 <= i <= |d|
      invariant lines == GlobalLines(d[..i])
    {
      lines := lines + [d[i].0 + "=" + d[i].1];
      i := i + 1;
    }
    assert d[..i] == d;
  }

  /** Each network's block followed by an empty line. */
  method RenderNetworks(ns: seq<Network>) returns (lines: seq<string>)
    ensures lines == NetworkChunks(ns)
  {
    lines := [];
    var i := 0;
    while i < |ns|
      invariant 0 <= i <= |ns|
      invariant lines == NetworkChunks(ns[..i])
    {
      assert ns[..i + 1][..i] == ns[..i];
      lines := lines + [ToBlock(ns[i]), ""];
      i := i + 1;
    }
    assert ns[..i] == ns;
  }

  /** The per-network messages of `validate`, network by network. */
  method CheckNetworks(ns: seq<Network>) returns (errors: seq<string>)
    ensures errors == AllNetworkErrors(ns)
  {
    errors := [];
    var i := 0;
    while i < |ns|
      invariant 0 <= i <= |ns|
      invariant errors == AllNetworkErrors(ns[..i])
    {
      assert ns[..i + 1][..i] == ns[..i];
      errors := errors + NetworkErrors(i, ns[i]);
      i := i + 1;
    }
    assert ns[..i] == ns;
  }

  lemma FirstWithSsidAt(ns: seq<Network>, ssid: string, i: nat)
    requires i < |ns| && ns[i].ssid == Some(ssid)
    requires forall j :: 0 <= j < i ==> ns[j].ssid != Some(ssid)
    ensures FirstWithSsid(ns, ssid) == Some(i)
  {
  }
}
