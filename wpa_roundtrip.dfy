/** What survives `_generate_content` followed by `_parse_content`: the header, the
    control interface settings, `update_config` and, network by network and in
    order, each network's comments, ssid, psk, mode, priority, scan flag and
    disabled flag. */
module WpaRoundTrip {
  import opened Wrappers
  import opened Text
  import opened ConfigLines
  import opened WpaNetworks
  import opened WpaConf

  // ----- what can be written and read back ---------------------------------------

  /** A key whose line is read as a parameter of that key: not a comment, not the
      start or end of a block. */
  predicate SafeKey(k: string) {
    CleanKey(k) && HasNo(k, '\n') && k[0] != '#' && k[0] != '}' && k != "network"
  }

  predicate CommentsOk(cs: seq<string>) {
    forall i :: 0 <= i < |cs| ==> Trimmed(cs[i]) && HasNo(cs[i], '\n')
  }

  predicate SettingOk(v: Option<string>) {
    v.Some? ==> Trimmed(v.value) && HasNo(v.value, '\n')
  }

  /** A network whose block reads back as itself: one-line texts, trimmed comments,
      a mode that is trimmed and not wrapped in quotes, and other parameters whose
      keys are safe and not keys `to_block` writes itself. */
  predicate WritableNetwork(n: Network) {
    CommentsOk(n.comments) &&
    (n.ssid.Some? ==> HasNo(n.ssid.value, '\n')) &&
    (n.psk.Some? ==> HasNo(n.psk.value, '\n')) &&
    HasNo(n.keyMgmt, '\n') && Trimmed(n.keyMgmt) && Unquote(n.keyMgmt) == n.keyMgmt &&
    forall i :: 0 <= i < |n.otherParams| ==>
      SafeKey(n.otherParams[i].0) && n.otherParams[i].0 !in KnownKeys &&
      HasNo(n.otherParams[i].1, '\n')
  }

  const SettingKeys: set<string> := {"ctrl_interface", "ctrl_interface_group", "update_config"}

  predicate Writable(c: Conf) {
    CommentsOk(c.headerComments) &&
    SettingOk(c.ctrlInterface) && SettingOk(c.ctrlInterfaceGroup) &&
    (forall i :: 0 <= i < |c.globalParams| ==>
      SafeKey(c.globalParams[i].0) && c.globalParams[i].0 !in SettingKeys &&
      HasNo(c.globalParams[i].1, '\n')) &&
    forall i :: 0 <= i < |c.networks| ==> WritableNetwork(c.networks[i])
  }

  /** `m` is what parsing gives back for `n`: an empty ssid and the psk of an open
      network or an empty psk are not written, everything else listed comes back. */
  predicate Recovered(n: Network, m: Network) {
    m.ssid == (if Truthy(n.ssid) then n.ssid else None) &&
    m.psk == (if n.keyMgmt != "NONE" && Truthy(n.psk) then n.psk else None) &&
    m.keyMgmt == n.keyMgmt && m.priority == n.priority && m.scanSsid == n.scanSsid &&
    m.disabled == n.disabled && m.comments == n.comments
  }

  // ----- text facts ----------------------------------------------------------------

  lemma IntToStringText(i: int)
    ensures IntToString(i) != [] && Trimmed(IntToString(i)) && HasNo(IntToString(i), '\n')
    ensures IntToString(i)[0] != '"'
  {
    if i >= 0 {
      assert IsDigits(NatToString(i));
    } else {
      var s := NatToString(-i);
      assert IsDigits(s);
      assert IntToString(i)[|IntToString(i)| - 1] == s[|s| - 1];
    }
  }

  lemma {:induction false} SortKeepsItems(d: Params)
    ensures |SortByKey(d)| == |d|
    ensures forall i :: 0 <= i < |SortByKey(d)| ==> SortByKey(d)[i] in d
  {
    SortByKeyCorrect(d);
    var s := SortByKey(d);
    assert |multiset(s)| == |multiset(d)|;
    forall i | 0 <= i < |s| ensures s[i] in d {
      assert s[i] in multiset(d);
    }
  }

  /** A safe key followed by `=` never opens a block. */
  lemma SafeKeyNotOpen(k: string, rest: string)
    requires SafeKey(k)
    ensures !StartsWith(k + "=" + rest, "network={")
  {
    var t := k + "=" + rest;
    var open := "network={";
    if |t| >= 9 {
      if |k| < 7 {
        assert t[|k|] == '=';
        assert forall i :: 0 <= i < 7 ==> open[i] != '=';
        assert t[..9][|k|] != open[|k|];
      } else if |k| == 7 {
        assert t[..9][..7] == t[..7] == k;
        assert open[..7] == "network";
      } else {
        assert t[7] == k[7] != '=';
        assert t[..9][7] != open[7];
      }
    }
  }

  /** What is read from the text after `=` in a block: stripped, one quote pair off. */
  function ReadValue(v: string): string { Unquote(Strip(TrimRight(v))) }

  lemma ReadTrimmed(v: string)
    requires Trimmed(v)
    ensures Strip(TrimRight(v)) == v && ReadValue(v) == Unquote(v)
  {
    StripNoSpace(v);
  }

  // ----- single steps ----------------------------------------------------------------

  lemma EmptyStep(st: ParseState, line: string)
    requires line == ""
    ensures Step(st, line) == st
  {
  }

  /** A `# c` line outside a block queues `c`. */
  lemma CommentStep(st: ParseState, c: string)
    requires st.block.None? && Trimmed(c)
    ensures Step(st, "# " + c) == st.(comments := st.comments + [c])
  {
    var raw := "# " + c;
    if c == [] {
      assert raw == "# ";
      assert TrimRight(raw) == "#";
      assert Strip(raw) == "#";
    } else {
      assert Trimmed(raw);
      StripNoSpace(raw);
      assert raw[1..] == " " + c;
      TrimLeftPad(" ", c);
      StripNoSpace(c);
    }
  }

  lemma OpenStep(st: ParseState, line: string)
    requires line == "network={"
    ensures Step(st, line) == st.(block := Some(Default.(comments := st.comments)), comments := [])
  {
    StripNoSpace(line);
  }

  lemma CloseStep(st: ParseState, line: string)
    requires line == "}" && st.block.Some?
    ensures Step(st, line) ==
      st.(conf := st.conf.(networks := st.conf.networks + [st.block.value]), block := None)
  {
    StripNoSpace(line);
  }

  /** An indented assignment with a safe key strips to `k=` and the right-trimmed
      value, and is neither a comment, nor the start or the end of a block. */
  lemma SafeLine(pad: string, k: string, v: string)
    requires forall i :: 0 <= i < |pad| ==> IsSpace(pad[i])
    requires SafeKey(k)
    ensures Strip(pad + k + "=" + v) == k + "=" + TrimRight(v)
    ensures var t := k + "=" + TrimRight(v);
      t[0] != '#' && t[0] != '}' && !StartsWith(t, "network={")
  {
    AssignmentLine(pad, k, v);
    SafeKeyNotOpen(k, TrimRight(v));
    assert (k + "=" + TrimRight(v))[0] == k[0];
  }

  /** A line inside a block that is not a comment or a block delimiter is a parameter. */
  lemma BodyShape(st: ParseState, raw: string)
    requires st.block.Some? && Strip(raw) != []
    requires Strip(raw)[0] != '#' && Strip(raw)[0] != '}' && !StartsWith(Strip(raw), "network={")
    ensures Step(st, raw) == st.(block := Some(NetworkParam(Strip(raw), st.block.value)))
  {
  }

  /** `_parse_network_param` on `k=w` with a clean key. */
  lemma NetworkParamLine(m: Network, k: string, w: string)
    requires CleanKey(k)
    ensures NetworkParam(k + "=" + w, m) == SetParam(m, k, Unquote(Strip(w)))
  {
    var t := k + "=" + w;
    assert t == k + ['='] + w;
    IndexOfAfter(k, '=', w);
    assert t[..|k|] == k;
    assert t[|k| + 1..] == w;
    StripNoSpace(k);
  }

  /** A parameter line inside a block sets that parameter. */
  lemma BodyStep(st: ParseState, k: string, v: string)
    requires st.block.Some? && SafeKey(k)
    ensures Step(st, "    " + k + "=" + v) ==
      st.(block := Some(SetParam(st.block.value, k, ReadValue(v))))
  {
    SafeLine("    ", k, v);
    BodyShape(st, "    " + k + "=" + v);
    NetworkParamLine(st.block.value, k, TrimRight(v));
  }

  /** The state a global line sees once any queued header comments are taken. */
  function Freeze(st: ParseState): ParseState {
    if !st.seen && st.comments != [] then
      st.(conf := st.conf.(headerComments := st.comments), comments := [])
    else st
  }

  /** A non-comment line outside a block that does not open one is a global line. */
  lemma GlobalShape(st: ParseState, raw: string)
    requires st.block.None? && Strip(raw) != []
    requires Strip(raw)[0] != '#' && !StartsWith(Strip(raw), "network={")
    ensures Step(st, raw) == Freeze(st).(conf := GlobalParam(Strip(raw), Freeze(st).conf), seen := true)
  {
  }

  /** `_parse_global_param` on `k=w` with a clean key. */
  lemma GlobalParamLine(c: Conf, k: string, w: string)
    requires CleanKey(k)
    ensures GlobalParam(k + "=" + w, c) == SetGlobal(c, k, Strip(w))
  {
    var t := k + "=" + w;
    assert t == k + ['='] + w;
    IndexOfAfter(k, '=', w);
    assert t[..|k|] == k;
    assert t[|k| + 1..] == w;
    StripNoSpace(k);
  }

  /** An unindented assignment with a safe key strips to `k=` and the right-trimmed
      value, and is neither a comment nor the start of a block. */
  lemma GlobalLine(k: string, v: string)
    requires SafeKey(k)
    ensures Strip(k + "=" + v) == k + "=" + TrimRight(v)
    ensures var t := k + "=" + TrimRight(v); t[0] != '#' && !StartsWith(t, "network={")
  {
    var w := k + "=" + v;
    assert w[0] == k[0];
    assert TrimLeft(w) == w;
    TrimRightAppend(k + "=", v);
    SafeKeyNotOpen(k, TrimRight(v));
    assert (k + "=" + TrimRight(v))[0] == k[0];
  }

  /** A global line outside a block sets that setting. */
  lemma GlobalStep(st: ParseState, k: string, v: string)
    requires st.block.None? && SafeKey(k)
    ensures Step(st, k + "=" + v) ==
      Freeze(st).(conf := SetGlobal(Freeze(st).conf, k, Strip(TrimRight(v))), seen := true)
  {
    GlobalLine(k, v);
    GlobalShape(st, k + "=" + v);
    GlobalParamLine(Freeze(st).conf, k, TrimRight(v));
  }

  // ----- runs of lines -----------------------------------------------------------------

  lemma {:induction false} CommentsParse(st: ParseState, cs: seq<string>)
    requires st.block.None? && CommentsOk(cs)
    ensures ParseLines(st, CommentLines(cs)) == st.(comments := st.comments + cs)
    decreases |cs|
  {
    if cs == [] {
      assert CommentLines(cs) == [];
      assert st.comments + cs == st.comments;
    } else {
      var p := cs[..|cs| - 1];
      assert CommentLines(cs)[..|cs| - 1] == CommentLines(p);
      CommentsParse(st, p);
      CommentStep(st.(comments := st.comments + p), cs[|cs| - 1]);
      assert st.comments + p + [cs[|cs| - 1]] == st.comments + cs;
    }
  }

  /** The block fields a run of parameter lines produces. */
  function ApplyItems(m: Network, d: Params): Network
    decreases |d|
  {
    if d == [] then m
    else SetParam(ApplyItems(m, d[..|d| - 1]), d[|d| - 1].0, ReadValue(d[|d| - 1].1))
  }

  predicate SafeItems(d: Params) {
    forall i :: 0 <= i < |d| ==> SafeKey(d[i].0)
  }

  lemma {:induction false} BodyParse(st: ParseState, d: Params)
    requires st.block.Some? && SafeItems(d)
    ensures ParseLines(st, ParamLines(d)) == st.(block := Some(ApplyItems(st.block.value, d)))
    decreases |d|
  {
    if d == [] {
      assert ParamLines(d) == [];
    } else {
      var p := d[..|d| - 1];
      assert ParamLines(d)[..|d| - 1] == ParamLines(p);
      BodyParse(st, p);
      var last := d[|d| - 1];
      assert ParamLines(d)[|d| - 1] == "    " + last.0 + "=" + last.1;
      BodyStep(st.(block := Some(ApplyItems(st.block.value, p))), last.0, last.1);
    }
  }

  /** The settings a run of global lines produces. */
  function ApplyGlobals(c: Conf, d: Params): Conf
    decreases |d|
  {
    if d == [] then c
    else SetGlobal(ApplyGlobals(c, d[..|d| - 1]), d[|d| - 1].0, Strip(TrimRight(d[|d| - 1].1)))
  }

  lemma {:induction false} GlobalsParse(st: ParseState, d: Params)
    requires st.block.None? && SafeItems(d) && d != []
    ensures ParseLines(st, GlobalLines(d)) ==
      Freeze(st).(conf := ApplyGlobals(Freeze(st).conf, d), seen := true)
    decreases |d|
  {
    var p := d[..|d| - 1];
    var last := d[|d| - 1];
    assert GlobalLines(d)[..|d| - 1] == GlobalLines(p);
    assert GlobalLines(d)[|d| - 1] == last.0 + "=" + last.1;
    if p == [] {
      assert GlobalLines(p) == [];
      GlobalStep(st, last.0, last.1);
    } else {
      GlobalsParse(st, p);
      var mid := Freeze(st).(conf := ApplyGlobals(Freeze(st).conf, p), seen := true);
      GlobalStep(mid, last.0, last.1);
      assert Freeze(mid) == mid;
    }
  }

  lemma {:induction false} ApplyItemsAppend(m: Network, a: Params, b: Params)
    ensures ApplyItems(m, a + b) == ApplyItems(ApplyItems(m, a), b)
    decreases |b|
  {
    if b == [] {
      assert a + b == a;
    } else {
      assert (a + b)[..|a + b| - 1] == a + b[..|b| - 1];
      ApplyItemsAppend(m, a, b[..|b| - 1]);
    }
  }

  lemma {:induction false} ApplyGlobalsAppend(c: Conf, a: Params, b: Params)
    ensures ApplyGlobals(c, a + b) == ApplyGlobals(ApplyGlobals(c, a), b)
    decreases |b|
  {
    if b == [] {
      assert a + b == a;
    } else {
      assert (a + b)[..|a + b| - 1] == a + b[..|b| - 1];
      ApplyGlobalsAppend(c, a, b[..|b| - 1]);
    }
  }

  lemma SetParamOther(m: Network, k: string, v: string)
    requires k !in KnownKeys
    ensures SetParam(m, k, v) == m.(otherParams := DictSet(m.otherParams, k, v))
  {
    assert k != "ssid" && k != "psk" && k != "key_mgmt";
    assert k != "priority" && k != "scan_ssid" && k != "disabled";
  }

  /** Other parameters only ever touch `other_params`. */
  lemma {:induction false} ApplyOthers(m: Network, d: Params)
    requires forall i :: 0 <= i < |d| ==> d[i].0 !in KnownKeys
    ensures ApplyItems(m, d).(otherParams := m.otherParams) == m
    decreases |d|
  {
    if d != [] {
      var p := d[..|d| - 1];
      ApplyOthers(m, p);
      SetParamOther(ApplyItems(m, p), d[|d| - 1].0, ReadValue(d[|d| - 1].1));
    }
  }

  lemma SetGlobalOther(c: Conf, k: string, v: string)
    requires k !in SettingKeys
    ensures SetGlobal(c, k, v) == c.(globalParams := DictSet(c.globalParams, k, v))
  {
    assert k != "ctrl_interface" && k != "ctrl_interface_group" && k != "update_config";
  }

  /** Unknown global keys only ever touch `global_params`. */
  lemma {:induction false} ApplyGlobalOthers(c: Conf, d: Params)
    requires forall i :: 0 <= i < |d| ==> d[i].0 !in SettingKeys
    ensures ApplyGlobals(c, d).(globalParams := c.globalParams) == c
    decreases |d|
  {
    if d != [] {
      var p := d[..|d| - 1];
      ApplyGlobalOthers(c, p);
      SetGlobalOther(ApplyGlobals(c, p), d[|d| - 1].0, Strip(TrimRight(d[|d| - 1].1)));
    }
  }

  // ----- one network ---------------------------------------------------------------------

  /** What the parser rebuilds from the body of `n`'s block. */
  function Rebuilt(n: Network): Network {
    ApplyItems(Default.(comments := n.comments), BodyItems(n))
  }

  lemma SsidApplied(m: Network, n: Network)
    requires WritableNetwork(n)
    ensures ApplyItems(m, SsidItems(n)) == if Truthy(n.ssid) then m.(ssid := n.ssid) else m
  {
    if Truthy(n.ssid) {
      var q := Quote(n.ssid.value);
      assert SsidItems(n) == [("ssid", q)];
      assert SsidItems(n)[..0] == [];
      assert Trimmed(q);
      ReadTrimmed(q);
      UnquoteQuote(n.ssid.value);
    }
  }

  lemma PskApplied(m: Network, n: Network)
    requires WritableNetwork(n) && Truthy(n.psk)
    ensures ApplyItems(m, [("psk", PskText(n.psk.value))]) == m.(psk := n.psk)
  {
    var p := n.psk.value;
    var d := [("psk", PskText(p))];
    assert d[..0] == [];
    if IsHexPsk(p) {
      assert !IsSpace(p[0]) && !IsSpace(p[|p| - 1]);
      ReadTrimmed(p);
      assert p[0] != '"';
    } else {
      assert Trimmed(Quote(p));
      ReadTrimmed(Quote(p));
      UnquoteQuote(p);
    }
  }

  lemma ModeApplied(m: Network, n: Network)
    requires WritableNetwork(n)
    ensures ApplyItems(m, [("key_mgmt", n.keyMgmt)]) == m.(keyMgmt := n.keyMgmt)
  {
    var d := [("key_mgmt", n.keyMgmt)];
    assert d[..0] == [];
    ReadTrimmed(n.keyMgmt);
  }

  lemma NoneApplied(m: Network, line: (string, string))
    requires line == ("key_mgmt", "NONE")
    ensures ApplyItems(m, [line]) == m.(keyMgmt := "NONE")
  {
    assert [line][..0] == [];
    StripNoSpace(line.1);
  }

  lemma SecurityApplied(m: Network, n: Network)
    requires WritableNetwork(n) && m.keyMgmt == "WPA-PSK"
    ensures var r := ApplyItems(m, SecurityItems(n));
      r == m.(keyMgmt := n.keyMgmt,
              psk := if n.keyMgmt != "NONE" && Truthy(n.psk) then n.psk else m.psk)
  {
    if n.keyMgmt == "NONE" {
      NoneApplied(m, ("key_mgmt", "NONE"));
    } else {
      var a := if Truthy(n.psk) then [("psk", PskText(n.psk.value))] else [];
      var b := if n.keyMgmt != "WPA-PSK" then [("key_mgmt", n.keyMgmt)] else [];
      assert SecurityItems(n) == a + b;
      ApplyItemsAppend(m, a, b);
      if Truthy(n.psk) {
        PskApplied(m, n);
      }
      if n.keyMgmt != "WPA-PSK" {
        ModeApplied(ApplyItems(m, a), n);
      }
    }
  }

  lemma IntApplied(m: Network, key: string, i: int)
    requires key == "priority" || key == "scan_ssid"
    ensures var r := ApplyItems(m, [(key, IntToString(i))]);
      r == if key == "priority" then m.(priority := i) else m.(scanSsid := i)
  {
    var d := [(key, IntToString(i))];
    assert d[..0] == [];
    IntToStringText(i);
    ReadTrimmed(IntToString(i));
    IntToStringParses(i);
  }

  lemma DisabledApplied(m: Network, item: (string, string))
    requires item == ("disabled", "1")
    ensures ApplyItems(m, [item]) == m.(disabled := true)
  {
    assert [item][..0] == [];
    StripNoSpace(item.1);
  }

  lemma OptionsApplied(m: Network, n: Network)
    ensures var r := ApplyItems(m, OptionItems(n));
      r == m.(priority := if n.priority != 0 then n.priority else m.priority,
              scanSsid := if n.scanSsid != 0 then n.scanSsid else m.scanSsid,
              disabled := n.disabled || m.disabled)
  {
    var a := if n.priority != 0 then [("priority", IntToString(n.priority))] else [];
    var b := if n.scanSsid != 0 then [("scan_ssid", IntToString(n.scanSsid))] else [];
    var c := if n.disabled then [("disabled", "1")] else [];
    assert OptionItems(n) == a + b + c;
    ApplyItemsAppend(m, a + b, c);
    ApplyItemsAppend(m, a, b);
    if n.priority != 0 {
      IntApplied(m, "priority", n.priority);
    }
    if n.scanSsid != 0 {
      IntApplied(ApplyItems(m, a), "scan_ssid", n.scanSsid);
    }
    if n.disabled {
      DisabledApplied(ApplyItems(m, a + b), ("disabled", "1"));
    }
  }

  lemma KnownKeySafe(k: string)
    requires k in KnownKeys
    ensures SafeKey(k)
  {
    KnownKeysClean(k);
  }

  lemma SettingKeySafe(k: string)
    requires k in SettingKeys
    ensures SafeKey(k)
  {

  }

  lemma SafeItemsAppend(a: Params, b: Params)
    requires SafeItems(a) && SafeItems(b)
    ensures SafeItems(a + b)
  {
    forall i | 0 <= i < |a + b| ensures SafeKey((a + b)[i].0) {
      if i < |a| {
        assert (a + b)[i] == a[i];
      } else {
        assert (a + b)[i] == b[i - |a|];
      }
    }
  }

  lemma SortedSafe(d: Params)
    requires SafeItems(d)
    ensures SafeItems(SortByKey(d))
  {
    SortKeepsItems(d);
    forall i | 0 <= i < |SortByKey(d)| ensures SafeKey(SortByKey(d)[i].0) {
      assert SortByKey(d)[i] in d;
    }
  }

  lemma BodySafe(n: Network)
    requires WritableNetwork(n)
    ensures SafeItems(BodyItems(n))
  {
    var pre := SsidItems(n) + SecurityItems(n) + OptionItems(n);
    forall i | 0 <= i < |pre| ensures SafeKey(pre[i].0) {
      assert pre[i].0 in KnownKeys;
      KnownKeySafe(pre[i].0);
    }
    assert SafeItems(n.otherParams);
    SortedSafe(n.otherParams);
    SafeItemsAppend(pre, SortByKey(n.otherParams));
  }

  /** The parser rebuilds every listed field of a writable network. */
  lemma RebuiltRecovers(n: Network)
    requires WritableNetwork(n)
    ensures Recovered(n, Rebuilt(n))
  {
    var m0 := Default.(comments := n.comments);
    var s, e, o := SsidItems(n), SecurityItems(n), OptionItems(n);
    var ps := SortByKey(n.otherParams);
    assert BodyItems(n) == s + e + o + ps;
    ApplyItemsAppend(m0, s + e + o, ps);
    ApplyItemsAppend(m0, s + e, o);
    ApplyItemsAppend(m0, s, e);
    SsidApplied(m0, n);
    var m1 := ApplyItems(m0, s);
    SecurityApplied(m1, n);
    var m2 := ApplyItems(m1, e);
    OptionsApplied(m2, n);
    var m3 := ApplyItems(m2, o);
    SortKeepsItems(n.otherParams);
    forall i | 0 <= i < |ps| ensures ps[i].0 !in KnownKeys {
      assert ps[i] in n.otherParams;
    }
    ApplyOthers(m3, ps);
  }

  /** The lines of one block and the empty line after it. */
  function ChunkLines(n: Network): seq<string> { BlockLines(n) + [""] }

  /** The comments of a block and its `network={` line open a block that holds those
      comments. */
  lemma OpenParse(st: ParseState, n: Network)
    requires Idle(st) && CommentsOk(n.comments)
    ensures ParseLines(st, CommentLines(n.comments) + ["network={"]) ==
      st.(block := Some(Default.(comments := n.comments)))
  {
    var cl := CommentLines(n.comments);
    CommentsParse(st, n.comments);
    var s1 := st.(comments := n.comments);
    assert st.comments + n.comments == n.comments;
    ParseLinesAppend(st, cl, ["network={"]);
    assert ParseLines(s1, ["network={"]) == Step(s1, "network={") by {
      assert ["network={"][..0] == [];
    }
    OpenStep(s1, "network={");
  }

  /** The `}` line and the empty line after it append the block being read. */
  lemma CloseParse(s3: ParseState)
    requires s3.block.Some?
    ensures ParseLines(s3, ["}", ""]) ==
      s3.(conf := s3.conf.(networks := s3.conf.networks + [s3.block.value]), block := None)
  {
    var s4 := s3.(conf := s3.conf.(networks := s3.conf.networks + [s3.block.value]), block := None);
    ParseLinesAppend(s3, ["}"], [""]);
    assert ["}"] + [""] == ["}", ""];
    assert ParseLines(s3, ["}"]) == Step(s3, "}") by {
      assert ["}"][..0] == [];
    }
    CloseStep(s3, "}");
    assert ParseLines(s4, [""]) == Step(s4, "") by {
      assert [""][..0] == [];
    }
    EmptyStep(s4, "");
  }

  /** Parsing one block and the empty line after it appends the rebuilt network. */
  lemma ChunkParse(st: ParseState, n: Network)
    requires Idle(st) && WritableNetwork(n)
    ensures ParseLines(st, ChunkLines(n)) ==
      st.(conf := st.conf.(networks := st.conf.networks + [Rebuilt(n)]))
  {
    var head := CommentLines(n.comments) + ["network={"];
    var body := ParamLines(BodyItems(n));
    assert ChunkLines(n) == head + body + ["}", ""];
    OpenParse(st, n);
    var s2 := st.(block := Some(Default.(comments := n.comments)));
    BodySafe(n);
    BodyParse(s2, BodyItems(n));
    ParseLinesAppend(st, head, body);
    var s3 := st.(block := Some(Rebuilt(n)));
    ParseLinesAppend(st, head + body, ["}", ""]);
    CloseParse(s3);
  }

  /** The blocks as lines, each followed by an empty line. */
  function FlatChunks(ns: seq<Network>): seq<string>
    decreases |ns|
  {
    if ns == [] then [] else FlatChunks(ns[..|ns| - 1]) + ChunkLines(ns[|ns| - 1])
  }

  /** Groups of lines one after the other. */
  function ConcatLines(bs: seq<seq<string>>): seq<string>
    decreases |bs|
  {
    if bs == [] then [] else ConcatLines(bs[..|bs| - 1]) + bs[|bs| - 1]
  }

  function ChunkSeq(ns: seq<Network>): seq<seq<string>>
    decreases |ns|
  {
    if ns == [] then [] else ChunkSeq(ns[..|ns| - 1]) + [ChunkLines(ns[|ns| - 1])]
  }

  lemma {:induction false} ChunkSeqAt(ns: seq<Network>, i: nat)
    requires i < |ns|
    ensures |ChunkSeq(ns)| == |ns| && ChunkSeq(ns)[i] == ChunkLines(ns[i])
    decreases |ns|
  {
    if i < |ns| - 1 {
      ChunkSeqAt(ns[..|ns| - 1], i);
    } else if |ns| > 1 {
      ChunkSeqAt(ns[..|ns| - 1], 0);
    }
  }

  function RebuiltAll(ns: seq<Network>): seq<Network>
    decreases |ns|
  {
    if ns == [] then [] else RebuiltAll(ns[..|ns| - 1]) + [Rebuilt(ns[|ns| - 1])]
  }

  lemma {:induction false} RebuiltAllAt(ns: seq<Network>, i: nat)
    requires i < |ns|
    ensures |RebuiltAll(ns)| == |ns| && RebuiltAll(ns)[i] == Rebuilt(ns[i])
    decreases |ns|
  {
    if i < |ns| - 1 {
      RebuiltAllAt(ns[..|ns| - 1], i);
    } else if |ns| > 1 {
      RebuiltAllAt(ns[..|ns| - 1], 0);
    }
  }

  lemma {:induction false} FlatIsConcat(ns: seq<Network>)
    ensures FlatChunks(ns) == ConcatLines(ChunkSeq(ns))
    decreases |ns|
  {
    if ns != [] {
      var p := ns[..|ns| - 1];
      FlatIsConcat(p);
      var bs := ChunkSeq(ns);
      assert bs[..|bs| - 1] == ChunkSeq(p);
    }
  }

  /** Groups of lines that take each state of a chain to the next take the first state
      of the chain to the last. */
  lemma {:induction false} ParseChain(bs: seq<seq<string>>, ss: seq<ParseState>)
    requires |ss| == |bs| + 1
    requires forall i :: 0 <= i < |bs| ==> ParseLines(ss[i], bs[i]) == ss[i + 1]
    ensures ParseLines(ss[0], ConcatLines(bs)) == ss[|bs|]
    decreases |bs|
  {
    if bs != [] {
      var k := |bs| - 1;
      ParseChain(bs[..k], ss[..k + 1]);
      ParseLinesAppend(ss[0], ConcatLines(bs[..k]), bs[k]);
    }
  }

  /** The state after parsing the first `i` blocks. */
  function After(st: ParseState, rs: seq<Network>, i: nat): ParseState
    requires i <= |rs|
  {
    st.(conf := st.conf.(networks := st.conf.networks + rs[..i]))
  }

  /** A state outside any block with nothing queued. */
  predicate Idle(s: ParseState) { s.block.None? && s.comments == [] }

  lemma AfterNext(st: ParseState, rs: seq<Network>, i: nat)
    requires i < |rs|
    ensures After(st, rs, i).(conf := After(st, rs, i).conf.(networks := After(st, rs, i).conf.networks + [rs[i]]))
      == After(st, rs, i + 1)
  {
    assert rs[..i + 1] == rs[..i] + [rs[i]];
    assert st.conf.networks + rs[..i] + [rs[i]] == st.conf.networks + rs[..i + 1];
  }

  lemma ChainLink(st: ParseState, ns: seq<Network>, i: nat)
    requires Idle(st) && i < |ns| && WritableNetwork(ns[i])
    ensures |RebuiltAll(ns)| == |ns| == |ChunkSeq(ns)|
    ensures ParseLines(After(st, RebuiltAll(ns), i), ChunkSeq(ns)[i]) == After(st, RebuiltAll(ns), i + 1)
  {
    ChunkSeqAt(ns, i);
    RebuiltAllAt(ns, i);
    AfterNext(st, RebuiltAll(ns), i);
    ChunkParse(After(st, RebuiltAll(ns), i), ns[i]);
  }

  lemma RecoveredAt(ns: seq<Network>, i: nat)
    requires i < |ns| && WritableNetwork(ns[i])
    ensures |RebuiltAll(ns)| == |ns| && Recovered(ns[i], RebuiltAll(ns)[i])
  {
    RebuiltAllAt(ns, i);
    RebuiltRecovers(ns[i]);
  }

  lemma {:induction false} ChunkSeqLength(ns: seq<Network>)
    ensures |ChunkSeq(ns)| == |ns| == |RebuiltAll(ns)|
    decreases |ns|
  {
    if ns != [] {
      ChunkSeqLength(ns[..|ns| - 1]);
    }
  }

  /** One more group of lines extends a parsed chain by one state. */
  lemma ChainStep(st: ParseState, bs: seq<seq<string>>, rs: seq<Network>, k: nat)
    requires 0 < k <= |bs| && k <= |rs|
    requires ParseLines(st, ConcatLines(bs[..k - 1])) == After(st, rs, k - 1)
    requires ParseLines(After(st, rs, k - 1), bs[k - 1]) == After(st, rs, k)
    ensures ParseLines(st, ConcatLines(bs[..k])) == After(st, rs, k)
  {
    assert bs[..k][..k - 1] == bs[..k - 1];
    assert ConcatLines(bs[..k]) == ConcatLines(bs[..k - 1]) + bs[k - 1];
    ParseLinesAppend(st, ConcatLines(bs[..k - 1]), bs[k - 1]);
  }

  /** The first `k` blocks, as groups of lines, parse one after the other. */
  lemma {:induction false} ChunkSeqParse(st: ParseState, ns: seq<Network>, k: nat)
    requires Idle(st) && k <= |ns|
    requires forall i :: 0 <= i < |ns| ==> WritableNetwork(ns[i])
    ensures |RebuiltAll(ns)| == |ns| == |ChunkSeq(ns)|
    ensures ParseLines(st, ConcatLines(ChunkSeq(ns)[..k])) == After(st, RebuiltAll(ns), k)
    decreases k
  {
    ChunkSeqLength(ns);
    if k == 0 {
      assert ChunkSeq(ns)[..0] == [];
      assert RebuiltAll(ns)[..0] == [];
      assert st.conf.networks + [] == st.conf.networks;
    } else {
      ChunkSeqParse(st, ns, k - 1);
      ChainLink(st, ns, k - 1);
      ChainStep(st, ChunkSeq(ns), RebuiltAll(ns), k);
    }
  }

  /** All the blocks as flat lines parse to the rebuilt networks, in order. */
  lemma FlatChunksParse(st: ParseState, ns: seq<Network>)
    requires Idle(st)
    requires forall i :: 0 <= i < |ns| ==> WritableNetwork(ns[i])
    ensures |RebuiltAll(ns)| == |ns|
    ensures ParseLines(st, FlatChunks(ns)) == After(st, RebuiltAll(ns), |ns|)
  {
    ChunkSeqParse(st, ns, |ns|);
    FlatIsConcat(ns);
    assert ChunkSeq(ns)[..|ns|] == ChunkSeq(ns);
  }

  lemma RebuiltAllRecovers(ns: seq<Network>)
    requires forall i :: 0 <= i < |ns| ==> WritableNetwork(ns[i])
    ensures |RebuiltAll(ns)| == |ns|
    ensures forall i :: 0 <= i < |ns| ==> Recovered(ns[i], RebuiltAll(ns)[i])
  {
    if ns != [] {
      RebuiltAllAt(ns, 0);
    }
    forall i | 0 <= i < |ns| ensures Recovered(ns[i], RebuiltAll(ns)[i]) {
      RecoveredAt(ns, i);
    }
  }

  /** Parsing the blocks, from a state outside any block with nothing queued, appends
      one network per block, each recovering its original. */
  lemma ChunksParse(st: ParseState, ns: seq<Network>) returns (rs: seq<Network>)
    requires Idle(st)
    requires forall i :: 0 <= i < |ns| ==> WritableNetwork(ns[i])
    ensures ParseLines(st, FlatChunks(ns)) == st.(conf := st.conf.(networks := st.conf.networks + rs))
    ensures |rs| == |ns| && forall i :: 0 <= i < |ns| ==> Recovered(ns[i], rs[i])
  {
    rs := RebuiltAll(ns);
    FlatChunksParse(st, ns);
    RebuiltAllRecovers(ns);
    assert rs[..|ns|] == rs;
  }

  // ----- the whole file ----------------------------------------------------------------

  /** The items of the settings lines, as (key, text after `=`). */
  function SettingItems(c: Conf): Params {
    (if Truthy(c.ctrlInterface) then [("ctrl_interface", c.ctrlInterface.value)] else []) +
    (if Truthy(c.ctrlInterfaceGroup) then [("ctrl_interface_group", c.ctrlInterfaceGroup.value)] else []) +
    [("update_config", IntToString(c.updateConfig))] +
    SortByKey(c.globalParams)
  }

  lemma SettingLinesItems(c: Conf)
    ensures SettingLines(c) == GlobalLines(SettingItems(c))
  {
    var a := if Truthy(c.ctrlInterface) then [("ctrl_interface", c.ctrlInterface.value)] else [];
    var b := if Truthy(c.ctrlInterfaceGroup) then [("ctrl_interface_group", c.ctrlInterfaceGroup.value)] else [];
    var u := [("update_config", IntToString(c.updateConfig))];
    var g := SortByKey(c.globalParams);
    if Truthy(c.ctrlInterface) {
      var v := c.ctrlInterface.value;
      assert "ctrl_interface" + "=" + v == "ctrl_interface=" + v;
      assert GlobalLines(a) == ["ctrl_interface=" + v];
    }
    if Truthy(c.ctrlInterfaceGroup) {
      var v := c.ctrlInterfaceGroup.value;
      assert "ctrl_interface_group" + "=" + v == "ctrl_interface_group=" + v;
      assert GlobalLines(b) == ["ctrl_interface_group=" + v];
    }
    var w := IntToString(c.updateConfig);
    assert "update_config" + "=" + w == "update_config=" + w;
    assert GlobalLines(u) == ["update_config=" + w];
    GlobalLinesAppend(a, b);
    GlobalLinesAppend(a + b, u);
    GlobalLinesAppend(a + b + u, g);
  }

  lemma GlobalLinesAppend(a: Params, b: Params)
    ensures GlobalLines(a + b) == GlobalLines(a) + GlobalLines(b)
  {
  }

  lemma SettingsSafe(c: Conf)
    requires Writable(c)
    ensures SafeItems(SettingItems(c))
  {
    var g := SortByKey(c.globalParams);
    var pre := SettingItems(c)[..|SettingItems(c)| - |g|];
    assert SettingItems(c) == pre + g;
    forall i | 0 <= i < |pre| ensures SafeKey(pre[i].0) {
      assert pre[i].0 in SettingKeys;
      SettingKeySafe(pre[i].0);
    }
    assert SafeItems(c.globalParams);
    SortedSafe(c.globalParams);
    SafeItemsAppend(pre, g);
  }

  /** The settings rebuilt from the settings lines, starting from a fresh handler
      that has taken the header. */
  lemma SettingsApplied(c: Conf, h: seq<string>)
    requires Writable(c)
    ensures var r := ApplyGlobals(Fresh.(headerComments := h), SettingItems(c));
      r.ctrlInterface == (if Truthy(c.ctrlInterface) then c.ctrlInterface else None) &&
      r.ctrlInterfaceGroup == (if Truthy(c.ctrlInterfaceGroup) then c.ctrlInterfaceGroup else None) &&
      r.updateConfig == c.updateConfig && r.headerComments == h && r.networks == []
  {
    var c0 := Fresh.(headerComments := h);
    var a := if Truthy(c.ctrlInterface) then [("ctrl_interface", c.ctrlInterface.value)] else [];
    var b := if Truthy(c.ctrlInterfaceGroup) then [("ctrl_interface_group", c.ctrlInterfaceGroup.value)] else [];
    var u := [("update_config", IntToString(c.updateConfig))];
    var g := SortByKey(c.globalParams);
    ApplyGlobalsAppend(c0, a + b + u, g);
    ApplyGlobalsAppend(c0, a + b, u);
    ApplyGlobalsAppend(c0, a, b);
    if Truthy(c.ctrlInterface) {
      assert a[..0] == [];
      ReadTrimmedSetting(c.ctrlInterface.value);
    }
    if Truthy(c.ctrlInterfaceGroup) {
      assert b[..0] == [];
      ReadTrimmedSetting(c.ctrlInterfaceGroup.value);
    }
    assert u[..0] == [];
    IntToStringText(c.updateConfig);
    ReadTrimmedSetting(IntToString(c.updateConfig));
    IntToStringParses(c.updateConfig);
    SortKeepsItems(c.globalParams);
    forall i | 0 <= i < |g| ensures g[i].0 !in SettingKeys {
      assert g[i] in c.globalParams;
    }
    ApplyGlobalOthers(ApplyGlobals(c0, a + b + u), g);
  }

  lemma ReadTrimmedSetting(v: string)
    requires Trimmed(v)
    ensures Strip(TrimRight(v)) == v
  {
    StripNoSpace(v);
  }

  /** The generated file as one line per element. */
  function FlatLines(c: Conf): seq<string> {
    HeaderLines(c) + SettingLines(c) + [""] + FlatChunks(c.networks)
  }

  /** Each block joined into one element, followed by an empty element. */
  function JoinedBlocks(bs: seq<seq<string>>): seq<string>
    decreases |bs|
  {
    if bs == [] then [] else JoinedBlocks(bs[..|bs| - 1]) + [Join("\n", bs[|bs| - 1]), ""]
  }

  /** Each block's lines, followed by an empty line. */
  function FlatBlocks(bs: seq<seq<string>>): seq<string>
    decreases |bs|
  {
    if bs == [] then [] else FlatBlocks(bs[..|bs| - 1]) + bs[|bs| - 1] + [""]
  }

  lemma {:induction false} JoinBlocks(pre: seq<string>, bs: seq<seq<string>>)
    requires pre != [] && forall i :: 0 <= i < |bs| ==> bs[i] != []
    ensures Join("\n", pre + JoinedBlocks(bs)) == Join("\n", pre + FlatBlocks(bs))
    decreases |bs|
  {
    if bs == [] {
      assert pre + JoinedBlocks(bs) == pre == pre + FlatBlocks(bs);
    } else {
      var p := bs[..|bs| - 1];
      var b := bs[|bs| - 1];
      JoinBlocks(pre, p);
      BlocksLast(pre, bs);
      JoinBlock(pre + JoinedBlocks(p), pre + FlatBlocks(p), b);
    }
  }

  lemma BlocksLast(pre: seq<string>, bs: seq<seq<string>>)
    requires bs != []
    ensures var p, b := bs[..|bs| - 1], bs[|bs| - 1];
      pre + JoinedBlocks(bs) == (pre + JoinedBlocks(p)) + [Join("\n", b), ""] &&
      pre + FlatBlocks(bs) == (pre + FlatBlocks(p)) + (b + [""])
  {
  }

  /** Adding a joined block and an empty line on one side, and the block's lines and
      an empty line on the other, keeps two equal joins equal. */
  lemma JoinBlock(x: seq<string>, y: seq<string>, b: seq<string>)
    requires x != [] && y != [] && b != [] && Join("\n", x) == Join("\n", y)
    ensures Join("\n", x + [Join("\n", b), ""]) == Join("\n", y + (b + [""]))
  {
    JoinAppend("\n", x, [Join("\n", b), ""]);
    JoinAppend("\n", y, b + [""]);
    JoinAppend("\n", b, [""]);
  }

  function AllBlockLines(ns: seq<Network>): (r: seq<seq<string>>)
    ensures |r| == |ns| && forall i :: 0 <= i < |ns| ==> r[i] == BlockLines(ns[i])
  {
    seq(|ns|, i requires 0 <= i < |ns| => BlockLines(ns[i]))
  }

  lemma {:induction false} ChunksAreBlocks(ns: seq<Network>)
    ensures NetworkChunks(ns) == JoinedBlocks(AllBlockLines(ns))
    ensures FlatChunks(ns) == FlatBlocks(AllBlockLines(ns))
    decreases |ns|
  {
    if ns != [] {
      var p := ns[..|ns| - 1];
      ChunksAreBlocks(p);
      assert AllBlockLines(ns)[..|ns| - 1] == AllBlockLines(p);
    }
  }

  predicate OneLines(ls: seq<string>) {
    forall i :: 0 <= i < |ls| ==> HasNo(ls[i], '\n')
  }

  predicate ItemsOneLine(d: Params) {
    forall i :: 0 <= i < |d| ==> HasNo(d[i].0, '\n') && HasNo(d[i].1, '\n')
  }

  lemma HasNoConcat(a: string, b: string)
    requires HasNo(a, '\n') && HasNo(b, '\n')
    ensures HasNo(a + b, '\n')
  {
  }

  lemma OneLinesAppend(a: seq<string>, b: seq<string>)
    requires OneLines(a) && OneLines(b)
    ensures OneLines(a + b)
  {
    forall i | 0 <= i < |a + b| ensures HasNo((a + b)[i], '\n') {
      if i < |a| {
        assert (a + b)[i] == a[i];
      } else {
        assert (a + b)[i] == b[i - |a|];
      }
    }
  }

  lemma ItemsAppend(a: Params, b: Params)
    requires ItemsOneLine(a) && ItemsOneLine(b)
    ensures ItemsOneLine(a + b)
  {
    forall i | 0 <= i < |a + b| ensures HasNo((a + b)[i].0, '\n') && HasNo((a + b)[i].1, '\n') {
      if i < |a| {
        assert (a + b)[i] == a[i];
      } else {
        assert (a + b)[i] == b[i - |a|];
      }
    }
  }

  lemma SortedItemsOneLine(d: Params)
    requires ItemsOneLine(d)
    ensures ItemsOneLine(SortByKey(d))
  {
    SortKeepsItems(d);
    forall i | 0 <= i < |SortByKey(d)|
      ensures HasNo(SortByKey(d)[i].0, '\n') && HasNo(SortByKey(d)[i].1, '\n')
    {
      assert SortByKey(d)[i] in d;
    }
  }

  lemma QuoteOneLine(s: string)
    requires HasNo(s, '\n')
    ensures HasNo(Quote(s), '\n')
  {
    HasNoConcat("\"", s);
    HasNoConcat("\"" + s, "\"");
  }

  lemma AssignmentOneLine(pad: string, k: string, v: string)
    requires HasNo(pad, '\n') && HasNo(k, '\n') && HasNo(v, '\n')
    ensures HasNo(pad + k + "=" + v, '\n')
  {
    HasNoConcat(pad, k);
    HasNoConcat(pad + k, "=");
    HasNoConcat(pad + k + "=", v);
  }

  lemma ParamLinesOneLine(d: Params)
    requires ItemsOneLine(d)
    ensures OneLines(ParamLines(d))
  {
    forall i | 0 <= i < |d| ensures HasNo(ParamLines(d)[i], '\n') {
      AssignmentOneLine("    ", d[i].0, d[i].1);
    }
  }

  lemma GlobalLinesOneLine(d: Params)
    requires ItemsOneLine(d)
    ensures OneLines(GlobalLines(d))
  {
    forall i | 0 <= i < |d| ensures HasNo(GlobalLines(d)[i], '\n') {
      AssignmentOneLine("", d[i].0, d[i].1);
      assert "" + d[i].0 + "=" + d[i].1 == GlobalLines(d)[i];
    }
  }

  lemma CommentLinesOneLine(cs: seq<string>)
    requires CommentsOk(cs)
    ensures OneLines(CommentLines(cs))
  {
    forall i | 0 <= i < |cs| ensures HasNo(CommentLines(cs)[i], '\n') {
      HasNoConcat("# ", cs[i]);
    }
  }

  lemma SsidOneLine(n: Network)
    requires WritableNetwork(n)
    ensures ItemsOneLine(SsidItems(n))
  {
    if Truthy(n.ssid) {
      QuoteOneLine(n.ssid.value);
    }
  }

  lemma SecurityOneLine(n: Network)
    requires WritableNetwork(n)
    ensures ItemsOneLine(SecurityItems(n))
  {
    if Truthy(n.psk) {
      QuoteOneLine(n.psk.value);
      assert HasNo(PskText(n.psk.value), '\n');
    }
  }

  lemma OptionsOneLine(n: Network)
    ensures ItemsOneLine(OptionItems(n))
  {
    IntToStringText(n.priority);
    IntToStringText(n.scanSsid);
  }

  lemma BodyItemsOneLine(n: Network)
    requires WritableNetwork(n)
    ensures ItemsOneLine(BodyItems(n))
  {
    var s, e, o := SsidItems(n), SecurityItems(n), OptionItems(n);
    SsidOneLine(n);
    SecurityOneLine(n);
    OptionsOneLine(n);
    assert ItemsOneLine(n.otherParams);
    SortedItemsOneLine(n.otherParams);
    ItemsAppend(s, e);
    ItemsAppend(s + e, o);
    ItemsAppend(s + e + o, SortByKey(n.otherParams));
  }

  lemma BodyOneLine(n: Network)
    requires WritableNetwork(n)
    ensures OneLines(BlockLines(n))
  {
    CommentLinesOneLine(n.comments);
    BodyItemsOneLine(n);
    ParamLinesOneLine(BodyItems(n));
    var cl, body := CommentLines(n.comments), ParamLines(BodyItems(n));
    OneLinesAppend(cl, ["network={"]);
    OneLinesAppend(cl + ["network={"], body);
    OneLinesAppend(cl + ["network={"] + body, ["}"]);
  }

  lemma {:induction false} ChunksOneLine(ns: seq<Network>)
    requires forall i :: 0 <= i < |ns| ==> WritableNetwork(ns[i])
    ensures OneLines(FlatChunks(ns))
    decreases |ns|
  {
    if ns != [] {
      var p := ns[..|ns| - 1];
      ChunksOneLine(p);
      BodyOneLine(ns[|ns| - 1]);
      OneLinesAppend(BlockLines(ns[|ns| - 1]), [""]);
      OneLinesAppend(FlatChunks(p), ChunkLines(ns[|ns| - 1]));
    }
  }

  lemma SettingsOneLine(c: Conf)
    requires Writable(c)
    ensures OneLines(SettingLines(c))
  {
    SettingItemsOneLine(c);
    SettingLinesItems(c);
    GlobalLinesOneLine(SettingItems(c));
  }

  lemma SettingItemsOneLine(c: Conf)
    requires Writable(c)
    ensures ItemsOneLine(SettingItems(c))
  {
    var a := if Truthy(c.ctrlInterface) then [("ctrl_interface", c.ctrlInterface.value)] else [];
    var b := if Truthy(c.ctrlInterfaceGroup) then [("ctrl_interface_group", c.ctrlInterfaceGroup.value)] else [];
    var u := [("update_config", IntToString(c.updateConfig))];
    IntToStringText(c.updateConfig);
    assert ItemsOneLine(a) && ItemsOneLine(b) && ItemsOneLine(u);
    assert ItemsOneLine(c.globalParams);
    SortedItemsOneLine(c.globalParams);
    ItemsAppend(a, b);
    ItemsAppend(a + b, u);
    ItemsAppend(a + b + u, SortByKey(c.globalParams));
    assert SettingItems(c) == a + b + u + SortByKey(c.globalParams);
  }

  lemma FlatOneLine(c: Conf)
    requires Writable(c)
    ensures OneLines(FlatLines(c))
  {
    CommentLinesOneLine(c.headerComments);
    var h := HeaderLines(c);
    OneLinesAppend(CommentLines(c.headerComments), if c.headerComments != [] then [""] else []);
    SettingsOneLine(c);
    ChunksOneLine(c.networks);
    OneLinesAppend(h, SettingLines(c));
    OneLinesAppend(h + SettingLines(c), [""]);
    OneLinesAppend(h + SettingLines(c) + [""], FlatChunks(c.networks));
  }

  /** The generated text splits back into the flat lines. */
  lemma GeneratedLines(c: Conf)
    requires Writable(c)
    ensures Split(Generate(c), '\n') == FlatLines(c)
  {
    var pre := HeaderLines(c) + SettingLines(c);
    assert pre != [] by {
      assert |SettingLines(c)| > 0;
    }
    assert ContentLines(c) == (pre + [""]) + NetworkChunks(c.networks);
    ChunksAreBlocks(c.networks);
    JoinBlocks(pre + [""], AllBlockLines(c.networks));
    assert FlatLines(c) == (pre + [""]) + FlatChunks(c.networks);
    FlatOneLine(c);
    SplitJoin(FlatLines(c), '\n');
  }

  /** The header part: the comments are queued, the empty line after them changes
      nothing. */
  lemma HeaderParse(c: Conf)
    requires CommentsOk(c.headerComments)
    ensures ParseLines(Start(Fresh), HeaderLines(c)) == Start(Fresh).(comments := c.headerComments)
  {
    var st := Start(Fresh);
    CommentsParse(st, c.headerComments);
    assert [] + c.headerComments == c.headerComments;
    if c.headerComments != [] {
      var s1 := st.(comments := c.headerComments);
      ParseLinesAppend(st, CommentLines(c.headerComments), [""]);
      assert ParseLines(s1, [""]) == Step(s1, "") by {
        assert [""][..0] == [];
      }
      EmptyStep(s1, "");
    } else {
      assert HeaderLines(c) == CommentLines(c.headerComments);
    }
  }

  /** The header, the settings and the empty line after them leave the parser outside
      any block with nothing queued and the settings applied. */
  lemma PrefixParse(c: Conf) returns (s2: ParseState)
    requires Writable(c)
    ensures ParseLines(Start(Fresh), HeaderLines(c) + SettingLines(c) + [""]) == s2
    ensures Idle(s2) && s2.seen && s2.conf.networks == []
    ensures s2.conf.ctrlInterface == (if Truthy(c.ctrlInterface) then c.ctrlInterface else None)
    ensures s2.conf.ctrlInterfaceGroup ==
      (if Truthy(c.ctrlInterfaceGroup) then c.ctrlInterfaceGroup else None)
    ensures s2.conf.updateConfig == c.updateConfig && s2.conf.headerComments == c.headerComments
  {
    var st := Start(Fresh);
    var h := HeaderLines(c);
    var s := SettingLines(c);
    HeaderParse(c);
    var s1 := st.(comments := c.headerComments);
    SettingLinesItems(c);
    SettingsSafe(c);
    GlobalsParse(s1, SettingItems(c));
    var f := Freeze(s1);
    assert f.conf == Fresh.(headerComments := c.headerComments) && f.comments == [] by {
      if c.headerComments == [] {
        assert f == s1;
      }
    }
    SettingsApplied(c, c.headerComments);
    s2 := f.(conf := ApplyGlobals(f.conf, SettingItems(c)), seen := true);
    ParseLinesAppend(st, h, s);
    ParseLinesAppend(st, h + s, [""]);
    assert ParseLines(s2, [""]) == Step(s2, "") by {
      assert [""][..0] == [];
    }
    EmptyStep(s2, "");
  }

  /** Parsing the flat lines of a writable configuration gives back its header, its
      settings and, in order, every network. */
  lemma FlatParse(c: Conf) returns (r: Conf)
    requires Writable(c)
    ensures Finish(ParseLines(Start(Fresh), FlatLines(c))) == r
    ensures r.ctrlInterface == (if Truthy(c.ctrlInterface) then c.ctrlInterface else None)
    ensures r.ctrlInterfaceGroup == (if Truthy(c.ctrlInterfaceGroup) then c.ctrlInterfaceGroup else None)
    ensures r.updateConfig == c.updateConfig && r.headerComments == c.headerComments
    ensures |r.networks| == |c.networks|
    ensures forall i :: 0 <= i < |c.networks| ==> Recovered(c.networks[i], r.networks[i])
  {
    var pre := HeaderLines(c) + SettingLines(c) + [""];
    var s2 := PrefixParse(c);
    var rs := ChunksParse(s2, c.networks);
    ParseLinesAppend(Start(Fresh), pre, FlatChunks(c.networks));
    var s3 := s2.(conf := s2.conf.(networks := s2.conf.networks + rs));
    assert ParseLines(Start(Fresh), FlatLines(c)) == s3;
    assert s3.conf.networks == rs;
    r := s3.conf;
  }

  /** `_generate_content` followed by `_parse_content` on a fresh handler gives back
      the header, the control interface settings, `update_config` and, in order,
      every network with its comments, ssid, psk, mode, priority, scan flag and
      disabled flag. */
  lemma GenerateThenParse(c: Conf)
    requires Writable(c)
    ensures var r := ParseContent(Fresh, Generate(c));
      r.ctrlInterface == (if Truthy(c.ctrlInterface) then c.ctrlInterface else None) &&
      r.ctrlInterfaceGroup == (if Truthy(c.ctrlInterfaceGroup) then c.ctrlInterfaceGroup else None) &&
      r.updateConfig == c.updateConfig &&
      r.headerComments == c.headerComments &&
      |r.networks| == |c.networks| &&
      forall i :: 0 <= i < |c.networks| ==> Recovered(c.networks[i], r.networks[i])
  {
    GeneratedLines(c);
    var r := FlatParse(c);
  }
}
