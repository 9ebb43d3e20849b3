/** One `network={ ... }` block of wpa_supplicant.conf: the record the handler keeps
    for it, the text `to_block` renders, and how one `key=value` line inside a block
    updates the record while it is parsed. */
module WpaNetworks {
  import opened Wrappers
  import opened Text
  import opened ConfigLines

  /** A Python `dict` of strings, as its items in insertion order. */
  type Params = seq<(string, string)>

  datatype Network = Network(
    ssid: Option<string>,
    psk: Option<string>,
    keyMgmt: string,
    priority: int,
    scanSsid: int,
    disabled: bool,
    otherParams: Params,
    comments: seq<string>)

  /** A fresh `WPANetwork()`: no ssid or psk, WPA-PSK, priority 0, not hidden, enabled. */
  const Default: Network := Network(None, None, "WPA-PSK", 0, 0, false, [], [])

  /** The keys a block line can set other than through `other_params`. */
  const KnownKeys: set<string> := {"ssid", "psk", "key_mgmt", "priority", "scan_ssid", "disabled"}

  // ----- dictionaries -----------------------------------------------------------

  function Lookup(d: Params, k: string): Option<string> {
    if d == [] then None else if d[0].0 == k then Some(d[0].1) else Lookup(d[1..], k)
  }

  /** `d[k] = v`: the value is replaced in place when `k` is present, else appended. */
  function DictSet(d: Params, k: string, v: string): (r: Params)
    ensures Lookup(r, k) == Some(v)
    ensures forall j :: j != k ==> Lookup(r, j) == Lookup(d, j)
    ensures Lookup(d, k).None? ==> r == d + [(k, v)]
    ensures Lookup(d, k).Some? ==> |r| == |d|
  {
    if d == [] then [(k, v)]
    else if d[0].0 == k then [(k, v)] + d[1..]
    else [d[0]] + DictSet(d[1..], k, v)
  }

  // ----- sorting the items of a dictionary --------------------------------------

  predicate SortedByKey(d: Params) {
    forall i, j :: 0 <= i < j < |d| ==> LessEq(d[i].0, d[j].0)
  }

  function InsertByKey(p: (string, string), d: Params): Params {
    if d == [] then [p]
    else if LessEq(p.0, d[0].0) then [p] + d
    else [d[0]] + InsertByKey(p, d[1..])
  }

  /** `sorted(d.items())`. The keys of a dict are distinct, so only keys are compared. */
  function SortByKey(d: Params): Params {
    if d == [] then [] else InsertByKey(d[0], SortByKey(d[1..]))
  }

  lemma {:induction false} InsertByKeyPerm(p: (string, string), d: Params)
    ensures multiset(InsertByKey(p, d)) == multiset(d) + multiset{p}
  {
    if d != [] && !LessEq(p.0, d[0].0) {
      InsertByKeyPerm(p, d[1..]);
      assert d == [d[0]] + d[1..];
    }
  }

  /** A lower bound of `p`'s key and of every key of `d` bounds every key after the
      insertion. */
  lemma {:induction false} InsertByKeyBound(b: string, p: (string, string), d: Params)
    requires LessEq(b, p.0) && forall i :: 0 <= i < |d| ==> LessEq(b, d[i].0)
    ensures var r := InsertByKey(p, d);
      |r| == |d| + 1 && forall i :: 0 <= i < |r| ==> LessEq(b, r[i].0)
  {
    if d != [] && !LessEq(p.0, d[0].0) {
      InsertByKeyBound(b, p, d[1..]);
      var t := InsertByKey(p, d[1..]);
      forall i | 0 <= i < 1 + |t| ensures LessEq(b, ([d[0]] + t)[i].0) {
        if i > 0 {
          assert ([d[0]] + t)[i] == t[i - 1];
        }
      }
    }
  }

  lemma {:induction false} InsertByKeySorted(p: (string, string), d: Params)
    requires SortedByKey(d)
    ensures SortedByKey(InsertByKey(p, d))
  {
    if d == [] {
    } else if LessEq(p.0, d[0].0) {
      var r := [p] + d;
      forall i, j | 0 <= i < j < |r| ensures LessEq(r[i].0, r[j].0) {
        if i == 0 && j > 1 {
          LessEqTrans(p.0, d[0].0, d[j - 1].0);
        }
      }
    } else {
      var t := InsertByKey(p, d[1..]);
      InsertByKeySorted(p, d[1..]);
      LessEqTotal(p.0, d[0].0);
      assert forall i :: 0 <= i < |d[1..]| ==> d[1..][i] == d[i + 1];
      InsertByKeyBound(d[0].0, p, d[1..]);
      var r := [d[0]] + t;
      forall i, j | 0 <= i < j < |r| ensures LessEq(r[i].0, r[j].0) {
        assert r[j] == t[j - 1];
        if i > 0 {
          assert r[i] == t[i - 1];
        }
      }
    }
  }

  /** The rendered parameters come out in key order and are the same items. */
  lemma {:induction false} SortByKeyCorrect(d: Params)
    ensures SortedByKey(SortByKey(d))
    ensures multiset(SortByKey(d)) == multiset(d)
  {
    if d != [] {
      SortByKeyCorrect(d[1..]);
      InsertByKeySorted(d[0], SortByKey(d[1..]));
      InsertByKeyPerm(d[0], SortByKey(d[1..]));
      assert d == [d[0]] + d[1..];
    }
  }

  // ----- to_block ---------------------------------------------------------------

  /** A psk of exactly 64 hexadecimal digits is a raw key and is written unquoted. */
  predicate IsHexPsk(psk: string) {
    |psk| == 64 && forall i :: 0 <= i < |psk| ==> IsHexDigit(psk[i])
  }

  function Quote(s: string): string { "\"" + s + "\"" }

  /** How a non-empty psk is written after `psk=`. */
  function PskText(psk: string): string {
    if IsHexPsk(psk) then psk else Quote(psk)
  }

  function SsidItems(n: Network): Params {
    if Truthy(n.ssid) then [("ssid", Quote(n.ssid.value))] else []
  }

  function SecurityItems(n: Network): Params {
    if n.keyMgmt == "NONE" then [("key_mgmt", "NONE")]
    else
      (if Truthy(n.psk) then [("psk", PskText(n.psk.value))] else []) +
      (if n.keyMgmt != "WPA-PSK" then [("key_mgmt", n.keyMgmt)] else [])
  }

  function OptionItems(n: Network): Params {
    (if n.priority != 0 then [("priority", IntToString(n.priority))] else []) +
    (if n.scanSsid != 0 then [("scan_ssid", IntToString(n.scanSsid))] else []) +
    (if n.disabled then [("disabled", "1")] else [])
  }

  /** The assignments between `network={` and `}`, as (key, text after `=`). */
  function BodyItems(n: Network): Params {
    SsidItems(n) + SecurityItems(n) + OptionItems(n) + SortByKey(n.otherParams)
  }

  function CommentLines(cs: seq<string>): seq<string> {
    seq(|cs|, i requires 0 <= i < |cs| => "# " + cs[i])
  }

  /** Assignments indented by four spaces, one per line. */
  function ParamLines(d: Params): seq<string> {
    seq(|d|, i requires 0 <= i < |d| => "    " + d[i].0 + "=" + d[i].1)
  }

  /** The lines of `to_block`: the comments, `network={`, the body, `}`. */
  function BlockLines(n: Network): seq<string> {
    CommentLines(n.comments) + ["network={"] + ParamLines(BodyItems(n)) + ["}"]
  }

  /** `WPANetwork.to_block()`. */
  function ToBlock(n: Network): string {
    Join("\n", BlockLines(n))
  }

  /** The texts assigned to `key`, in order. */
  function ValuesOf(d: Params, key: string): seq<string> {
    if d == [] then []
    else (if d[0].0 == key then [d[0].1] else []) + ValuesOf(d[1..], key)
  }

  lemma {:induction false} ValuesOfAppend(a: Params, b: Params, key: string)
    ensures ValuesOf(a + b, key) == ValuesOf(a, key) + ValuesOf(b, key)
  {
    if a != [] {
      assert (a + b)[1..] == a[1..] + b;
      ValuesOfAppend(a[1..], b, key);
    } else {
      assert a + b == b;
    }
  }

  lemma {:induction false} ValuesOfAbsent(d: Params, key: string)
    requires forall i :: 0 <= i < |d| ==> d[i].0 != key
    ensures ValuesOf(d, key) == []
  {
    if d != [] {
      ValuesOfAbsent(d[1..], key);
    }
  }

  /** Parameters whose lines the parser reads back under their own key, none of
      which is a key `to_block` writes itself. */
  predicate ParamsClean(d: Params) {
    forall i :: 0 <= i < |d| ==> CleanKey(d[i].0) && d[i].0 !in KnownKeys
  }

  lemma SortedParamsClean(d: Params)
    requires ParamsClean(d)
    ensures ParamsClean(SortByKey(d)) && |SortByKey(d)| == |d|
  {
    SortByKeyCorrect(d);
    var s := SortByKey(d);
    assert |multiset(s)| == |multiset(d)|;
    forall i | 0 <= i < |s| ensures CleanKey(s[i].0) && s[i].0 !in KnownKeys {
      assert s[i] in multiset(d);
      var k :| 0 <= k < |d| && d[k] == s[i];
    }
  }

  /** Only the items `to_block` writes itself assign a known key. */
  lemma BodyValues(n: Network, k: string)
    requires ParamsClean(n.otherParams) && k in KnownKeys
    ensures ValuesOf(BodyItems(n), k) ==
      ValuesOf(SsidItems(n), k) + ValuesOf(SecurityItems(n), k) + ValuesOf(OptionItems(n), k)
  {
    var s, e, o, p := SsidItems(n), SecurityItems(n), OptionItems(n), SortByKey(n.otherParams);
    SortedParamsClean(n.otherParams);
    ValuesOfAbsent(p, k);
    ValuesOfAppend(s, e, k);
    ValuesOfAppend(s + e, o, k);
    ValuesOfAppend(s + e + o, p, k);
  }

  /** `to_block` writes a psk only for a mode other than exactly `NONE` with a
      non-empty psk, and then once, bare or quoted as `PskText` says. */
  lemma BlockPsk(n: Network)
    requires ParamsClean(n.otherParams)
    ensures ValuesOf(BodyItems(n), "psk") ==
      if n.keyMgmt != "NONE" && Truthy(n.psk) then [PskText(n.psk.value)] else []
  {
    BodyValues(n, "psk");
    SecurityPsk(n);
    OptionValues(n, "psk");
  }

  /** With `NONE` the block says `key_mgmt=NONE`; otherwise it has a `key_mgmt` line
      exactly when the mode is not `WPA-PSK`. */
  lemma BlockKeyMgmt(n: Network)
    requires ParamsClean(n.otherParams)
    ensures ValuesOf(BodyItems(n), "key_mgmt") ==
      if n.keyMgmt == "WPA-PSK" then [] else [n.keyMgmt]
  {
    BodyValues(n, "key_mgmt");
    SecurityKeyMgmt(n);
    OptionValues(n, "key_mgmt");
  }

  lemma SecurityPsk(n: Network)
    ensures ValuesOf(SecurityItems(n), "psk") ==
      if n.keyMgmt != "NONE" && Truthy(n.psk) then [PskText(n.psk.value)] else []
  {
    if n.keyMgmt != "NONE" {
      var a := if Truthy(n.psk) then [("psk", PskText(n.psk.value))] else [];
      var b := if n.keyMgmt != "WPA-PSK" then [("key_mgmt", n.keyMgmt)] else [];
      ValuesOfAppend(a, b, "psk");
    }
  }

  lemma SecurityKeyMgmt(n: Network)
    ensures ValuesOf(SecurityItems(n), "key_mgmt") ==
      if n.keyMgmt == "WPA-PSK" then [] else [n.keyMgmt]
  {
    if n.keyMgmt != "NONE" {
      var a := if Truthy(n.psk) then [("psk", PskText(n.psk.value))] else [];
      var b := if n.keyMgmt != "WPA-PSK" then [("key_mgmt", n.keyMgmt)] else [];
      ValuesOfAppend(a, b, "key_mgmt");
    }
  }

  /** `ssid` is written only when non-empty, `priority`, `scan_ssid` and `disabled`
      only when not at their defaults. */
  lemma BlockOptions(n: Network)
    requires ParamsClean(n.otherParams)
    ensures ValuesOf(BodyItems(n), "ssid") ==
      if Truthy(n.ssid) then [Quote(n.ssid.value)] else []
    ensures ValuesOf(BodyItems(n), "priority") ==
      if n.priority == 0 then [] else [IntToString(n.priority)]
    ensures ValuesOf(BodyItems(n), "scan_ssid") ==
      if n.scanSsid == 0 then [] else [IntToString(n.scanSsid)]
    ensures ValuesOf(BodyItems(n), "disabled") == if n.disabled then ["1"] else []
  {
    BlockSsid(n);
    BlockPriority(n);
    BlockScanSsid(n);
    BlockDisabled(n);
  }

  lemma OptionKeyValues(n: Network, k: string)
    requires ParamsClean(n.otherParams)
    requires k in KnownKeys && k != "psk" && k != "key_mgmt"
    ensures ValuesOf(BodyItems(n), k) == ValuesOf(SsidItems(n), k) + ValuesOf(OptionItems(n), k)
  {
    BodyValues(n, k);
    SecurityValues(n, k);
  }

  lemma BlockSsid(n: Network)
    requires ParamsClean(n.otherParams)
    ensures ValuesOf(BodyItems(n), "ssid") == if Truthy(n.ssid) then [Quote(n.ssid.value)] else []
  {
    OptionKeyValues(n, "ssid");
    OptionValues(n, "ssid");
  }

  lemma BlockPriority(n: Network)
    requires ParamsClean(n.otherParams)
    ensures ValuesOf(BodyItems(n), "priority") == if n.priority == 0 then [] else [IntToString(n.priority)]
  {
    OptionKeyValues(n, "priority");
    OptionValues(n, "priority");
  }

  lemma BlockScanSsid(n: Network)
    requires ParamsClean(n.otherParams)
    ensures ValuesOf(BodyItems(n), "scan_ssid") == if n.scanSsid == 0 then [] else [IntToString(n.scanSsid)]
  {
    OptionKeyValues(n, "scan_ssid");
    OptionValues(n, "scan_ssid");
  }

  lemma BlockDisabled(n: Network)
    requires ParamsClean(n.otherParams)
    ensures ValuesOf(BodyItems(n), "disabled") == if n.disabled then ["1"] else []
  {
    OptionKeyValues(n, "disabled");
    OptionValues(n, "disabled");
  }

  lemma SecurityValues(n: Network, k: string)
    requires k != "psk" && k != "key_mgmt"
    ensures ValuesOf(SecurityItems(n), k) == []
  {
    ValuesOfAbsent(SecurityItems(n), k);
  }

  lemma OptionValues(n: Network, k: string)
    ensures ValuesOf(OptionItems(n), k) ==
      (if n.priority != 0 && k == "priority" then [IntToString(n.priority)] else []) +
      (if n.scanSsid != 0 && k == "scan_ssid" then [IntToString(n.scanSsid)] else []) +
      (if n.disabled && k == "disabled" then ["1"] else [])
  {
    var a := if n.priority != 0 then [("priority", IntToString(n.priority))] else [];
    var b := if n.scanSsid != 0 then [("scan_ssid", IntToString(n.scanSsid))] else [];
    var c := if n.disabled then [("disabled", "1")] else [];
    ValuesOfAppend(a, b, k);
    ValuesOfAppend(a + b, c, k);
  }

  /** A non-empty psk is written bare exactly when it is 64 hex digits, and in double
      quotes otherwise. */
  lemma PskEncoding(psk: string)
    ensures PskText(psk) == psk <==> IsHexPsk(psk)
    ensures !IsHexPsk(psk) ==> PskText(psk) == "\"" + psk + "\""
  {
    if !IsHexPsk(psk) {
      assert |Quote(psk)| == |psk| + 2;
    }
  }

  /** The other parameters are the last items of the body, in key order. */
  lemma BodyEndsWithParams(n: Network)
    ensures var b := BodyItems(n);
      var m := |n.otherParams|;
      |b| >= m && b[|b| - m..] == SortByKey(n.otherParams)
    ensures SortedByKey(SortByKey(n.otherParams))
    ensures multiset(SortByKey(n.otherParams)) == multiset(n.otherParams)
  {
    SortByKeyCorrect(n.otherParams);
    assert |SortByKey(n.otherParams)| == |n.otherParams| by {
      assert |multiset(SortByKey(n.otherParams))| == |multiset(n.otherParams)|;
    }
  }

  // ----- reading a line back ----------------------------------------------------

  /** The key the parser reads off a line: the stripped text before its first `=`. */
  function LineKey(line: string): Option<string> {
    var t := Strip(line);
    match IndexOf(t, '=')
    case None => None
    case Some(j) => Some(Strip(t[..j]))
  }

  /** A key the parser reads back unchanged: non-empty, trimmed and without `=`. */
  predicate CleanKey(k: string) { k != [] && Trimmed(k) && HasNo(k, '=') }

  /** `pad + key + "=" + value` strips to `key=` and the right-trimmed value, and its
      first `=` is the one after the key. */
  lemma AssignmentLine(pad: string, key: string, value: string)
    requires forall i :: 0 <= i < |pad| ==> IsSpace(pad[i])
    requires CleanKey(key)
    ensures Strip(pad + key + "=" + value) == key + "=" + TrimRight(value)
    ensures IndexOf(key + "=" + TrimRight(value), '=') == Some(|key|)
    ensures LineKey(pad + key + "=" + value) == Some(key)
  {
    var w := key + "=" + value;
    assert pad + key + "=" + value == pad + w;
    assert w[0] == key[0];
    TrimLeftPad(pad, w);
    TrimRightAppend(key + "=", value);
    var t := key + "=" + TrimRight(value);
    IndexOfAfter(key, '=', TrimRight(value));
    assert t[..|key|] == key;
    StripNoSpace(key);
  }

  /** A comment line never assigns a key that does not start with `#`. */
  lemma CommentLineKey(c: string, k: string)
    requires k != [] && k[0] != '#'
    ensures LineKey("# " + c) != Some(k)
  {
    var line := "# " + c;
    StripKeepsHead(line);
    var t := Strip(line);
    match IndexOf(t, '=')
    case None =>
    case Some(j) =>
      if j > 0 {
        StripKeepsHead(t[..j]);
      }
  }

  lemma KnownKeysClean(k: string)
    requires k in KnownKeys
    ensures CleanKey(k)
  {
  }

  lemma BodyKeysClean(n: Network)
    requires ParamsClean(n.otherParams)
    ensures forall i :: 0 <= i < |BodyItems(n)| ==> CleanKey(BodyItems(n)[i].0)
  {
    SortedParamsClean(n.otherParams);
    var b := BodyItems(n);
    var pre := SsidItems(n) + SecurityItems(n) + OptionItems(n);
    forall i | 0 <= i < |b| ensures CleanKey(b[i].0) {
      if i < |pre| {
        KnownKeysClean(pre[i].0);
      } else {
        assert b[i] == SortByKey(n.otherParams)[i - |pre|];
      }
    }
  }

  lemma CommentLinesKeys(cs: seq<string>)
    ensures forall i, k :: 0 <= i < |cs| && k in KnownKeys ==> LineKey(CommentLines(cs)[i]) != Some(k)
  {
    forall i, k | 0 <= i < |cs| && k in KnownKeys ensures LineKey(CommentLines(cs)[i]) != Some(k) {
      CommentLineKey(cs[i], k);
    }
  }

  lemma ParamLinesKeys(d: Params)
    requires forall i :: 0 <= i < |d| ==> CleanKey(d[i].0)
    ensures forall j :: 0 <= j < |d| ==> LineKey(ParamLines(d)[j]) == Some(d[j].0)
  {
    forall j | 0 <= j < |d| ensures LineKey(ParamLines(d)[j]) == Some(d[j].0) {
      AssignmentLine("    ", d[j].0, d[j].1);
    }
  }

  /** How the parser reads each line of a block: the comment lines assign no known
      key, `network={` assigns `network`, each body line assigns its item's key, and
      `}` assigns nothing. */
  lemma BlockLineKeys(n: Network)
    requires ParamsClean(n.otherParams)
    ensures var b := BlockLines(n);
      var c := |n.comments|;
      var items := BodyItems(n);
      |b| == c + |items| + 2 &&
      (forall i, k :: 0 <= i < c && k in KnownKeys ==> LineKey(b[i]) != Some(k)) &&
      LineKey(b[c]) == Some("network") &&
      (forall j :: 0 <= j < |items| ==> LineKey(b[c + 1 + j]) == Some(items[j].0)) &&
      LineKey(b[|b| - 1]).None?
  {
    BlockFrame(n);
    BlockCommentKeys(n);
    BlockBodyKeys(n);
    OpenLineKey("network={");
    CloseLineKey("}");
  }

  lemma BlockFrame(n: Network)
    ensures var b := BlockLines(n);
      |b| == |n.comments| + |BodyItems(n)| + 2 &&
      b[|n.comments|] == "network={" && b[|b| - 1] == "}"
  {
    FrameLines(CommentLines(n.comments), "network={", ParamLines(BodyItems(n)), "}");
  }

  lemma BlockCommentKeys(n: Network)
    ensures forall i, k :: 0 <= i < |n.comments| && k in KnownKeys ==> LineKey(BlockLines(n)[i]) != Some(k)
  {
    var cl := CommentLines(n.comments);
    FrameLines(cl, "network={", ParamLines(BodyItems(n)), "}");
    CommentLinesKeys(n.comments);
  }

  lemma BlockBodyKeys(n: Network)
    requires ParamsClean(n.otherParams)
    ensures var items := BodyItems(n);
      forall j :: 0 <= j < |items| ==> LineKey(BlockLines(n)[|n.comments| + 1 + j]) == Some(items[j].0)
  {
    var items := BodyItems(n);
    var head := CommentLines(n.comments);
    assert |head| == |n.comments|;
    BodyKeysClean(n);
    ShiftedKeys(BlockLines(n), head, items);
  }

  /** The lines of `d` placed after `head` and `network={` assign the keys of `d`. */
  lemma ShiftedKeys(b: seq<string>, head: seq<string>, d: Params)
    requires forall i :: 0 <= i < |d| ==> CleanKey(d[i].0)
    requires b == head + ["network={"] + ParamLines(d) + ["}"]
    ensures forall j :: 0 <= j < |d| ==> LineKey(b[|head| + 1 + j]) == Some(d[j].0)
  {
    FrameLines(head, "network={", ParamLines(d), "}");
    ParamLinesKeys(d);
  }

  /** The positions of the parts of `head + [open] + body + [close]`. */
  lemma FrameLines(head: seq<string>, open: string, body: seq<string>, close: string)
    ensures var b := head + [open] + body + [close];
      |b| == |head| + |body| + 2 &&
      (forall i :: 0 <= i < |head| ==> b[i] == head[i]) &&
      b[|head|] == open &&
      (forall j :: 0 <= j < |body| ==> b[|head| + 1 + j] == body[j]) &&
      b[|b| - 1] == close
  {
  }

  lemma OpenLineKey(line: string)
    requires line == "network={"
    ensures LineKey(line) == Some("network")
  {
    AssignmentLine("", "network", "{");
    assert line == "" + "network" + "=" + "{";
  }

  lemma CloseLineKey(line: string)
    requires line == "}"
    ensures LineKey(line).None?
  {
    StripNoSpace(line);
  }

  // ----- _parse_network_param ---------------------------------------------------

  /** One surrounding pair of double quotes is removed (`value[1:-1]`). */
  function Unquote(v: string): (r: string)
    ensures r == v || Quote(r) == v || (v == "\"" && r == "")
  {
    if StartsWith(v, "\"") && EndsWith(v, "\"") then
      (if |v| >= 2 then v[1..|v| - 1] else "")
    else v
  }

  lemma UnquoteQuote(s: string)
    ensures Unquote(Quote(s)) == s
  {
    var q := Quote(s);
    assert q[1..|q| - 1] == s;
    assert q[..1] == "\"";
    assert q[|q| - 1..] == "\"";
  }

  /** The effect of `key = value` on a network being parsed. */
  function SetParam(n: Network, key: string, value: string): Network {
    if key == "ssid" then n.(ssid := Some(value))
    else if key == "psk" then n.(psk := Some(value))
    else if key == "key_mgmt" then n.(keyMgmt := value)
    else if key == "priority" then n.(priority := ParseInt(value).GetOr(0))
    else if key == "scan_ssid" then n.(scanSsid := ParseInt(value).GetOr(0))
    else if key == "disabled" then n.(disabled := value == "1" || Lower(value) == "true")
    else n.(otherParams := DictSet(n.otherParams, key, value))
  }

  /** `_parse_network_param` on a stripped line: nothing without `=`; otherwise the
      key and the value, stripped, with one pair of quotes removed from the value. */
  function NetworkParam(line: string, n: Network): Network {
    match IndexOf(line, '=')
    case None => n
    case Some(j) => SetParam(n, Strip(line[..j]), Unquote(Strip(line[j + 1..])))
  }

  /** How each value is read: unquoted for every key, an unparsable priority or
      scan_ssid as 0, `disabled` as `1` or any case of `true`, an unknown key into
      `other_params` with nothing else changed. */
  lemma NetworkParamReads(n: Network, key: string, value: string)
    requires CleanKey(key) && Trimmed(value)
    ensures var m := NetworkParam(key + "=" + value, n);
      var v := Unquote(value);
      (key == "ssid" ==> m == n.(ssid := Some(v))) &&
      (key == "psk" ==> m == n.(psk := Some(v))) &&
      (key == "priority" ==> m.priority == (if ParseInt(v).Some? then ParseInt(v).value else 0)) &&
      (key == "scan_ssid" ==> m.scanSsid == (if ParseInt(v).Some? then ParseInt(v).value else 0)) &&
      (key == "disabled" ==> (m.disabled <==> v == "1" || Lower(v) == "true")) &&
      (key !in KnownKeys ==>
        m.(otherParams := n.otherParams) == n && Lookup(m.otherParams, key) == Some(v))
  {
    NetworkParamSplit(n, key, value);
  }

  /** A line `key=value` sets `key` to the unquoted value. */
  lemma NetworkParamSplit(n: Network, key: string, value: string)
    requires CleanKey(key) && Trimmed(value)
    ensures NetworkParam(key + "=" + value, n) == SetParam(n, key, Unquote(value))
  {
    AssignmentLine("", key, value);
    assert "" + key + "=" + value == key + "=" + value;
    var line := key + "=" + value;
    assert line[..|key|] == key;
    assert line[|key| + 1..] == value;
    StripNoSpace(key);
    StripNoSpace(value);
  }

  // ----- add_network and list_networks ------------------------------------------

  /** The network `add_network` builds. */
  function NewNetwork(ssid: string, password: Option<string>, security: string,
                      priority: int, scanSsid: bool): Network
  {
    var base := Default.(ssid := Some(ssid), priority := priority, scanSsid := if scanSsid then 1 else 0);
    if Upper(security) == "NONE" || password.None? then base.(keyMgmt := "NONE", psk := None)
    else
      base.(psk := password,
            keyMgmt := if Contains(Upper(security), "WPA3") || Contains(Upper(security), "SAE")
                       then "SAE" else "WPA-PSK")
  }

  /** The network `add_network` builds: the ssid and priority given, `scan_ssid` as 0 or
      1, an open network without a password or for security `NONE`, otherwise the
      password as psk with SAE for WPA3/SAE and WPA-PSK for anything else. */
  lemma NewNetworkSpec(ssid: string, password: Option<string>, security: string,
                       priority: int, scanSsid: bool, n: Network)
    requires n == NewNetwork(ssid, password, security, priority, scanSsid)
    ensures n.ssid == Some(ssid) && n.priority == priority
    ensures n.scanSsid == 1 <==> scanSsid
    ensures n.scanSsid == 0 <==> !scanSsid
    ensures Upper(security) == "NONE" || password.None? ==> n.keyMgmt == "NONE" && n.psk.None?
    ensures Upper(security) != "NONE" && password.Some? ==>
      n.psk == password &&
      (n.keyMgmt == "SAE" <==> Contains(Upper(security), "WPA3") || Contains(Upper(security), "SAE")) &&
      (n.keyMgmt != "SAE" ==> n.keyMgmt == "WPA-PSK")
    ensures n.otherParams == [] && n.comments == [] && !n.disabled
  {
  }

  /** One entry of `list_networks`: everything but the psk and the raw parameters. */
  datatype Summary = Summary(ssid: Option<string>, keyMgmt: string, priority: int,
                             scanSsid: int, disabled: bool)

  function Summarize(n: Network): Summary {
    Summary(n.ssid, n.keyMgmt, n.priority, n.scanSsid, n.disabled)
  }
}
