/** The rc.conf handler of `bsd_netgui/backend/rc_conf_handler.py`: FreeBSD's naming
    conventions for network settings, layered on the configuration parser. The
    functions below state each operation on a `Doc`; the class `RCConfHandler` owns a
    `ConfigParser` and its methods are proved to perform them. */
module RcConf {
  import opened Wrappers
  import opened Text
  import opened SystemUtils
  import opened ConfigLines
  import opened ConfigParsing

  // ---------------------------------------------------------------------------------
  // Key names.

  function IfconfigKey(iface: string): string { "ifconfig_" + iface }

  function WlansKey(parent: string): string { "wlans_" + parent }

  function EnableKey(service: string): string { service + "_enable" }

  const RouterKey := "defaultrouter"

  const HostnameKey := "hostname"

  /** The value `set_interface_static` stores. */
  function StaticConfig(ip: string, netmask: string, options: Option<string>): string {
    "inet " + ip + " netmask " + netmask + (if Truthy(options) then " " + options.value else "")
  }

  // ---------------------------------------------------------------------------------
  // Validation.

  /** The group of the regex `inet\s+(\S+)` matched at the start of `after`'s `inet`:
      `after` is what follows those four letters. */
  function InetAfter(after: string): Option<string> {
    var n := SpaceLen(after);
    if 0 < n < |after| then Some(after[n..][..TokenLen(after[n..])]) else None
  }

  /** `re.search(r'inet\s+(\S+)', v)` from position `p` on: the group of the leftmost match. */
  function InetFrom(v: string, p: nat): (r: Option<string>)
    ensures r.Some? ==> r.value != [] && NoSpace(r.value)
    decreases |v| - p
  {
    if p + 4 > |v| then None
    else if OccursAt(v, "inet", p) && InetAfter(v[p + 4..]).Some? then
      var after := v[p + 4..];
      TokenLenPositive(after[SpaceLen(after)..]);
      InetAfter(after)
    else InetFrom(v, p + 1)
  }

  lemma TokenLenPositive(s: string)
    requires s != [] && !IsSpace(s[0])
    ensures TokenLen(s) > 0 && NoSpace(s[..TokenLen(s)])
  {
  }

  function InetAddress(v: string): Option<string> { InetFrom(v, 0) }

  predicate IsIfconfigKey(key: string) { StartsWith(key, "ifconfig_") }

  /** The error for one interface key: its value mentions `inet` in any case, and the
      token after a lower-case `inet` and whitespace is not a valid address. */
  function IfconfigError(key: string, value: Option<string>): seq<string> {
    if IsIfconfigKey(key) && Truthy(value) && Contains(Lower(value.value), "inet") then
      match InetAddress(value.value)
      case None => []
      case Some(ip) => if ValidateIpAddress(ip) then [] else ["Invalid IP in " + key + ": " + ip]
    else []
  }

  /** The errors of the interface keys among `ks`, in order. */
  function IfconfigErrors(d: Doc, ks: seq<string>): seq<string>
    requires IndexOk(d)
  {
    if ks == [] then []
    else IfconfigErrors(d, ks[..|ks| - 1]) + IfconfigError(ks[|ks| - 1], GetDoc(d, ks[|ks| - 1]))
  }

  /** The error for a `defaultrouter` that is set, non-empty and not a valid address, as
      stored (quotes included). */
  function RouterErrors(d: Doc): seq<string>
    requires IndexOk(d)
  {
    var r := GetDoc(d, RouterKey);
    if Truthy(r) && !ValidateIpAddress(r.value) then ["Invalid defaultrouter IP: " + r.value] else []
  }

  /** `validate`: the parser's duplicate-key errors, then the router error, then the
      interface errors in index order. */
  function ValidateRcDoc(d: Doc): (bool, seq<string>)
    requires IndexOk(d)
  {
    var errors := ValidateDoc(d).1 + RouterErrors(d) + IfconfigErrors(d, d.keys);
    (errors == [], errors)
  }

  // ---------------------------------------------------------------------------------
  // Services, interfaces and wlans.

  /** `value.strip('"').upper() == "YES"`. */
  predicate EnabledValue(v: string) { Upper(StripChar(v, '"')) == "YES" }

  /** `is_service_enabled`, with the parser's default `NO`. */
  predicate ServiceEnabled(d: Doc, service: string)
    requires IndexOk(d)
  {
    EnabledValue(GetDoc(d, EnableKey(service)).GetOr("NO"))
  }

  /** `get_all_interface_configs` over the keys `ks`: each `ifconfig_` key with every
      `ifconfig_` removed from it (`str.replace`), mapped to its value; a later key
      with the same result overrides an earlier one. */
  function InterfaceConfigs(d: Doc, ks: seq<string>): map<string, string>
    requires IndexOk(d) && forall k :: k in ks ==> k in d.variables
  {
    if ks == [] then map[]
    else
      var prev := InterfaceConfigs(d, ks[..|ks| - 1]);
      var k := ks[|ks| - 1];
      if IsIfconfigKey(k) then prev[RemoveAll(k, "ifconfig_") := GetDoc(d, k).value] else prev
  }

  /** The `wlans_` key `k` lists `wlan`: its value is non-empty and contains it. */
  predicate ListsWlan(d: Doc, k: string, wlan: string)
    requires IndexOk(d)
  {
    StartsWith(k, "wlans_") && Truthy(GetDoc(d, k)) && Contains(GetDoc(d, k).value, wlan)
  }

  /** `get_wlan_parent` over the keys `ks`: the first `wlans_` key listing `wlan`, with
      every `wlans_` removed from it. */
  function WlanParent(d: Doc, ks: seq<string>, wlan: string): Option<string>
    requires IndexOk(d)
  {
    if ks == [] then None
    else if ListsWlan(d, ks[0], wlan) then Some(RemoveAll(ks[0], "wlans_"))
    else WlanParent(d, ks[1..], wlan)
  }

  // ---------------------------------------------------------------------------------
  // Properties.

  lemma KeysAreIndexed(d: Doc)
    requires IndexOk(d)
    ensures forall k :: k in d.keys ==> k in d.variables
  {
  }

  /** The key of an interface is recovered from its `ifconfig_` key when the interface
      name itself holds no `ifconfig_`. */
  lemma IfconfigKeyName(iface: string)
    requires !Contains(iface, "ifconfig_")
    ensures IsIfconfigKey(IfconfigKey(iface)) && RemoveAll(IfconfigKey(iface), "ifconfig_") == iface
  {
    RemoveAllLeading("ifconfig_", iface);
    RemoveAllAbsent(iface, "ifconfig_");
  }

  /** The `ifconfig_` key `k` names the interface `name` once every `ifconfig_` is
      removed from it. */
  predicate NamesInterface(k: string, name: string) {
    IsIfconfigKey(k) && RemoveAll(k, "ifconfig_") == name
  }

  /** `get_all_interface_configs` holds exactly the names derived from the indexed
      `ifconfig_` keys. */
  lemma {:induction false} InterfaceConfigsNames(d: Doc, ks: seq<string>, name: string)
    requires IndexOk(d) && forall k :: k in ks ==> k in d.variables
    ensures name in InterfaceConfigs(d, ks) <==> exists i :: 0 <= i < |ks| && NamesInterface(ks[i], name)
  {
    if ks != [] {
      var init := ks[..|ks| - 1];
      InterfaceConfigsNames(d, init, name);
      assert forall i :: 0 <= i < |init| ==> init[i] == ks[i];
      if NamesInterface(ks[|ks| - 1], name) {
        assert name in InterfaceConfigs(d, ks);
      }
    }
  }

  /** Each name holds the value of the last key giving that name. */
  lemma {:induction false} InterfaceConfigsLast(d: Doc, ks: seq<string>, name: string, i: nat)
    requires IndexOk(d) && forall k :: k in ks ==> k in d.variables
    requires i < |ks| && NamesInterface(ks[i], name)
    requires forall j :: i < j < |ks| ==> !NamesInterface(ks[j], name)
    ensures name in InterfaceConfigs(d, ks) && Some(InterfaceConfigs(d, ks)[name]) == GetDoc(d, ks[i])
  {
    var init := ks[..|ks| - 1];
    var k := ks[|ks| - 1];
    if i < |ks| - 1 {
      assert forall j :: i < j < |init| ==> init[j] == ks[j];
      assert init[i] == ks[i];
      InterfaceConfigsLast(d, init, name, i);
      assert !NamesInterface(k, name);
    }
  }

  /** `get_wlan_parent` is `None` exactly when no key lists the wlan. */
  lemma {:induction false} WlanParentNone(d: Doc, ks: seq<string>, wlan: string)
    requires IndexOk(d)
    ensures WlanParent(d, ks, wlan).None? <==> forall i :: 0 <= i < |ks| ==> !ListsWlan(d, ks[i], wlan)
  {
    if ks != [] {
      WlanParentNone(d, ks[1..], wlan);
      assert forall i :: 1 <= i < |ks| ==> ks[1..][i - 1] == ks[i];
    }
  }

  /** `get_wlan_parent` gives the suffix of the first `wlans_` key listing the wlan. */
  lemma {:induction false} WlanParentFirst(d: Doc, ks: seq<string>, wlan: string, i: nat)
    requires IndexOk(d)
    requires i < |ks| && ListsWlan(d, ks[i], wlan)
    requires forall j :: 0 <= j < i ==> !ListsWlan(d, ks[j], wlan)
    ensures WlanParent(d, ks, wlan) == Some(RemoveAll(ks[i], "wlans_"))
  {
    if i > 0 {
      assert !ListsWlan(d, ks[0], wlan);
      assert forall j :: 0 <= j < i - 1 ==> ks[1..][j] == ks[j + 1];
      assert ks[1..][i - 1] == ks[i];
      WlanParentFirst(d, ks[1..], wlan, i - 1);
    }
  }

  /** `enable_service` then `is_service_enabled` is true; `disable_service` then
      `is_service_enabled` is false. */
  lemma ServiceSwitch(d: Doc, service: string, yes: string, no: string)
    requires IndexOk(d) && yes == "\"YES\"" && no == "\"NO\""
    ensures SetKeepsIndexed(d, EnableKey(service), yes, None) && SetKeepsIndexed(d, EnableKey(service), no, None)
    ensures ServiceEnabled(SetDoc(d, EnableKey(service), yes, None), service)
    ensures !ServiceEnabled(SetDoc(d, EnableKey(service), no, None), service)
  {
    GetAfterSet(d, EnableKey(service), yes, None, EnableKey(service));
    GetAfterSet(d, EnableKey(service), no, None, EnableKey(service));
    EnabledValues(yes, "YES", "\"yes\"", no);
  }

  /** A service that was never set is off. */
  lemma ServiceDefaultOff(d: Doc, service: string)
    requires IndexOk(d) && EnableKey(service) !in d.variables
    ensures !ServiceEnabled(d, service)
  {
    NoIsOff("NO");
  }

  lemma NoIsOff(no: string)
    requires no == "NO"
    ensures !EnabledValue(no)
  {
    assert StripChar(no, '"') == no;
    assert |Upper(no)| == 2;
  }

  /** Values read from a file keep their quotes, in either case: `"YES"`, `YES` and
      `"yes"` all count as enabled and `"NO"` does not. */
  lemma EnabledValues(quoted: string, bare: string, lower: string, no: string)
    requires quoted == "\"YES\"" && bare == "YES" && lower == "\"yes\"" && no == "\"NO\""
    ensures EnabledValue(quoted) && EnabledValue(bare) && EnabledValue(lower) && !EnabledValue(no)
  {
    assert StripChar(quoted, '"') == "YES" by {
      assert quoted[1..] == "YES\"";
      assert "YES\""[..3] == "YES";
    }
    assert StripChar(lower, '"') == "yes" by {
      assert lower[1..] == "yes\"";
      assert "yes\""[..3] == "yes";
    }
    assert StripChar(no, '"') == "NO" by {
      assert no[1..] == "NO\"";
      assert "NO\""[..2] == "NO";
    }
    assert |Upper("NO")| == 2;
  }

  /** `re.search(r'inet\s+(\S+)', ...)` on the value `set_interface_static` stores finds
      the address that was given. */
  lemma StaticConfigAddress(ip: string, netmask: string, options: Option<string>)
    requires ValidateIpAddress(ip)
    ensures InetAddress(StaticConfig(ip, netmask, options)) == Some(ip)
  {
    var rest := " netmask " + netmask + (if Truthy(options) then " " + options.value else "");
    var v := StaticConfig(ip, netmask, options);
    var after := " " + (ip + rest);
    assert v == "inet" + after;
    assert OccursAt(v, "inet", 0);
    assert v[4..] == after;
    AddressAfterInet(ip, rest);
  }

  /** What follows `inet` in that value: one space, the address, then a space. */
  lemma AddressAfterInet(ip: string, rest: string)
    requires ValidateIpAddress(ip) && rest != [] && IsSpace(rest[0])
    ensures InetAfter(" " + (ip + rest)) == Some(ip)
  {
    AddressChars(ip);
    var after := " " + (ip + rest);
    assert after[1..] == ip + rest;
    assert !IsSpace(after[1]);
    assert SpaceLen(after) == 1 by {
      assert SpaceLen(after[1..]) == 0;
    }
    TokenLenOf(ip, rest);
    assert (ip + rest)[..|ip|] == ip;
  }

  /** A value whose interface check succeeds gives no interface error. */
  lemma StaticConfigPasses(iface: string, ip: string, netmask: string, options: Option<string>)
    requires ValidateIpAddress(ip)
    ensures IfconfigError(IfconfigKey(iface), Some(StaticConfig(ip, netmask, options))) == []
  {
    StaticConfigAddress(ip, netmask, options);
  }

  /** The value `set_interface_static` stores (without options) reads back unchanged
      from the line `set` writes for it. */
  lemma StaticConfigRereads(iface: string, ip: string, netmask: string, n: nat)
    requires ValidateIpAddress(ip) && ValidateNetmask(netmask)
    requires Trimmed(iface) && HasNo(iface, '=') && HasNo(iface, '#') && HasNo(iface, '"') && HasNo(iface, '\'')
    ensures var v := StaticConfig(ip, netmask, None);
      var l := ParseLine(RawAssignment(IfconfigKey(iface), v, None), n);
      l.key == Some(IfconfigKey(iface)) && l.value == Some(v)
  {
    var key := IfconfigKey(iface);
    var v := StaticConfig(ip, netmask, None);
    StaticKeyTrimmed(iface);
    StaticValueTrimmed(ip, netmask);
    StaticLineInert(iface, ip, netmask);
    ReparseAssignment(key, v, None, n);
  }

  lemma StaticKeyTrimmed(iface: string)
    requires Trimmed(iface) && HasNo(iface, '=')
    ensures var key := IfconfigKey(iface);
      Trimmed(key) && HasNo(key, '=') && key[0] != '#'
  {
    var key := IfconfigKey(iface);
    forall k | 0 <= k < |key| ensures key[k] != '=' {
      if k >= 9 { assert key[k] == iface[k - 9]; }
    }
    if iface != [] { assert key[|key| - 1] == iface[|iface| - 1]; }
  }

  lemma StaticValueTrimmed(ip: string, netmask: string)
    requires ValidateNetmask(netmask)
    ensures Trimmed(StaticConfig(ip, netmask, None))
  {
    NetmaskChars(netmask);
    var v := StaticConfig(ip, netmask, None);
    assert v == "inet " + ip + " netmask " + netmask;
    assert v[|v| - 1] == netmask[|netmask| - 1];
  }

  /** The line holds no `#` and no quote: nothing in it is a comment or a quoted part. */
  lemma StaticLineInert(iface: string, ip: string, netmask: string)
    requires ValidateIpAddress(ip) && ValidateNetmask(netmask)
    requires HasNo(iface, '#') && HasNo(iface, '"') && HasNo(iface, '\'')
    ensures Inert(IfconfigKey(iface) + "=" + StaticConfig(ip, netmask, None))
  {
    AddressChars(ip);
    NetmaskChars(netmask);
    var key := IfconfigKey(iface);
    var code := key + "=" + StaticConfig(ip, netmask, None);
    assert code == "ifconfig_" + iface + "=inet " + ip + " netmask " + netmask;
    forall k | 0 <= k < |code| ensures code[k] != '#' && code[k] != '"' && code[k] != '\'' {
      if 9 <= k < |key| {
        assert code[k] == iface[k - 9];
      } else if |key| + 6 <= k < |key| + 6 + |ip| {
        assert code[k] == ip[k - |key| - 6];
      } else if |key| + 15 + |ip| <= k {
        assert code[k] == netmask[k - |key| - 15 - |ip|];
      }
    }
    PlainInert(code);
  }

  /** The error list is empty exactly when there is no duplicate, the router, if set,
      is a valid address, and no interface key fails its check. */
  lemma {:induction false} IfconfigErrorsEmpty(d: Doc, ks: seq<string>)
    requires IndexOk(d)
    ensures IfconfigErrors(d, ks) == [] <==> forall i :: 0 <= i < |ks| ==> IfconfigError(ks[i], GetDoc(d, ks[i])) == []
  {
    if ks != [] {
      IfconfigErrorsEmpty(d, ks[..|ks| - 1]);
      assert forall i :: 0 <= i < |ks| - 1 ==> ks[..|ks| - 1][i] == ks[i];
    }
  }

  predicate RouterOk(d: Doc)
    requires IndexOk(d)
  {
    var r := GetDoc(d, RouterKey);
    !Truthy(r) || ValidateIpAddress(r.value)
  }

  lemma ValidateRcExact(d: Doc)
    requires IndexOk(d)
    ensures ValidateRcDoc(d).0 <==>
      NoDuplicates(d.lines) && RouterOk(d) &&
      forall k :: k in d.keys ==> IfconfigError(k, GetDoc(d, k)) == []
  {
    ValidateReportsDuplicates(d);
    IfconfigErrorsEmpty(d, d.keys);
    assert (forall k :: k in d.keys ==> IfconfigError(k, GetDoc(d, k)) == []) <==>
      (forall i :: 0 <= i < |d.keys| ==> IfconfigError(d.keys[i], GetDoc(d, d.keys[i])) == []);
  }

  /** The test fixture's `defaultrouter="192.168.1.1"` keeps its quotes, so `validate`
      rejects it: the router check sees the quoted text. */
  lemma QuotedRouterRejected(d: Doc)
    requires IndexOk(d) && GetDoc(d, RouterKey) == Some("\"192.168.1.1\"")
    ensures !ValidateRcDoc(d).0
  {
    QuotedNotAddress("\"192.168.1.1\"");
    assert RouterErrors(d) != [];
  }

  /** `set` of a key keeps every key on at most one line, in a document whose index
      records every keyed line (as `parse` leaves it, by `ParseIndexesLast`). */
  lemma SetKeepsNoDuplicates(d: Doc, key: string, value: string)
    requires IndexOk(d) && IndexesLast(d) && NoDuplicates(d.lines) && key != []
    ensures NoDuplicates(SetDoc(d, key, value, None).lines)
  {
    var r := SetDoc(d, key, value, None);
    if key in d.variables {
      forall k ensures Count(r.lines, k) <= 1 {
        CountSameKeys(r.lines, d.lines, k);
      }
    } else {
      var l := r.lines[|d.lines|];
      assert r.lines == d.lines + [l];
      forall k ensures Count(r.lines, k) <= 1 {
        CountAppend(d.lines, [l], k);
        CountOne(l, k);
        if CountsFor(l, k) {
          assert k == key && Count(d.lines, k) == 0;
        }
      }
    }
  }

  /** A static configuration that `set_interface_static` accepts never makes `validate`
      fail on a document that passed it. */
  lemma SetStaticKeepsValid(d: Doc, iface: string, ip: string, netmask: string, options: Option<string>)
    requires IndexOk(d) && IndexesLast(d) && ValidateRcDoc(d).0
    requires ValidateIpAddress(ip)
    ensures var r := SetDoc(d, IfconfigKey(iface), StaticConfig(ip, netmask, options), None);
      IndexOk(r) && ValidateRcDoc(r).0
  {
    var key := IfconfigKey(iface);
    var v := StaticConfig(ip, netmask, options);
    var r := SetDoc(d, key, v, None);
    SetKeepsIndex(d, key, v, None);
    ValidateRcExact(d);
    ValidateRcExact(r);
    SetKeepsNoDuplicates(d, key, v);
    assert RouterKey != key by {
      assert RouterKey[0] != key[0];
    }
    GetAfterSet(d, key, v, None, RouterKey);
    forall k | k in r.keys ensures IfconfigError(k, GetDoc(r, k)) == [] {
      GetAfterSet(d, key, v, None, k);
      if k == key {
        StaticConfigPasses(iface, ip, netmask, options);
      } else {
        assert k in d.keys;
      }
    }
  }

  lemma IfconfigErrorsStep(d: Doc, ks: seq<string>, i: nat)
    requires IndexOk(d) && i < |ks|
    ensures IfconfigErrors(d, ks[..i + 1]) == IfconfigErrors(d, ks[..i]) + IfconfigError(ks[i], GetDoc(d, ks[i]))
  {
    assert ks[..i + 1][..i] == ks[..i];
  }

  /** The body of that loop for one key and its value. */
  method CheckInterface(key: string, value: Option<string>) returns (errors: seq<string>)
    ensures errors == IfconfigError(key, value)
  {
    errors := [];
    if IsIfconfigKey(key) && Truthy(value) && Contains(Lower(value.value), "inet") {
      var ip := InetAddress(value.value);
      if ip.Some? && !ValidateIpAddress(ip.value) {
        errors := ["Invalid IP in " + key + ": " + ip.value];
      }
    }
  }

  /** The loop of `validate` over the index's keys. */
  method CheckInterfaces(d: Doc) returns (errors: seq<string>)
    requires IndexOk(d)
    ensures errors == IfconfigErrors(d, d.keys)
  {
    errors := [];
    var i := 0;
    while i < |d.keys|
      invariant 0 <= i <= |d.keys|
      invariant errors == IfconfigErrors(d, d.keys[..i])
    {
      IfconfigErrorsStep(d, d.keys, i);
      var key := d.keys[i];
      var found := CheckInterface(key, GetDoc(d, key));
      errors := errors + found;
      i := i + 1;
    }
    assert d.keys[..i] == d.keys;
  }

  // ---------------------------------------------------------------------------------
  // The handler object.

  /** `RCConfHandler(rc_conf_path)`: the parser of the file and the `_loaded` flag. */
  class RCConfHandler {
    const parser: ConfigParser
    var loaded: bool

    predicate Valid()
      reads this, parser
    {
      parser.Valid()
    }

    constructor (file: Option<string>, backupFile: Option<string>)
      ensures Valid() && !loaded && fresh(parser)
      ensures parser.Model() == EmptyDoc && parser.file == file && parser.backupFile == backupFile
    {
      parser := new ConfigParser(file, backupFile);
      loaded := false;
    }

    /** `load`: a missing file counts as loaded (it will be created on save); otherwise
        the file is parsed. */
    method Load() returns (ok: bool)
      requires Valid()
      modifies this, parser
      ensures Valid() && ok && loaded
      ensures parser.file == old(parser.file) && parser.backupFile == old(parser.backupFile)
      ensures parser.Model() ==
        if old(parser.file).None? then old(parser.Model())
        else ParseInto(old(parser.Model()), SplitLines(TranslateNewlines(old(parser.file).value)))
    {
      if parser.file.None? {
        loaded := true;
        return true;
      }
      loaded := parser.Parse();
      return loaded;
    }

    /** `save`: refused before `load` and when `validate` finds errors; otherwise the
        parser writes the file (with its `.bak` copy when asked). */
    method Save(backup: bool) returns (ok: bool)
      requires Valid()
      modifies parser
      ensures Valid() && parser.Model() == old(parser.Model())
      ensures ok <==> loaded && ValidateRcDoc(parser.Model()).0
      ensures parser.file == if ok then Some(Serialize(parser.Model())) else old(parser.file)
      ensures parser.backupFile ==
        if ok && backup && old(parser.file).Some? then old(parser.file) else old(parser.backupFile)
    {
      if !loaded {
        return false;
      }
      var valid, errors := Validate();
      if !valid {
        return false;
      }
      ok := parser.Write(backup);
    }

    /** `validate`: the parser's errors, the router check, then a loop over the index's
        keys checking the address of every `ifconfig_` value that mentions `inet`. */
    method Validate() returns (ok: bool, errors: seq<string>)
      requires Valid()
      ensures (ok, errors) == ValidateRcDoc(parser.Model())
    {
      var valid, parserErrors := parser.Validate();
      errors := parserErrors;
      var router := parser.Get(RouterKey);
      if Truthy(router) && !ValidateIpAddress(router.value) {
        errors := errors + ["Invalid defaultrouter IP: " + router.value];
      }
      assert errors == ValidateDoc(parser.Model()).1 + RouterErrors(parser.Model());
      var ifErrors := CheckInterfaces(parser.Model());
      errors := errors + ifErrors;
      ok := |errors| == 0;
      assert ok <==> errors == [];
    }

    /** `get_interface_config` */
    function GetInterfaceConfig(iface: string): Option<string>
      requires Valid()
      reads this, parser
    {
      parser.Get(IfconfigKey(iface))
    }

    /** `set_interface_dhcp`: stores the bare word `DHCP`. */
    method SetInterfaceDhcp(iface: string) returns (ok: bool)
      requires Valid()
      modifies parser
      ensures Valid() && ok && parser.Model() == SetDoc(old(parser.Model()), IfconfigKey(iface), "DHCP", None)
      ensures parser.file == old(parser.file) && parser.backupFile == old(parser.backupFile)
    {
      parser.Set(IfconfigKey(iface), "DHCP", None);
      return true;
    }

    /** `set_interface_static`: refused, with nothing changed, unless both the address and
        the netmask are valid. */
    method SetInterfaceStatic(iface: string, ip: string, netmask: string, options: Option<string>) returns (ok: bool)
      requires Valid()
      modifies parser
      ensures Valid() && (ok <==> ValidateIpAddress(ip) && ValidateNetmask(netmask))
      ensures parser.Model() ==
        if ok then SetDoc(old(parser.Model()), IfconfigKey(iface), StaticConfig(ip, netmask, options), None)
        else old(parser.Model())
      ensures parser.file == old(parser.file) && parser.backupFile == old(parser.backupFile)
    {
      if !ValidateIpAddress(ip) {
        return false;
      }
      if !ValidateNetmask(netmask) {
        return false;
      }
      var config := "inet " + ip + " netmask " + netmask;
      if Truthy(options) {
        config := config + " " + options.value;
      }
      assert config == StaticConfig(ip, netmask, options);
      parser.Set(IfconfigKey(iface), config, None);
      return true;
    }

    /** `remove_interface_config` */
    method RemoveInterfaceConfig(iface: string) returns (ok: bool)
      requires Valid()
      modifies parser
      ensures Valid() && (parser.Model(), ok) == DeleteDoc(old(parser.Model()), IfconfigKey(iface))
      ensures parser.file == old(parser.file) && parser.backupFile == old(parser.backupFile)
    {
      ok := parser.Delete(IfconfigKey(iface));
    }

    /** `get_all_interface_configs`: a loop over the index in insertion order. */
    method GetAllInterfaceConfigs() returns (configs: map<string, string>)
      requires Valid()
      ensures configs == InterfaceConfigs(parser.Model(), parser.keys)
    {
      configs := map[];
      var i := 0;
      while i < |parser.keys|
        invariant 0 <= i <= |parser.keys|
        invariant configs == InterfaceConfigs(parser.Model(), parser.keys[..i])
      {
        assert parser.keys[..i + 1][..i] == parser.keys[..i];
        var key := parser.keys[i];
        if IsIfconfigKey(key) {
          configs := configs[RemoveAll(key, "ifconfig_") := parser.Get(key).value];
        }
        i := i + 1;
      }
      assert parser.keys[..i] == parser.keys;
    }

    /** `get_wlan_parent`: a loop over the index that stops at the first match. */
    method GetWlanParent(wlan: string) returns (r: Option<string>)
      requires Valid()
      ensures r == WlanParent(parser.Model(), parser.keys, wlan)
    {
      var i := 0;
      while i < |parser.keys|
        invariant 0 <= i <= |parser.keys|
        invariant WlanParent(parser.Model(), parser.keys, wlan) == WlanParent(parser.Model(), parser.keys[i..], wlan)
      {
        assert parser.keys[i..][1..] == parser.keys[i + 1..];
        var key := parser.keys[i];
        if StartsWith(key, "wlans_") {
          var value := parser.Get(key);
          if Truthy(value) && Contains(value.value, wlan) {
            return Some(RemoveAll(key, "wlans_"));
          }
        }
        i := i + 1;
      }
      return None;
    }

    /** `set_wlan_parent` */
    method SetWlanParent(parent: string, wlan: string) returns (ok: bool)
      requires Valid()
      modifies parser
      ensures Valid() && ok && parser.Model() == SetDoc(old(parser.Model()), WlansKey(parent), wlan, None)
      ensures parser.file == old(parser.file) && parser.backupFile == old(parser.backupFile)
    {
      parser.Set(WlansKey(parent), wlan, None);
      return true;
    }

    /** `get_default_router` */
    function GetDefaultRouter(): Option<string>
      requires Valid()
      reads this, parser
    {
      parser.Get(RouterKey)
    }

    /** `set_default_router`: refused, with nothing changed, unless the address is valid. */
    method SetDefaultRouter(gateway: string) returns (ok: bool)
      requires Valid()
      modifies parser
      ensures Valid() && (ok <==> ValidateIpAddress(gateway))
      ensures parser.Model() == if ok then SetDoc(old(parser.Model()), RouterKey, gateway, None) else old(parser.Model())
      ensures parser.file == old(parser.file) && parser.backupFile == old(parser.backupFile)
    {
      if !ValidateIpAddress(gateway) {
        return false;
      }
      parser.Set(RouterKey, gateway, None);
      return true;
    }

    /** `remove_default_router` */
    method RemoveDefaultRouter() returns (ok: bool)
      requires Valid()
      modifies parser
      ensures Valid() && (parser.Model(), ok) == DeleteDoc(old(parser.Model()), RouterKey)
      ensures parser.file == old(parser.file) && parser.backupFile == old(parser.backupFile)
    {
      ok := parser.Delete(RouterKey);
    }

    /** `get_hostname` */
    function GetHostname(): Option<string>
      requires Valid()
      reads this, parser
    {
      parser.Get(HostnameKey)
    }

    /** `set_hostname`: refused, with nothing changed, when empty or all whitespace;
        otherwise the stripped name is stored. */
    method SetHostname(hostname: string) returns (ok: bool)
      requires Valid()
      modifies parser
      ensures Valid() && (ok <==> Strip(hostname) != [])
      ensures parser.Model() == if ok then SetDoc(old(parser.Model()), HostnameKey, Strip(hostname), None) else old(parser.Model())
      ensures parser.file == old(parser.file) && parser.backupFile == old(parser.backupFile)
    {
      if hostname == [] || Strip(hostname) == [] {
        return false;
      }
      parser.Set(HostnameKey, Strip(hostname), None);
      return true;
    }

    /** `enable_service`: stores the quoted `"YES"`. */
    method EnableService(service: string) returns (ok: bool)
      requires Valid()
      modifies parser
      ensures Valid() && ok && parser.Model() == SetDoc(old(parser.Model()), EnableKey(service), "\"YES\"", None)
      ensures parser.file == old(parser.file) && parser.backupFile == old(parser.backupFile)
    {
      parser.Set(EnableKey(service), "\"YES\"", None);
      return true;
    }

    /** `disable_service`: stores the quoted `"NO"`. */
    method DisableService(service: string) returns (ok: bool)
      requires Valid()
      modifies parser
      ensures Valid() && ok && parser.Model() == SetDoc(old(parser.Model()), EnableKey(service), "\"NO\"", None)
      ensures parser.file == old(parser.file) && parser.backupFile == old(parser.backupFile)
    {
      parser.Set(EnableKey(service), "\"NO\"", None);
      return true;
    }

    /** `is_service_enabled` */
    predicate IsServiceEnabled(service: string)
      requires Valid()
      reads this, parser
    {
      ServiceEnabled(parser.Model(), service)
    }

    /** `get` (the caller applies its default) */
    function Get(key: string): Option<string>
      requires Valid()
      reads this, parser
    {
      parser.Get(key)
    }

    /** `set` */
    method Set(key: string, value: string, comment: Option<string>) returns (ok: bool)
      requires Valid()
      modifies parser
      ensures Valid() && ok && parser.Model() == SetDoc(old(parser.Model()), key, value, comment)
      ensures parser.file == old(parser.file) && parser.backupFile == old(parser.backupFile)
    {
      parser.Set(key, value, comment);
      return true;
    }

    /** `delete` */
    method Delete(key: string) returns (ok: bool)
      requires Valid()
      modifies parser
      ensures Valid() && (parser.Model(), ok) == DeleteDoc(old(parser.Model()), key)
      ensures parser.file == old(parser.file) && parser.backupFile == old(parser.backupFile)
    {
      ok := parser.Delete(key);
    }

    /** `get_all` */
    function GetAll(): seq<(string, string)>
      requires Valid()
      reads this, parser
    {
      parser.AllVariables()
    }
  }
}
