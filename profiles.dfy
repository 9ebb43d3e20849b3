/** Network profiles: named bundles of interface settings, kept one JSON file per profile
    in a profiles directory and applied by rewriting rc.conf and wpa_supplicant.conf
    through their handlers. */
module Profiles {
  import opened Wrappers
  import opened Text
  import opened SystemUtils
  import opened ConfigLines
  import opened ConfigParsing
  import opened RcConf
  import opened WpaNetworks
  import opened WpaConf

  // ------------------------------------------------------------------ the profile record

  /** A JSON value. */
  datatype Json = Null | Bool(b: bool) | Int(i: int) | Str(s: string) | Object(fields: map<string, Json>)

  type Config = map<string, Json>

  /** `NetworkProfile`; `type` is `kind` and `interface` is `iface` here. */
  datatype Profile = Profile(name: string, kind: string, iface: string, autoconnect: bool, config: Config)

  /** `to_dict`. */
  function ToDict(p: Profile): (d: Config)
    ensures d.Keys == {"name", "type", "interface", "autoconnect", "config"}
  {
    map["name" := Str(p.name), "type" := Str(p.kind), "interface" := Str(p.iface),
        "autoconnect" := Bool(p.autoconnect), "config" := Object(p.config)]
  }

  /** `from_dict`: each field from its key, or its default when the key is missing. */
  function FromDict(d: Config): Profile {
    Profile(
      if "name" in d && d["name"].Str? then d["name"].s else "Unnamed Profile",
      if "type" in d && d["type"].Str? then d["type"].s else "ethernet",
      if "interface" in d && d["interface"].Str? then d["interface"].s else "em0",
      if "autoconnect" in d && d["autoconnect"].Bool? then d["autoconnect"].b else true,
      if "config" in d && d["config"].Object? then d["config"].fields else map[])
  }

  /** Reading back what `to_dict` wrote gives the same profile. */
  lemma ProfileRoundTrip(p: Profile)
    ensures FromDict(ToDict(p)) == p
  {
  }

  /** A dictionary holding the five fields with the types `to_dict` writes. */
  predicate ProfileDict(d: Config) {
    "name" in d && d["name"].Str? && "type" in d && d["type"].Str? &&
    "interface" in d && d["interface"].Str? && "autoconnect" in d && d["autoconnect"].Bool? &&
    "config" in d && d["config"].Object?
  }

  /** Such a dictionary is reproduced by `to_dict` once read, when it has no other keys. */
  lemma DictRoundTrip(d: Config)
    requires ProfileDict(d) && d.Keys == {"name", "type", "interface", "autoconnect", "config"}
    ensures ToDict(FromDict(d)) == d
  {
    var r := ToDict(FromDict(d));
    assert r.Keys == d.Keys;
    forall k | k in d ensures r[k] == d[k] {
      assert k == "name" || k == "type" || k == "interface" || k == "autoconnect" || k == "config";
    }
  }

  /** An empty dictionary gives the defaults of `NetworkProfile()`. */
  lemma ProfileDefaults(d: Config)
    requires forall k :: k !in d
    ensures FromDict(d) == Profile("Unnamed Profile", "ethernet", "em0", true, map[])
  {
  }

  // ------------------------------------------------------------------ file names

  /** The characters a profile file name keeps. */
  predicate FileChar(c: char) { IsAlnum(c) || c == '_' || c == '-' }

  /** `''.join(c for c in s if c.isalnum() or c in ('_', '-'))`. */
  function KeepFileChars(s: string): (r: string)
    ensures |r| <= |s|
  {
    if s == [] then [] else (if FileChar(s[0]) then [s[0]] else []) + KeepFileChars(s[1..])
  }

  /** The file name rule of `save_profile` and `delete_profile`: lower case, spaces and
      slashes to underscores, then only letters, digits, `_` and `-` kept. */
  function Sanitize(name: string): string {
    KeepFileChars(ReplaceChar(ReplaceChar(Lower(name), ' ', "_"), '/', "_"))
  }

  /** The file a profile named `name` is stored in. */
  function FileName(name: string): string { Sanitize(name) + ".json" }

  /** What one character of a name becomes before the filter. */
  function NormChar(c: char): char { if c == ' ' || c == '/' then '_' else LowerChar(c) }

  /** The same rule done in a single pass, character by character. */
  function SanitizeOne(s: string): string {
    if s == [] then []
    else (if FileChar(NormChar(s[0])) then [NormChar(s[0])] else []) + SanitizeOne(s[1..])
  }

  /** The three passes and the single pass agree. */
  lemma {:induction false} SanitizeByChar(s: string)
    ensures Sanitize(s) == SanitizeOne(s)
  {
    if s != [] {
      SanitizeByChar(s[1..]);
      var l := Lower(s);
      assert l == [LowerChar(s[0])] + Lower(s[1..]);
      assert l[1..] == Lower(s[1..]);
      var r1 := ReplaceChar(l, ' ', "_");
      assert r1 == (if l[0] == ' ' then "_" else [l[0]]) + ReplaceChar(Lower(s[1..]), ' ', "_");
      var h1: string := if l[0] == ' ' then "_" else [l[0]];
      assert |h1| == 1;
      assert r1[1..] == ReplaceChar(Lower(s[1..]), ' ', "_");
      var r2 := ReplaceChar(r1, '/', "_");
      assert r2[0] == NormChar(s[0]);
      assert r2 == [NormChar(s[0])] + ReplaceChar(r1[1..], '/', "_");
      assert r2[1..] == ReplaceChar(ReplaceChar(Lower(s[1..]), ' ', "_"), '/', "_");
    }
  }

  /** Every character of a file name is a lower-case letter, a digit, `_` or `-`. */
  lemma {:induction false} SanitizeOneChars(s: string)
    ensures forall i :: 0 <= i < |SanitizeOne(s)| ==>
              FileChar(SanitizeOne(s)[i]) && NormChar(SanitizeOne(s)[i]) == SanitizeOne(s)[i]
  {
    if s != [] {
      SanitizeOneChars(s[1..]);
      var h: string := if FileChar(NormChar(s[0])) then [NormChar(s[0])] else [];
      assert SanitizeOne(s) == h + SanitizeOne(s[1..]);
      forall i | 0 <= i < |SanitizeOne(s)|
        ensures FileChar(SanitizeOne(s)[i]) && NormChar(SanitizeOne(s)[i]) == SanitizeOne(s)[i]
      {
        if i >= |h| {
          assert SanitizeOne(s)[i] == SanitizeOne(s[1..])[i - |h|];
        }
      }
    }
  }

  /** A text of such characters passes through the single pass unchanged. */
  lemma {:induction false} SanitizeOneFixed(s: string)
    requires forall i :: 0 <= i < |s| ==> FileChar(s[i]) && NormChar(s[i]) == s[i]
    ensures SanitizeOne(s) == s
  {
    if s != [] {
      SanitizeOneFixed(s[1..]);
      assert s == [s[0]] + s[1..];
    }
  }

  /** File names use only letters, digits, `_` and `-`, never upper case, and sanitizing
      a sanitized name changes nothing. */
  lemma SanitizeSpec(name: string)
    ensures forall i :: 0 <= i < |Sanitize(name)| ==> FileChar(Sanitize(name)[i]) && !('A' <= Sanitize(name)[i] <= 'Z')
    ensures Sanitize(Sanitize(name)) == Sanitize(name)
  {
    SanitizeByChar(name);
    var s := Sanitize(name);
    SanitizeOneChars(name);
    SanitizeByChar(s);
    SanitizeOneFixed(s);
  }

  // ------------------------------------------------------------------ templates

  /** `TEMPLATES`. */
  function Template(t: string): Option<Config> {
    if t == "lan_dhcp" then
      Some(map["name" := Str("LAN (DHCP)"), "type" := Str("ethernet"), "interface" := Str("em0"),
               "autoconnect" := Bool(true), "config" := Object(map["dhcp" := Bool(true)])])
    else if t == "lan_static" then
      Some(map["name" := Str("LAN (Static IP)"), "type" := Str("ethernet"), "interface" := Str("em0"),
               "autoconnect" := Bool(true),
               "config" := Object(map["dhcp" := Bool(false), "ip" := Str("192.168.1.100"),
                                      "netmask" := Str("255.255.255.0"), "gateway" := Str("192.168.1.1")])])
    else if t == "wifi_wpa2" then
      Some(map["name" := Str("Home WiFi (WPA2)"), "type" := Str("wifi"), "interface" := Str("wlan0"),
               "autoconnect" := Bool(true),
               "config" := Object(map["ssid" := Str("MyNetwork"), "security" := Str("WPA2-PSK"),
                                      "password" := Str(""), "dhcp" := Bool(true)])])
    else if t == "wifi_open" then
      Some(map["name" := Str("Guest WiFi (Open)"), "type" := Str("wifi"), "interface" := Str("wlan0"),
               "autoconnect" := Bool(false),
               "config" := Object(map["ssid" := Str("GuestNetwork"), "security" := Str("NONE"), "dhcp" := Bool(true)])])
    else if t == "mobile_tethering" then
      Some(map["name" := Str("Mobile Tethering"), "type" := Str("tethering"), "interface" := Str("ue0"),
               "autoconnect" := Bool(false), "config" := Object(map["dhcp" := Bool(true)])])
    else None
  }

  /** `create_from_template`: `None` for an unknown template; otherwise the template read
      as a profile, renamed when a non-empty name is given. */
  function CreateFromTemplate(t: string, name: Option<string>): (r: Option<Profile>)
    ensures r.None? <==> Template(t).None?
    ensures r.Some? ==> r.value.(name := FromDict(Template(t).value).name) == FromDict(Template(t).value)
    ensures r.Some? ==> r.value.name == if Truthy(name) then name.value else FromDict(Template(t).value).name
  {
    match Template(t)
    case None => None
    case Some(d) =>
      var p := FromDict(d);
      Some(if Truthy(name) then p.(name := name.value) else p)
  }

  /** Each template is a complete profile record: every field is taken from it, none
      falls back to a default. */
  lemma TemplatesComplete(t: string)
    requires Template(t).Some?
    ensures ProfileDict(Template(t).value)
    ensures ToDict(FromDict(Template(t).value)) == Template(t).value
  {
    DictRoundTrip(Template(t).value);
  }

  // ------------------------------------------------------------------ applying a profile

  /** Python truth of a JSON value. */
  predicate Truth(v: Json) {
    match v
    case Null => false
    case Bool(b) => b
    case Int(i) => i != 0
    case Str(s) => s != []
    case Object(f) => f != map[]
  }

  /** `config.get(key)` read as text: `None` when missing or not a string. */
  function TextOf(c: Config, key: string): Option<string> {
    if key in c && c[key].Str? then Some(c[key].s) else None
  }

  /** `config.get('dhcp', True)`. */
  predicate DhcpOn(c: Config) { "dhcp" !in c || Truth(c["dhcp"]) }

  /** `config.get('security', 'WPA2-PSK')`. */
  function SecurityOf(c: Config): string { TextOf(c, "security").GetOr("WPA2-PSK") }

  /** The security setting is missing or text; anything else, `null` included, makes
      `add_network` fail at `security.upper()`. */
  predicate SecurityIsText(c: Config) { "security" !in c || c["security"].Str? }

  /** `config.get('priority', 5)`. */
  function PriorityOf(c: Config): int { if "priority" in c && c["priority"].Int? then c["priority"].i else 5 }

  /** `config.get('scan_ssid', False)`. */
  predicate ScanOf(c: Config) { "scan_ssid" in c && Truth(c["scan_ssid"]) }

  /** rc.conf, wpa_supplicant.conf and their `.bak` copies (`None`: no such file). */
  datatype Disk = Disk(rc: Option<string>, rcBak: Option<string>, wpa: Option<string>, wpaBak: Option<string>)

  /** rc.conf as a fresh handler's `load` reads it. */
  function LoadRc(file: Option<string>): (d: Doc)
    ensures IndexOk(d)
  {
    if file.None? then EmptyDoc
    else
      ParseKeepsIndex(EmptyDoc, SplitLines(TranslateNewlines(file.value)));
      ParseInto(EmptyDoc, SplitLines(TranslateNewlines(file.value)))
  }

  /** wpa_supplicant.conf as a fresh handler's `load` reads it. */
  function LoadWpa(file: Option<string>): Conf {
    if file.None? then Fresh else ParseContent(Fresh, TranslateNewlines(file.value))
  }

  /** rc.conf's `save(backup)` after `load`: written only when `validate` passes. */
  function SaveRc(d: Doc, disk: Disk, backup: bool): (r: (Disk, bool))
    requires IndexOk(d)
    ensures r.1 <==> ValidateRcDoc(d).0
    ensures r.1 ==> r.0.rc == Some(Serialize(d))
    ensures !r.1 ==> r.0 == disk
    ensures r.0.wpa == disk.wpa && r.0.wpaBak == disk.wpaBak
  {
    if ValidateRcDoc(d).0 then
      (disk.(rc := Some(Serialize(d)), rcBak := if backup && disk.rc.Some? then disk.rc else disk.rcBak), true)
    else (disk, false)
  }

  /** `set_default_router(gateway)` when a gateway is given; the handler refuses an
      invalid address and the refusal is ignored. */
  function WithGateway(d: Doc, c: Config): (r: Doc)
    requires IndexOk(d)
    ensures IndexOk(r)
  {
    var gw := TextOf(c, "gateway");
    if Truthy(gw) && ValidateIpAddress(gw.value) then
      SetKeepsIndex(d, RouterKey, gw.value, None);
      SetDoc(d, RouterKey, gw.value, None)
    else d
  }

  /** The `ifconfig_` updates of `_apply_ethernet_profile`; `None` when a static setting
      lacks an address or a netmask. */
  function EthernetDoc(d: Doc, c: Config, iface: string): (r: Option<Doc>)
    requires IndexOk(d)
    ensures r.Some? ==> IndexOk(r.value)
  {
    SetKeepsIndex(d, IfconfigKey(iface), "DHCP", None);
    if DhcpOn(c) then Some(SetDoc(d, IfconfigKey(iface), "DHCP", None))
    else
      var ip := TextOf(c, "ip");
      var netmask := TextOf(c, "netmask");
      if !Truthy(ip) || !Truthy(netmask) then None
      else
        var setting := StaticConfig(ip.value, netmask.value, None);
        SetKeepsIndex(d, IfconfigKey(iface), setting, None);
        var d1 := if ValidateIpAddress(ip.value) && ValidateNetmask(netmask.value)
                  then SetDoc(d, IfconfigKey(iface), setting, None) else d;
        Some(WithGateway(d1, c))
  }

  /** `_apply_ethernet_profile` on the loaded rc.conf `d`. */
  function ApplyEthernet(disk: Disk, d: Doc, p: Profile, backup: bool): (Disk, bool)
    requires IndexOk(d)
  {
    match EthernetDoc(d, p.config, p.iface)
    case None => (disk, false)
    case Some(d1) => SaveRc(d1, disk, backup)
  }

  /** The networks after `remove_network(ssid)` and `add_network(...)`. */
  function WifiNetworks(ns: seq<Network>, c: Config, ssid: string): seq<Network> {
    WithoutSsid(ns, ssid) + [NewNetwork(ssid, TextOf(c, "password"), SecurityOf(c), PriorityOf(c), ScanOf(c))]
  }

  /** wpa_supplicant.conf as `_apply_wifi_profile` leaves it, before it is written. */
  function WifiConf(file: Option<string>, c: Config, ssid: string): Conf {
    var conf := LoadWpa(file);
    conf.(networks := WifiNetworks(conf.networks, c, ssid))
  }

  /** The `ifconfig_` value of a wifi interface. */
  function WpaStatic(ip: string, netmask: string): string { "WPA inet " + ip + " netmask " + netmask }

  /** The rc.conf updates of `_apply_wifi_profile`; `None` when a static setting lacks an
      address or a netmask. */
  function WifiDoc(d: Doc, c: Config, iface: string): (r: Option<Doc>)
    requires IndexOk(d)
    ensures r.Some? ==> IndexOk(r.value)
  {
    SetKeepsIndex(d, IfconfigKey(iface), "WPA DHCP", None);
    if DhcpOn(c) then Some(SetDoc(d, IfconfigKey(iface), "WPA DHCP", None))
    else
      var ip := TextOf(c, "ip");
      var netmask := TextOf(c, "netmask");
      if !Truthy(ip) || !Truthy(netmask) then None
      else
        SetKeepsIndex(d, IfconfigKey(iface), WpaStatic(ip.value, netmask.value), None);
        Some(WithGateway(SetDoc(d, IfconfigKey(iface), WpaStatic(ip.value, netmask.value), None), c))
  }

  /** The disk once `_apply_wifi_profile` has saved wpa_supplicant.conf. */
  function WifiWrite(disk: Disk, c: Config, ssid: string, backup: bool): Disk {
    disk.(wpa := Some(Generate(WifiConf(disk.wpa, c, ssid))),
          wpaBak := if backup && disk.wpa.Some? then disk.wpa else disk.wpaBak)
  }

  /** `_apply_wifi_profile` on the loaded rc.conf `d`: wpa_supplicant.conf is rewritten
      first, then rc.conf. */
  function ApplyWifi(disk: Disk, d: Doc, p: Profile, backup: bool): (Disk, bool)
    requires IndexOk(d)
  {
    var ssid := TextOf(p.config, "ssid");
    if !Truthy(ssid) || !SecurityIsText(p.config) then (disk, false)
    else
      var disk1 := WifiWrite(disk, p.config, ssid.value, backup);
      match WifiDoc(d, p.config, p.iface)
      case None => (disk1, false)
      case Some(d1) => SaveRc(d1, disk1, backup)
  }

  predicate EthernetKind(kind: string) { kind == "ethernet" || kind == "tethering" }

  /** `apply_profile`: routed on the profile type. rc.conf is written only by a save that
      reports success, and wpa_supplicant.conf only for a wifi profile. */
  function Apply(disk: Disk, p: Profile, backup: bool): (r: (Disk, bool))
    ensures !EthernetKind(p.kind) && p.kind != "wifi" ==> r == (disk, false)
    ensures !r.1 ==> r.0.rc == disk.rc && r.0.rcBak == disk.rcBak
    ensures p.kind != "wifi" ==> r.0.wpa == disk.wpa && r.0.wpaBak == disk.wpaBak
  {
    var d := LoadRc(disk.rc);
    if EthernetKind(p.kind) then ApplyEthernet(disk, d, p, backup)
    else if p.kind == "wifi" then ApplyWifi(disk, d, p, backup)
    else (disk, false)
  }

  // ------------------------------------------------------------------ the manager

  /** A file of the profiles directory: JSON, or text `json.load` rejects. */
  datatype Stored = Parsed(json: Json) | Unparsable

  /** `glob('*.json')` over `order`, the directory listing: each file that reads as a JSON
      object becomes a profile; the others are skipped. */
  function LoadedFrom(store: map<string, Stored>, order: seq<string>): seq<Profile> {
    if order == [] then []
    else
      var n := order[|order| - 1];
      LoadedFrom(store, order[..|order| - 1]) +
      (if EndsWith(n, ".json") && n in store && store[n].Parsed? && store[n].json.Object?
       then [FromDict(store[n].json.fields)] else [])
  }

  /** `[p for p in profiles if p.name != name]`. */
  function WithoutName(ps: seq<Profile>, name: string): seq<Profile> {
    if ps == [] then [] else (if ps[0].name != name then [ps[0]] else []) + WithoutName(ps[1..], name)
  }

  /** The first profile called `name`. */
  function FirstNamed(ps: seq<Profile>, name: string): (r: Option<Profile>)
    ensures r.Some? ==> r.value in ps && r.value.name == name
    ensures r.None? <==> forall i :: 0 <= i < |ps| ==> ps[i].name != name
  {
    if ps == [] then None
    else if ps[0].name == name then Some(ps[0])
    else
      var r := FirstNamed(ps[1..], name);
      assert forall i :: 1 <= i < |ps| ==> ps[i] == ps[1..][i - 1];
      r
  }

  /** `delete_profile(name)` on the directory and the loaded list. */
  function Deleted(store: map<string, Stored>, ps: seq<Profile>, name: string): (map<string, Stored>, seq<Profile>, bool) {
    if FileName(name) in store then (store - {FileName(name)}, WithoutName(ps, name), true)
    else (store, ps, false)
  }

  /** `ProfileManager`: the loaded profiles, the profiles directory and the system files
      profiles are applied to. */
  class ProfileManager {
    var profiles: seq<Profile>
    var loaded: bool
    var store: map<string, Stored>
    var disk: Disk

    constructor (store: map<string, Stored>, disk: Disk)
      ensures this.store == store && this.disk == disk && profiles == [] && !loaded
    {
      this.store := store;
      this.disk := disk;
      profiles := [];
      loaded := false;
    }

    /** `load_profiles`, reading the files in the listing order `order`. */
    method LoadProfiles(order: seq<string>) returns (ok: bool)
      modifies this`profiles, this`loaded
      ensures ok && loaded && profiles == LoadedFrom(store, order)
    {
      profiles := [];
      for i := 0 to |order|
        invariant profiles == LoadedFrom(store, order[..i])
      {
        assert order[..i + 1][..i] == order[..i];
        var n := order[i];
        if EndsWith(n, ".json") && n in store && store[n].Parsed? && store[n].json.Object? {
          profiles := profiles + [FromDict(store[n].json.fields)];
        }
      }
      assert order[..|order|] == order;
      loaded := true;
      ok := true;
    }

    /** `save_profile`: the profile's record written to its file; the loaded list is not
        touched. */
    method SaveProfile(p: Profile) returns (ok: bool)
      modifies this`store
      ensures ok && store == old(store)[FileName(p.name) := Parsed(Object(ToDict(p)))]
    {
      store := store[FileName(p.name) := Parsed(Object(ToDict(p)))];
      ok := true;
    }

    /** `delete_profile`. */
    method DeleteProfile(name: string) returns (ok: bool)
      modifies this`store, this`profiles
      ensures (store, profiles, ok) == Deleted(old(store), old(profiles), name)
    {
      var file := FileName(name);
      if file in store {
        store := store - {file};
        profiles := WithoutName(profiles, name);
        return true;
      }
      return false;
    }

    /** `get_profile`. */
    method GetProfile(name: string) returns (r: Option<Profile>)
      ensures r == FirstNamed(profiles, name)
    {
      for i := 0 to |profiles|
        invariant FirstNamed(profiles, name) == FirstNamed(profiles[i..], name)
      {
        assert profiles[i..][1..] == profiles[i + 1..];
        if profiles[i].name == name {
          return Some(profiles[i]);
        }
      }
      assert profiles[|profiles|..] == [];
      return None;
    }

    /** `list_profiles`: a copy of the list (a value here, so nothing the caller does to it
        reaches the manager). */
    method ListProfiles() returns (r: seq<Profile>)
      ensures r == profiles
    {
      r := profiles;
    }

    /** `apply_profile`: rc.conf is loaded by a new handler, then the profile type picks
        the path. */
    method ApplyProfile(p: Profile, backup: bool) returns (ok: bool)
      modifies this`disk
      ensures (disk, ok) == Apply(old(disk), p, backup)
    {
      var rc := new RCConfHandler(disk.rc, disk.rcBak);
      var loadedRc := rc.Load();
      if EthernetKind(p.kind) {
        ok := ApplyEthernetProfile(p, rc, backup);
      } else if p.kind == "wifi" {
        ok := ApplyWifiProfile(p, rc, backup);
      } else {
        ok := false;
      }
    }

    /** `_apply_ethernet_profile`. */
    method ApplyEthernetProfile(p: Profile, rc: RCConfHandler, backup: bool) returns (ok: bool)
      requires rc.Valid() && rc.loaded && rc.parser.file == disk.rc && rc.parser.backupFile == disk.rcBak
      modifies this`disk, rc.parser
      ensures (disk, ok) == ApplyEthernet(old(disk), old(rc.parser.Model()), p, backup)
    {
      var updated := SetEthernet(p.config, p.iface, rc);
      if !updated {
        return false;
      }
      ok := SaveRcFile(rc, backup);
    }

    /** `_apply_wifi_profile`. */
    method ApplyWifiProfile(p: Profile, rc: RCConfHandler, backup: bool) returns (ok: bool)
      requires rc.Valid() && rc.loaded && rc.parser.file == disk.rc && rc.parser.backupFile == disk.rcBak
      modifies this`disk, rc.parser
      ensures (disk, ok) == ApplyWifi(old(disk), old(rc.parser.Model()), p, backup)
    {
      var ssid := TextOf(p.config, "ssid");
      if !Truthy(ssid) {
        return false;
      }
      var added := StoreWifiNetwork(p.config, ssid.value, backup);
      if !added {
        return false;
      }
      var updated := SetWifi(p.config, p.iface, rc);
      if !updated {
        return false;
      }
      ok := SaveRcFile(rc, backup);
    }

    /** The wpa_supplicant.conf half of `_apply_wifi_profile`, recorded on the disk; the
        disk is left alone when the network cannot be added. */
    method StoreWifiNetwork(c: Config, ssid: string, backup: bool) returns (ok: bool)
      modifies this`disk
      ensures ok == SecurityIsText(c)
      ensures disk == if ok then WifiWrite(old(disk), c, ssid, backup) else old(disk)
    {
      var written, kept;
      ok, written, kept := WriteWifiNetwork(disk.wpa, disk.wpaBak, c, ssid, backup);
      disk := disk.(wpa := written, wpaBak := kept);
    }

    /** rc.conf's `save(backup)`, recorded on the disk. */
    method SaveRcFile(rc: RCConfHandler, backup: bool) returns (ok: bool)
      requires rc.Valid() && rc.loaded && rc.parser.file == disk.rc && rc.parser.backupFile == disk.rcBak
      modifies this`disk, rc.parser
      ensures (disk, ok) == SaveRc(old(rc.parser.Model()), old(disk), backup)
    {
      ok := rc.Save(backup);
      disk := disk.(rc := rc.parser.file, rcBak := rc.parser.backupFile);
    }
  }

  /** The wpa_supplicant.conf half of `_apply_wifi_profile`: load, replace the networks
      named `ssid` by one new network, save; whether the network was added, the file's new
      text and its backup. Nothing is saved when the network cannot be added. */
  method WriteWifiNetwork(file: Option<string>, backupFile: Option<string>, c: Config, ssid: string, backup: bool)
    returns (ok: bool, written: Option<string>, kept: Option<string>)
    ensures ok == SecurityIsText(c)
    ensures written == if ok then Some(Generate(WifiConf(file, c, ssid))) else file
    ensures kept == if ok && backup && file.Some? then file else backupFile
  {
    var wpa := LoadWpaFile(file, backupFile);
    ok := ReplaceNetwork(wpa, c, ssid);
    if !ok {
      return ok, file, backupFile;
    }
    assert wpa.Model() == WifiConf(file, c, ssid);
    written, kept := SaveWpa(wpa, backup);
  }

  /** `save(backup)` on a loaded handler: the generated text and the backup it leaves. */
  method SaveWpa(wpa: WPAConfHandler, backup: bool) returns (written: Option<string>, kept: Option<string>)
    requires wpa.loaded
    modifies wpa`file, wpa`backupFile
    ensures written == Some(Generate(wpa.Model()))
    ensures kept == if backup && old(wpa.file).Some? then old(wpa.file) else old(wpa.backupFile)
  {
    var saved := wpa.Save(backup);
    written, kept := wpa.file, wpa.backupFile;
  }

  /** `WPAConfHandler(...)` followed by `load()`. */
  method LoadWpaFile(file: Option<string>, backupFile: Option<string>) returns (wpa: WPAConfHandler)
    ensures fresh(wpa) && wpa.loaded && wpa.Model() == LoadWpa(file)
    ensures wpa.file == file && wpa.backupFile == backupFile
  {
    wpa := new WPAConfHandler(file, backupFile);
    var loadedWpa := wpa.Load();
  }

  /** `remove_network(ssid)` then `add_network(...)` with the profile's settings. A security
      setting that is not text fails `add_network`, after the old networks are removed. */
  method ReplaceNetwork(wpa: WPAConfHandler, c: Config, ssid: string) returns (ok: bool)
    modifies wpa`networks
    ensures ok == SecurityIsText(c)
    ensures wpa.networks == if ok then WifiNetworks(old(wpa.networks), c, ssid) else WithoutSsid(old(wpa.networks), ssid)
  {
    var removed := wpa.RemoveNetwork(ssid);
    if !SecurityIsText(c) {
      return false;
    }
    ok := wpa.AddNetwork(ssid, TextOf(c, "password"), SecurityOf(c), PriorityOf(c), ScanOf(c));
  }

  /** The `ifconfig_` and gateway updates of `_apply_ethernet_profile` on the handler. */
  method SetEthernet(c: Config, iface: string, rc: RCConfHandler) returns (ok: bool)
    requires rc.Valid()
    modifies rc.parser
    ensures rc.Valid() && rc.parser.file == old(rc.parser.file) && rc.parser.backupFile == old(rc.parser.backupFile)
    ensures ok == EthernetDoc(old(rc.parser.Model()), c, iface).Some?
    ensures ok ==> rc.parser.Model() == EthernetDoc(old(rc.parser.Model()), c, iface).value
  {
    if DhcpOn(c) {
      var updated := rc.SetInterfaceDhcp(iface);
      return true;
    }
    var ip := TextOf(c, "ip");
    var netmask := TextOf(c, "netmask");
    if !Truthy(ip) || !Truthy(netmask) {
      return false;
    }
    var updated := rc.SetInterfaceStatic(iface, ip.value, netmask.value, None);
    SetGateway(c, rc);
    return true;
  }

  /** The rc.conf updates of `_apply_wifi_profile` on the handler. */
  method SetWifi(c: Config, iface: string, rc: RCConfHandler) returns (ok: bool)
    requires rc.Valid()
    modifies rc.parser
    ensures rc.Valid() && rc.parser.file == old(rc.parser.file) && rc.parser.backupFile == old(rc.parser.backupFile)
    ensures ok == WifiDoc(old(rc.parser.Model()), c, iface).Some?
    ensures ok ==> rc.parser.Model() == WifiDoc(old(rc.parser.Model()), c, iface).value
  {
    var key := IfconfigKey(iface);
    if DhcpOn(c) {
      var updated := rc.Set(key, "WPA DHCP", None);
      return true;
    }
    var ip := TextOf(c, "ip");
    var netmask := TextOf(c, "netmask");
    if !Truthy(ip) || !Truthy(netmask) {
      return false;
    }
    var updated := rc.Set(key, WpaStatic(ip.value, netmask.value), None);
    SetGateway(c, rc);
    return true;
  }

  /** `if gateway: set_default_router(gateway)`. */
  method SetGateway(c: Config, rc: RCConfHandler)
    requires rc.Valid()
    modifies rc.parser
    ensures rc.Valid() && rc.parser.file == old(rc.parser.file) && rc.parser.backupFile == old(rc.parser.backupFile)
    ensures rc.parser.Model() == WithGateway(old(rc.parser.Model()), c)
  {
    var gw := TextOf(c, "gateway");
    if Truthy(gw) {
      var routed := rc.SetDefaultRouter(gw.value);
    }
  }
}
