/** What applying, saving, loading and deleting profiles guarantees. */
module ProfileLemmas {
  import opened Wrappers
  import opened Text
  import opened SystemUtils
  import opened ConfigLines
  import opened ConfigParsing
  import opened RcConf
  import opened WpaNetworks
  import opened WpaConf
  import opened Profiles

  // ------------------------------------------------------------------ rc.conf updates

  /** `ifconfig_` keys never collide with `defaultrouter`. */
  lemma RouterKeyApart(iface: string)
    ensures IfconfigKey(iface) != RouterKey
  {
    assert IfconfigKey(iface)[0] == 'i';
    assert RouterKey[0] == 'd';
  }

  /** A DHCP ethernet profile writes `ifconfig_<iface>="DHCP"` into the loaded rc.conf
      and saves it. */
  lemma EthernetDhcp(disk: Disk, p: Profile, backup: bool)
    requires EthernetKind(p.kind) && DhcpOn(p.config)
    ensures var d1 := SetDoc(LoadRc(disk.rc), IfconfigKey(p.iface), "DHCP", None);
      IndexOk(d1) && GetDoc(d1, IfconfigKey(p.iface)) == Some("DHCP") &&
      Apply(disk, p, backup) == SaveRc(d1, disk, backup)
  {
    var d := LoadRc(disk.rc);
    GetAfterSet(d, IfconfigKey(p.iface), "DHCP", None, IfconfigKey(p.iface));
  }

  /** A valid static setting writes `ifconfig_<iface>="inet <ip> netmask <netmask>"`;
      the gateway is written when given and valid, and otherwise left as it was. */
  lemma EthernetStatic(d: Doc, c: Config, iface: string)
    requires IndexOk(d) && !DhcpOn(c)
    requires Truthy(TextOf(c, "ip")) && Truthy(TextOf(c, "netmask"))
    requires ValidateIpAddress(TextOf(c, "ip").value) && ValidateNetmask(TextOf(c, "netmask").value)
    ensures EthernetDoc(d, c, iface).Some?
    ensures var r := EthernetDoc(d, c, iface).value;
      GetDoc(r, IfconfigKey(iface)) == Some(StaticConfig(TextOf(c, "ip").value, TextOf(c, "netmask").value, None)) &&
      GetDoc(r, RouterKey) ==
        if Truthy(TextOf(c, "gateway")) && ValidateIpAddress(TextOf(c, "gateway").value)
        then TextOf(c, "gateway") else GetDoc(d, RouterKey)
  {
    var key := IfconfigKey(iface);
    var setting := StaticConfig(TextOf(c, "ip").value, TextOf(c, "netmask").value, None);
    RouterKeyApart(iface);
    GetAfterSet(d, key, setting, None, RouterKey);
    var d1 := SetDoc(d, key, setting, None);
    var gw := TextOf(c, "gateway");
    if Truthy(gw) && ValidateIpAddress(gw.value) {
      GetAfterSet(d1, RouterKey, gw.value, None, key);
    }
  }

  /** An address or netmask `set_interface_static` refuses leaves `ifconfig_<iface>` as
      it was, yet the gateway is still set and rc.conf still saved: the refusal is not
      looked at. */
  lemma StaticRefusalIgnored(disk: Disk, p: Profile, backup: bool)
    requires EthernetKind(p.kind) && !DhcpOn(p.config)
    requires Truthy(TextOf(p.config, "ip")) && Truthy(TextOf(p.config, "netmask"))
    requires !(ValidateIpAddress(TextOf(p.config, "ip").value) && ValidateNetmask(TextOf(p.config, "netmask").value))
    ensures var d := LoadRc(disk.rc);
      var d1 := WithGateway(d, p.config);
      GetDoc(d1, IfconfigKey(p.iface)) == GetDoc(d, IfconfigKey(p.iface)) &&
      Apply(disk, p, backup) == SaveRc(d1, disk, backup)
  {
    var d := LoadRc(disk.rc);
    var gw := TextOf(p.config, "gateway");
    RouterKeyApart(p.iface);
    if Truthy(gw) && ValidateIpAddress(gw.value) {
      GetAfterSet(d, RouterKey, gw.value, None, IfconfigKey(p.iface));
    }
  }

  /** A static profile without an address or a netmask is refused. An ethernet profile
      then changes nothing; a wifi profile has already rewritten wpa_supplicant.conf by
      the time it is refused, and only rc.conf is left alone. */
  lemma StaticNeedsAddress(disk: Disk, p: Profile, backup: bool)
    requires !DhcpOn(p.config)
    requires !Truthy(TextOf(p.config, "ip")) || !Truthy(TextOf(p.config, "netmask"))
    ensures EthernetKind(p.kind) ==> Apply(disk, p, backup) == (disk, false)
    ensures p.kind == "wifi" && Truthy(TextOf(p.config, "ssid")) && SecurityIsText(p.config) ==>
      Apply(disk, p, backup) == (WifiWrite(disk, p.config, TextOf(p.config, "ssid").value, backup), false)
  {
  }

  /** A wifi profile whose security setting is not text (`null`, say) is refused before
      anything is written: `add_network` fails, and neither file is saved. */
  lemma SecurityNotText(disk: Disk, p: Profile, backup: bool)
    requires p.kind == "wifi" && !SecurityIsText(p.config)
    ensures Apply(disk, p, backup) == (disk, false)
  {
  }

  /** The wifi path writes `ifconfig_<iface>="WPA DHCP"`, or `"WPA inet <ip> netmask
      <netmask>"` for a static setting, which needs both an address and a netmask. The
      static address is not validated. */
  lemma WifiRcValue(d: Doc, c: Config, iface: string)
    requires IndexOk(d)
    ensures WifiDoc(d, c, iface).None? <==>
      !DhcpOn(c) && (!Truthy(TextOf(c, "ip")) || !Truthy(TextOf(c, "netmask")))
    ensures WifiDoc(d, c, iface).Some? ==>
      GetDoc(WifiDoc(d, c, iface).value, IfconfigKey(iface)) ==
        Some(if DhcpOn(c) then "WPA DHCP" else WpaStatic(TextOf(c, "ip").value, TextOf(c, "netmask").value))
  {
    var key := IfconfigKey(iface);
    RouterKeyApart(iface);
    if DhcpOn(c) {
      GetAfterSet(d, key, "WPA DHCP", None, key);
    } else if Truthy(TextOf(c, "ip")) && Truthy(TextOf(c, "netmask")) {
      var v := WpaStatic(TextOf(c, "ip").value, TextOf(c, "netmask").value);
      GetAfterSet(d, key, v, None, key);
      var d1 := SetDoc(d, key, v, None);
      var gw := TextOf(c, "gateway");
      if Truthy(gw) && ValidateIpAddress(gw.value) {
        GetAfterSet(d1, RouterKey, gw.value, None, key);
      }
    }
  }

  // ------------------------------------------------------------------ wpa_supplicant.conf

  /** Applying a wifi profile leaves exactly one network with its ssid, the new one, at
      the end, with the profile's priority; every other network is kept. */
  lemma WifiOneNetwork(ns: seq<Network>, c: Config, ssid: string)
    ensures var r := WifiNetworks(ns, c, ssid);
      |r| > 0 && r[|r| - 1].ssid == Some(ssid) && r[|r| - 1].priority == PriorityOf(c) &&
      (forall i :: 0 <= i < |r| - 1 ==> r[i].ssid != Some(ssid) && r[i] in ns) &&
      (forall i :: 0 <= i < |ns| && ns[i].ssid != Some(ssid) ==> ns[i] in r)
  {
    var kept := WithoutSsid(ns, ssid);
    var n := NewNetwork(ssid, TextOf(c, "password"), SecurityOf(c), PriorityOf(c), ScanOf(c));
    WithoutSsidSpec(ns, ssid);
    NewNetworkSpec(ssid, TextOf(c, "password"), SecurityOf(c), PriorityOf(c), ScanOf(c), n);
    var r := WifiNetworks(ns, c, ssid);
    assert r == kept + [n];
    forall i | 0 <= i < |r| - 1 ensures r[i].ssid != Some(ssid) && r[i] in ns {
      assert r[i] == kept[i];
    }
  }

  // ------------------------------------------------------------------ the profiles directory

  /** File `n` of the directory reads as the profile `q`. */
  predicate LoadsAs(store: map<string, Stored>, n: string, q: Profile) {
    EndsWith(n, ".json") && n in store && store[n].Parsed? && store[n].json.Object? &&
    FromDict(store[n].json.fields) == q
  }

  /** `load_profiles` yields exactly the profiles of the `.json` files that parse as
      objects. */
  lemma {:induction false} LoadedFromSpec(store: map<string, Stored>, order: seq<string>)
    ensures forall q :: q in LoadedFrom(store, order) <==>
      exists i :: 0 <= i < |order| && LoadsAs(store, order[i], q)
  {
    if order != [] {
      var init := order[..|order| - 1];
      var n := order[|order| - 1];
      LoadedFromSpec(store, init);
      forall q | q in LoadedFrom(store, order)
        ensures exists i :: 0 <= i < |order| && LoadsAs(store, order[i], q)
      {
        if q in LoadedFrom(store, init) {
          var i :| 0 <= i < |init| && LoadsAs(store, init[i], q);
          assert order[i] == init[i];
        } else {
          assert LoadsAs(store, order[|order| - 1], q);
        }
      }
      forall q, i | 0 <= i < |order| && LoadsAs(store, order[i], q)
        ensures q in LoadedFrom(store, order)
      {
        if i < |init| {
          assert LoadsAs(store, init[i], q);
        }
      }
    }
  }

  /** Every profile file name ends in `.json`. */
  lemma FileNameIsJson(name: string)
    ensures EndsWith(FileName(name), ".json")
  {
    var f := FileName(name);
    assert f[|f| - 5..] == ".json";
  }

  /** A saved profile is among those loaded afterwards, unchanged, once its file is
      listed. */
  lemma SavedIsLoaded(store: map<string, Stored>, order: seq<string>, p: Profile)
    requires FileName(p.name) in order
    ensures p in LoadedFrom(store[FileName(p.name) := Parsed(Object(ToDict(p)))], order)
  {
    var s := store[FileName(p.name) := Parsed(Object(ToDict(p)))];
    FileNameIsJson(p.name);
    ProfileRoundTrip(p);
    var i :| 0 <= i < |order| && order[i] == FileName(p.name);
    assert LoadsAs(s, order[i], p);
    LoadedFromSpec(s, order);
  }

  /** `delete_profile` keeps exactly the profiles with another name. */
  lemma {:induction false} WithoutNameSpec(ps: seq<Profile>, name: string)
    ensures forall q :: q in WithoutName(ps, name) <==> q in ps && q.name != name
  {
    if ps != [] {
      WithoutNameSpec(ps[1..], name);
      assert ps == [ps[0]] + ps[1..];
    }
  }

  /** Deleting a profile just saved removes its file, reports success and leaves no
      loaded profile of that name. */
  lemma SaveThenDelete(store: map<string, Stored>, ps: seq<Profile>, p: Profile)
    ensures var r := Deleted(store[FileName(p.name) := Parsed(Object(ToDict(p)))], ps, p.name);
      r.0 == store - {FileName(p.name)} && r.2 && FirstNamed(r.1, p.name).None?
  {
    var s := store[FileName(p.name) := Parsed(Object(ToDict(p)))];
    assert s - {FileName(p.name)} == store - {FileName(p.name)};
    var kept := WithoutName(ps, p.name);
    WithoutNameSpec(ps, p.name);
    assert forall i :: 0 <= i < |kept| ==> kept[i] in kept;
  }

  /** A name with no file is refused and nothing changes. */
  lemma DeleteMissing(store: map<string, Stored>, ps: seq<Profile>, name: string)
    requires FileName(name) !in store
    ensures Deleted(store, ps, name) == (store, ps, false)
  {
  }
}
