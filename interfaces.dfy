/** The `ifconfig` output parser of `bsd_netgui/backend/interface_handler.py`: the
    command's standard output is the input string; a line that is not indented and
    holds a `:` opens an interface record, and the indented lines after it fill in
    its address, netmask and hardware address. */
module Interfaces {
  import opened Wrappers
  import opened Text
  import opened SystemUtils
  import opened Patterns

  /** One interface record (the source's dict with keys `name`, `status`, `ipv4`,
      `netmask`, `mac`, `mtu`, `flags`). */
  datatype Iface = Iface(name: string, status: string, ipv4: string, netmask: string,
                         mac: string, mtu: string, flags: string)

  // ---------------------------------------------------------------------------------
  // Header lines.

  /** `line and not line.startswith('\t') and ':' in line` */
  predicate StartsBlock(line: string) { line != [] && line[0] != '\t' && !HasNo(line, ':') }

  /** `^(\S+):` followed by whitespace: the `:` after `\S+` must be followed by
      whitespace, so it is the last character of the line's first token, and the name
      is that token without it. Gives the name and the text after the `:`. */
  function HeaderName(line: string): (r: Option<(string, string)>)
    ensures r.Some? ==> r.value.0 != [] && NoSpace(r.value.0) && line == r.value.0 + ":" + r.value.1
    ensures r.Some? ==> r.value.1 != [] && IsSpace(r.value.1[0])
  {
    var t := TokenLen(line);
    if t < 2 || line[t - 1] != ':' || t == |line| then None
    else
      assert line[..t - 1] == line[..t][..t - 1];
      assert line == line[..t - 1] + ":" + line[t..];
      Some((line[..t - 1], line[t..]))
  }

  /** `[^<]*<([^>]+)>` at the start of `body`: `[^<]*` stops at the first `<`, and
      `[^>]+` at the first `>` after that. */
  function AngleGroup(body: string): (r: Option<string>)
    ensures r.Some? ==> r.value != [] && HasNo(r.value, '>')
  {
    match IndexOf(body, '<')
    case None => None
    case Some(lt) =>
      var inner := body[lt + 1..];
      match IndexOf(inner, '>')
      case None => None
      case Some(gt) => if gt == 0 then None else Some(inner[..gt])
  }

  /** `\s+flags=([^<]*)<([^>]+)>` at the start of `rest`: the flag list. */
  function FlagsOf(rest: string): (r: Option<string>)
    ensures r.Some? ==> r.value != [] && HasNo(r.value, '>')
  {
    var n := SpaceLen(rest);
    if n == 0 || !StartsWith(rest[n..], "flags=") then None
    else AngleGroup(rest[n..][6..])
  }

  /** `re.match(r'^(\S+):\s+flags=([^<]*)<([^>]+)>', line)`: the name and the flag list. */
  function HeaderMatch(line: string): (r: Option<(string, string)>)
    ensures r.Some? ==> r.value.0 != [] && NoSpace(r.value.0) && r.value.1 != [] && HasNo(r.value.1, '>')
  {
    match HeaderName(line)
    case None => None
    case Some((name, rest)) =>
      match FlagsOf(rest)
      case None => None
      case Some(flags) => Some((name, flags))
  }

  /** The record a matching header line starts: `up` iff the flag list contains `UP`,
      no addresses yet, and the MTU from `mtu <digits>` on the same line. */
  function NewRecord(line: string, name: string, flags: string): Iface {
    Iface(name, if Contains(flags, "UP") then "up" else "down", "", "", "",
          Capture(line, "mtu", Digit).GetOr(""), flags)
  }

  // ---------------------------------------------------------------------------------
  // Netmasks in hexadecimal.

  function HexDigitValue(c: char): (v: nat)
    requires IsHexDigit(c)
    ensures v < 16
  {
    if '0' <= c <= '9' then c as int - '0' as int
    else if 'a' <= c <= 'f' then c as int - 'a' as int + 10
    else c as int - 'A' as int + 10
  }

  predicate HexOrUnderscore(c: char) { IsHexDigit(c) || c == '_' }

  /** Value of hex digits, underscores skipped. */
  function HexValue(s: string): nat
    requires forall i :: 0 <= i < |s| ==> HexOrUnderscore(s[i])
  {
    if s == [] then 0
    else
      var last := s[|s| - 1];
      assert HexOrUnderscore(last);
      if last == '_' then HexValue(s[..|s| - 1])
      else 16 * HexValue(s[..|s| - 1]) + HexDigitValue(last)
  }

  /** Python's literal rule for the digits of `int(text, 16)`: digits with single
      underscores between them. */
  predicate HexLiteral(u: string) {
    u != [] && u[0] != '_' && u[|u| - 1] != '_' &&
    (forall i :: 0 <= i < |u| ==> HexOrUnderscore(u[i])) &&
    forall i :: 0 < i < |u| ==> u[i] == '_' ==> u[i - 1] != '_'
  }

  /** `int('0x' + t, 16)`: one underscore may follow the prefix; `None` for the
      `ValueError`. */
  function ParseHex(t: string): Option<nat> {
    var u := if t != [] && t[0] == '_' then t[1..] else t;
    if HexLiteral(u) then Some(HexValue(u)) else None
  }

  /** The four bytes `(v >> 24) & 0xff`, `(v >> 16) & 0xff`, `(v >> 8) & 0xff`,
      `v & 0xff`, joined with dots. */
  function DottedBytes(v: nat): string {
    FormatIPv4(v / 0x100_0000 % 0x100, v / 0x1_0000 % 0x100, v / 0x100 % 0x100, v % 0x100)
  }

  /** The netmask as stored: a `0x` mask that parses becomes dotted bytes; any other
      text, and a `0x` mask that does not parse, is kept as it is. */
  function ConvertNetmask(mask: string): string {
    if StartsWith(mask, "0x") then
      match ParseHex(mask[2..])
      case None => mask
      case Some(v) => DottedBytes(v)
    else mask
  }

  // ---------------------------------------------------------------------------------
  // Detail lines.

  /** `\s+netmask\s+(\S+)` at the start of `rest`. */
  function NetmaskAfter(rest: string): Option<string> {
    var n := SpaceLen(rest);
    var after := rest[n..];
    if n > 0 && StartsWith(after, "netmask") then
      match SpacedRun(NonSpace, after[7..])
      case None => None
      case Some((mask, _)) => Some(mask)
    else None
  }

  /** `re.search(r'inet\s+(\S+)\s+netmask\s+(\S+)', line)` from position `p`: the
      address and netmask of the leftmost match. */
  function InetFrom(line: string, p: nat): Option<(string, string)>
    decreases |line| - p
  {
    if p + 4 > |line| then None
    else if OccursAt(line, "inet", p) && SpacedRun(NonSpace, line[p + 4..]).Some? &&
            NetmaskAfter(SpacedRun(NonSpace, line[p + 4..]).value.1).Some? then
      var (ip, rest) := SpacedRun(NonSpace, line[p + 4..]).value;
      Some((ip, NetmaskAfter(rest).value))
    else InetFrom(line, p + 1)
  }

  /** What one non-blank line after a header writes into the open record. */
  datatype Patch = Keep | Inet(ip: string, mask: string) | Ether(mac: string)

  /** The stripped line: `inet ` with an address and a netmask sets both (the netmask
      converted), `ether ` with an address sets the hardware address; anything else,
      and a line whose search fails, changes nothing. */
  function PatchOf(raw: string): Patch { StrippedPatch(Strip(raw)) }

  function StrippedPatch(line: string): Patch {
    if StartsWith(line, "inet ") then InetPatch(line)
    else if StartsWith(line, "ether ") then EtherPatch(line)
    else Keep
  }

  function InetPatch(line: string): Patch {
    match InetFrom(line, 0)
    case None => Keep
    case Some((ip, mask)) => Inet(ip, ConvertNetmask(mask))
  }

  function EtherPatch(line: string): Patch {
    match Capture(line, "ether", NonSpace)
    case None => Keep
    case Some(mac) => Ether(mac)
  }

  /** A patch touches only its own fields. */
  function Apply(r: Iface, p: Patch): (r': Iface)
    ensures r'.name == r.name && r'.status == r.status && r'.mtu == r.mtu && r'.flags == r.flags
    ensures p.Inet? ==> r'.ipv4 == p.ip && r'.netmask == p.mask && r'.mac == r.mac
    ensures p.Ether? ==> r'.mac == p.mac && r'.ipv4 == r.ipv4 && r'.netmask == r.netmask
    ensures p.Keep? ==> r' == r
  {
    match p
    case Keep => r
    case Inet(ip, mask) => r.(ipv4 := ip, netmask := mask)
    case Ether(mac) => r.(mac := mac)
  }

  /** What a line of the output does: it opens a block (with the new record when the
      header pattern matches), fills the open record, or is blank. */
  datatype Kind = Opens(header: Option<Iface>) | Fills(patch: Patch) | Blank

  function Classify(line: string): Kind {
    if StartsBlock(line) then
      match HeaderMatch(line)
      case Some((name, flags)) => Opens(Some(NewRecord(line, name, flags)))
      case None => Opens(None)
    else if Strip(line) != [] then Fills(PatchOf(line))
    else Blank
  }

  function Kinds(lines: seq<string>): (r: seq<Kind>)
    ensures |r| == |lines|
  {
    if lines == [] then [] else Kinds(lines[..|lines| - 1]) + [Classify(lines[|lines| - 1])]
  }

  lemma {:induction false} KindAt(lines: seq<string>, i: nat)
    requires i < |lines|
    ensures Kinds(lines)[i] == Classify(lines[i])
  {
    if i < |lines| - 1 {
      var init := lines[..|lines| - 1];
      KindAt(init, i);
      assert init[i] == lines[i];
    }
  }

  // ---------------------------------------------------------------------------------
  // The line loop.

  /** The parser between two lines. `done` holds the list entries whose dict is no
      longer `current_iface`; `current` is the dict being filled; `shared` counts the
      entries that are that same dict. A header line that fails the regex appends
      `current_iface` and keeps it, so one dict can stand in the list several times,
      each entry showing the dict's final contents. */
  datatype Scan = Scan(done: seq<Iface>, current: Option<Iface>, shared: nat)

  const Start := Scan([], None, 0)

  function Repeat(r: Iface, n: nat): (s: seq<Iface>)
    ensures |s| == n && forall i :: 0 <= i < n ==> s[i] == r
  {
    if n == 0 then [] else Repeat(r, n - 1) + [r]
  }

  /** The entries that are the current dict, `n` of them. */
  function Aliases(current: Option<Iface>, n: nat): seq<Iface> {
    if current.Some? then Repeat(current.value, n) else []
  }

  /** The list as Python holds it between two lines. */
  function Listed(st: Scan): seq<Iface> { st.done + Aliases(st.current, st.shared) }

  function Step(st: Scan, k: Kind): Scan {
    match k
    case Opens(header) =>
      var shared := if st.current.Some? then st.shared + 1 else st.shared;
      if header.Some? then Scan(st.done + Aliases(st.current, shared), header, 0)
      else Scan(st.done, st.current, shared)
    case Fills(p) =>
      if st.current.Some? then st.(current := Some(Apply(st.current.value, p))) else st
    case Blank => st
  }

  function Steps(st: Scan, kinds: seq<Kind>): Scan {
    if kinds == [] then st else Step(Steps(st, kinds[..|kinds| - 1]), kinds[|kinds| - 1])
  }

  /** The list after the last line, with the record still open appended. */
  function Finish(st: Scan): seq<Iface> { st.done + Aliases(st.current, st.shared + 1) }

  /** The parser on a list of lines. */
  function ParseLines(lines: seq<string>): seq<Iface> { Finish(Steps(Start, Kinds(lines))) }

  /** `_parse_ifconfig_output(output)` */
  function ParseIfconfig(output: string): seq<Iface> { ParseLines(Split(output, '\n')) }

  /** The loop state after the lines of the first `i` kinds: the list, the open dict and
      how many list entries are that dict. */
  ghost predicate Scanned(kinds: seq<Kind>, i: nat, interfaces: seq<Iface>, current: Option<Iface>, shared: nat)
    requires i <= |kinds|
  {
    var st := Steps(Start, kinds[..i]);
    st.current == current && st.shared == shared && interfaces == Listed(st) &&
    (current.None? ==> shared == 0)
  }

  /** The loop body on line `i`, of kind `k`. */
  method ScanLine(ghost kinds: seq<Kind>, i: nat, k: Kind, interfaces: seq<Iface>, current: Option<Iface>, shared: nat)
    returns (interfaces': seq<Iface>, current': Option<Iface>, shared': nat)
    requires i < |kinds| && k == kinds[i] && Scanned(kinds, i, interfaces, current, shared)
    ensures Scanned(kinds, i + 1, interfaces', current', shared')
  {
    assert kinds[..i + 1][..i] == kinds[..i];
    interfaces', current', shared' := ScanKind(Steps(Start, kinds[..i]).done, interfaces, current, shared, k);
  }

  /** The kind of line `i`, as the loop body's tests find it. */
  method ClassifyAt(lines: seq<string>, i: nat) returns (k: Kind)
    requires i < |lines|
    ensures k == Kinds(lines)[i]
  {
    k := Classify(lines[i]);
    KindAt(lines, i);
  }

  /** One pass of the loop body on the list, the open dict and the number of list
      entries that are that dict, for a line of kind `k`; `done` names the entries
      before those. */
  method ScanKind(ghost done: seq<Iface>, interfaces: seq<Iface>, current: Option<Iface>, shared: nat, k: Kind)
    returns (interfaces': seq<Iface>, current': Option<Iface>, shared': nat)
    requires current.None? ==> shared == 0
    requires interfaces == Listed(Scan(done, current, shared))
    ensures var st := Step(Scan(done, current, shared), k);
      current' == st.current && shared' == st.shared && interfaces' == Listed(st)
    ensures current'.None? ==> shared' == 0
  {
    interfaces', current', shared' := interfaces, current, shared;
    match k
    case Opens(header) =>
      if current.Some? {
        interfaces' := interfaces + [current.value];
        shared' := shared + 1;
      }
      if header.Some? {
        current' := header;
        shared' := 0;
      }
    case Fills(p) =>
      if current.Some? {
        current' := Some(Apply(current.value, p));
        assert interfaces[..|interfaces| - shared] == done;
        interfaces' := interfaces[..|interfaces| - shared] + Repeat(current'.value, shared);
      }
    case Blank =>
  }

  /** `_parse_ifconfig_output`: the Python loop, with the list entries that are
      `current_iface` rewritten whenever that dict changes. */
  method ParseIfconfigOutput(output: string) returns (interfaces: seq<Iface>)
    ensures interfaces == ParseIfconfig(output)
  {
    var lines := Split(output, '\n');
    interfaces := [];
    var current: Option<Iface> := None;
    var shared := 0;
    ghost var kinds := Kinds(lines);
    var i := 0;
    while i < |lines|
      invariant 0 <= i <= |lines|
      invariant Scanned(kinds, i, interfaces, current, shared)
    {
      var k := ClassifyAt(lines, i);
      interfaces, current, shared := ScanLine(kinds, i, k, interfaces, current, shared);
      i := i + 1;
    }
    assert Kinds(lines)[..i] == Kinds(lines);
    if current.Some? {
      interfaces := interfaces + [current.value];
    }
  }

  /** `get_interface_details`: the first record of a successful `ifconfig <iface>`. */
  function InterfaceDetails(success: bool, stdout: string): (r: Option<Iface>)
    ensures r.Some? <==> success && ParseIfconfig(stdout) != []
    ensures r.Some? ==> r.value == ParseIfconfig(stdout)[0]
  {
    if !success then None
    else
      var interfaces := ParseIfconfig(stdout);
      if interfaces == [] then None else Some(interfaces[0])
  }

  // ---------------------------------------------------------------------------------
  // What single lines yield.

  lemma HeaderNameOf(name: string, rest: string)
    requires name != [] && NoSpace(name) && rest != [] && IsSpace(rest[0])
    ensures HeaderName(name + ":" + rest) == Some((name, rest))
  {
    var line := name + ":" + rest;
    assert line == (name + ":") + rest;
    TokenLenOf(name + ":", rest);
    assert line[|name| + 1..] == rest;
    assert line[..|name|] == name;
  }

  lemma AngleGroupOf(hex: string, flags: string, tail: string)
    requires HasNo(hex, '<') && flags != [] && HasNo(flags, '>')
    ensures AngleGroup(hex + "<" + flags + ">" + tail) == Some(flags)
  {
    var body := hex + "<" + flags + ">" + tail;
    assert body == hex + ['<'] + (flags + ">" + tail);
    IndexOfAfter(hex, '<', flags + ">" + tail);
    assert body[|hex| + 1..] == flags + ['>'] + tail;
    IndexOfAfter(flags, '>', tail);
    assert (flags + ['>'] + tail)[..|flags|] == flags;
  }

  lemma FlagsOfFlags(body: string)
    ensures FlagsOf(" flags=" + body) == AngleGroup(body)
  {
    var rest := " flags=" + body;
    assert rest == " " + ("flags=" + body);
    SpaceLenOf(" ", "flags=" + body);
    assert rest[1..] == "flags=" + body;
    assert ("flags=" + body)[6..] == body;
  }

  /** A header `<name>: flags=<hex><<flags>>...` yields the name and the flag list. */
  lemma HeaderOf(name: string, hex: string, flags: string, tail: string)
    requires name != [] && NoSpace(name)
    requires HasNo(hex, '<') && flags != [] && HasNo(flags, '>')
    ensures HeaderMatch(name + ": flags=" + hex + "<" + flags + ">" + tail) == Some((name, flags))
  {
    var body := hex + "<" + flags + ">" + tail;
    assert name + ": flags=" + hex + "<" + flags + ">" + tail == name + ":" + (" flags=" + body);
    HeaderNameOf(name, " flags=" + body);
    FlagsOfFlags(body);
    AngleGroupOf(hex, flags, tail);
  }

  lemma InetSearch(ip: string, mask: string)
    requires ip != [] && NoSpace(ip) && mask != [] && NoSpace(mask)
    ensures InetFrom("inet " + ip + " netmask " + mask, 0) == Some((ip, mask))
  {
    var line := "inet " + ip + " netmask " + mask;
    InetRun(line, ip, mask);
    NetmaskOf(mask);
    InetAtStart(line, ip, " netmask " + mask, mask);
  }

  lemma InetRun(line: string, ip: string, mask: string)
    requires ip != [] && NoSpace(ip) && line == "inet " + ip + " netmask " + mask
    ensures StartsWith(line, "inet") && SpacedRun(NonSpace, line[4..]) == Some((ip, " netmask " + mask))
  {
    assert line[4..] == " " + ip + (" netmask " + mask);
    assert line[..4] == "inet";
    SpacedRunOf(NonSpace, " ", ip, " netmask " + mask);
  }

  lemma InetAtStart(line: string, ip: string, rest: string, mask: string)
    requires StartsWith(line, "inet")
    requires SpacedRun(NonSpace, line[4..]) == Some((ip, rest)) && NetmaskAfter(rest) == Some(mask)
    ensures InetFrom(line, 0) == Some((ip, mask))
  {
    assert OccursAt(line, "inet", 0);
  }

  lemma NetmaskOf(mask: string)
    requires mask != [] && NoSpace(mask)
    ensures NetmaskAfter(" netmask " + mask) == Some(mask)
  {
    var rest := " netmask " + mask;
    SpaceLenOf(" ", "netmask " + mask);
    assert rest == " " + ("netmask " + mask);
    assert rest[1..] == "netmask " + mask;
    assert ("netmask " + mask)[7..] == " " + mask + "";
    SpacedRunOf(NonSpace, " ", mask, "");
  }

  /** A stripped line `inet <ip> netmask <mask>` sets the address and the converted
      netmask. */
  lemma InetLine(ip: string, mask: string)
    requires ip != [] && NoSpace(ip) && mask != [] && NoSpace(mask)
    ensures PatchOf("inet " + ip + " netmask " + mask) == Inet(ip, ConvertNetmask(mask))
  {
    var line := "inet " + ip + " netmask " + mask;
    assert Strip(line) == line by {
      StripNoSpace(line);
    }
    assert StrippedPatch(line) == Inet(ip, ConvertNetmask(mask)) by {
      InetSearch(ip, mask);
      assert StartsWith(line, "inet ");
    }
  }

  /** A stripped line `ether <mac>` sets the hardware address. */
  lemma EtherLine(mac: string)
    requires mac != [] && NoSpace(mac)
    ensures PatchOf("ether " + mac) == Ether(mac)
  {
    var line := "ether " + mac;
    assert Strip(line) == line by {
      StripNoSpace(line);
    }
    EtherPatchOf(mac, line);
    StrippedEther(line);
  }

  lemma StrippedEther(line: string)
    requires StartsWith(line, "ether ")
    ensures StrippedPatch(line) == EtherPatch(line)
  {
    assert !StartsWith(line, "inet ") by {
      assert line[0] == 'e' && "inet "[0] == 'i';
    }
  }

  lemma EtherPatchOf(mac: string, line: string)
    requires mac != [] && NoSpace(mac) && line == "ether " + mac
    ensures StartsWith(line, "ether ") && EtherPatch(line) == Ether(mac)
  {
    EtherSearch(mac);
  }

  lemma EtherSearch(mac: string)
    requires mac != [] && NoSpace(mac)
    ensures Capture("ether " + mac, "ether", NonSpace) == Some(mac)
  {
    var line := "ether " + mac;
    assert line[5..] == " " + mac + "";
    SpacedRunOf(NonSpace, " ", mac, "");
    assert OccursAt(line, "ether", 0);
    CaptureAtStart(line, "ether", NonSpace);
  }

  // ---------------------------------------------------------------------------------
  // What the loop builds.

  lemma StepsSnoc(kinds: seq<Kind>, k: Kind)
    ensures Steps(Start, kinds + [k]) == Step(Steps(Start, kinds), k)
  {
    assert (kinds + [k])[..|kinds|] == kinds;
  }

  /** A line that fills or is blank: it opens no block. */
  predicate InBlock(k: Kind) { !k.Opens? }

  /** The record a header opens, finished by the patches of the lines after it. */
  function Patched(r: Iface, kinds: seq<Kind>): Iface {
    if kinds == [] then r
    else
      var prev := Patched(r, kinds[..|kinds| - 1]);
      match kinds[|kinds| - 1]
      case Fills(p) => Apply(prev, p)
      case _ => prev
  }

  /** A matching header followed by lines that open no block gives exactly one record:
      the header's, updated by each detail line in turn. */
  lemma OneBlock(rec: Iface, body: seq<Kind>)
    requires forall i :: 0 <= i < |body| ==> InBlock(body[i])
    ensures Finish(Steps(Start, [Opens(Some(rec))] + body)) == [Patched(rec, body)]
  {
    BlockSteps(rec, body);
  }

  lemma {:induction false} BlockSteps(rec: Iface, body: seq<Kind>)
    requires forall i :: 0 <= i < |body| ==> InBlock(body[i])
    ensures Steps(Start, [Opens(Some(rec))] + body) == Scan([], Some(Patched(rec, body)), 0)
  {
    if body == [] {
      assert [Opens(Some(rec))] + body == [] + [Opens(Some(rec))];
      StepsSnoc([], Opens(Some(rec)));
    } else {
      var init := body[..|body| - 1];
      var last := body[|body| - 1];
      assert [Opens(Some(rec))] + body == ([Opens(Some(rec))] + init) + [last];
      BlockSteps(rec, init);
      StepsSnoc([Opens(Some(rec))] + init, last);
    }
  }

  /** Lines that open a block. */
  function CountOpens(kinds: seq<Kind>): nat {
    if kinds == [] then 0
    else CountOpens(kinds[..|kinds| - 1]) + (if kinds[|kinds| - 1].Opens? then 1 else 0)
  }

  /** When every line that opens a block matches the header pattern, there is one
      record per such line. */
  lemma OneRecordPerHeader(kinds: seq<Kind>)
    requires forall i :: 0 <= i < |kinds| ==> kinds[i] != Opens(None)
    ensures |Finish(Steps(Start, kinds))| == CountOpens(kinds)
  {
    HeaderCount(kinds);
  }

  lemma {:induction false} HeaderCount(kinds: seq<Kind>)
    requires forall i :: 0 <= i < |kinds| ==> kinds[i] != Opens(None)
    ensures var st := Steps(Start, kinds);
      st.shared == 0 && |st.done| + (if st.current.Some? then 1 else 0) == CountOpens(kinds)
  {
    if kinds != [] {
      var init := kinds[..|kinds| - 1];
      HeaderCount(init);
      assert kinds == init + [kinds[|kinds| - 1]];
      StepsSnoc(init, kinds[|kinds| - 1]);
    }
  }

  /** A line that opens a block but fails the header pattern appends the open record a
      second time: both entries are the same dict, so both show what later lines
      write into it. */
  lemma RepeatedRecord(rec: Iface, p: Patch)
    ensures var r := Apply(rec, p);
      Finish(Steps(Start, [Opens(Some(rec)), Opens(None), Fills(p)])) == [r, r]
  {
    var k := [Opens(Some(rec)), Opens(None), Fills(p)];
    StepsSnoc([], Opens(Some(rec)));
    assert [] + [Opens(Some(rec))] == [Opens(Some(rec))];
    StepsSnoc([Opens(Some(rec))], Opens(None));
    assert [Opens(Some(rec))] + [Opens(None)] == k[..2];
    StepsSnoc(k[..2], Fills(p));
    assert k[..2] + [Fills(p)] == k;
  }

  /** Blank lines, and detail lines before the first header, leave the result as it
      is. */
  lemma SkippedLines(kinds: seq<Kind>, k: Kind)
    requires k == Blank || (k.Fills? && Steps(Start, kinds).current.None?)
    ensures Finish(Steps(Start, kinds + [k])) == Finish(Steps(Start, kinds))
  {
    StepsSnoc(kinds, k);
  }

  // ---------------------------------------------------------------------------------
  // Hexadecimal netmasks.

  /** Any hexadecimal netmask becomes a valid dotted address whose 32-bit value is the
      low 32 bits of the number. */
  lemma DottedBytesValid(v: nat)
    ensures ValidateIpAddress(DottedBytes(v))
    ensures AddressValue(DottedBytes(v)) == v % 0x1_0000_0000
  {
    var a, b, c, d := v / 0x100_0000 % 0x100, v / 0x1_0000 % 0x100, v / 0x100 % 0x100, v % 0x100;
    FormattedIsValid(a, b, c, d);
    ByteSplit(v);
  }

  lemma ByteSplit(v: nat)
    ensures 0x100_0000 * (v / 0x100_0000 % 0x100) + 0x1_0000 * (v / 0x1_0000 % 0x100) +
            0x100 * (v / 0x100 % 0x100) + v % 0x100 == v % 0x1_0000_0000
  {
    var v1 := v / 0x100;
    var v2 := v1 / 0x100;
    var v3 := v2 / 0x100;
    assert v == 0x100 * v1 + v % 0x100;
    assert v1 == 0x100 * v2 + v1 % 0x100;
    assert v2 == 0x100 * v3 + v2 % 0x100;
    assert v3 == 0x100 * (v3 / 0x100) + v3 % 0x100;
    assert v2 == v / 0x1_0000;
    assert v3 == v / 0x100_0000;
    var low := 0x100_0000 * (v3 % 0x100) + 0x1_0000 * (v2 % 0x100) + 0x100 * (v1 % 0x100) + v % 0x100;
    assert v == 0x1_0000_0000 * (v3 / 0x100) + low;
    assert 0 <= low < 0x1_0000_0000;
  }

  lemma HexValueSnoc(s: string, c: char)
    requires forall i :: 0 <= i < |s| ==> HexOrUnderscore(s[i])
    requires IsHexDigit(c)
    ensures HexValue(s + [c]) == 16 * HexValue(s) + HexDigitValue(c)
  {
    assert (s + [c])[..|s|] == s;
  }

  /** FreeBSD's `netmask 0xffffff00` is stored as `255.255.255.0`. */
  lemma ClassCHexNetmask(mask: string)
    requires mask == "0xffffff00"
    ensures ConvertNetmask(mask) == "255.255.255.0"
  {
    assert mask[2..] == "ffffff00";
    HexClassC("ffffff00");
    DottedClassC(0xffffff00);
  }

  lemma HexClassC(t: string)
    requires t == "ffffff00"
    ensures ParseHex(t) == Some(0xffffff00)
  {
    assert HexLiteral(t);
    HexDigitsValue(t);
  }

  lemma HexDigitsValue(t: string)
    requires t == "ffffff00"
    ensures HexValue(t) == 0xffffff00
  {
    var s0: string := [];
    var s1 := s0 + ['f'];
    HexValueSnoc(s0, 'f');
    var s2 := s1 + ['f'];
    HexValueSnoc(s1, 'f');
    var s3 := s2 + ['f'];
    HexValueSnoc(s2, 'f');
    var s4 := s3 + ['f'];
    HexValueSnoc(s3, 'f');
    var s5 := s4 + ['f'];
    HexValueSnoc(s4, 'f');
    var s6 := s5 + ['f'];
    HexValueSnoc(s5, 'f');
    var s7 := s6 + ['0'];
    HexValueSnoc(s6, '0');
    var s8 := s7 + ['0'];
    HexValueSnoc(s7, '0');
    assert s8 == t;
  }

  lemma DottedClassC(v: nat)
    requires v == 0xffffff00
    ensures DottedBytes(v) == "255.255.255.0"
  {
    assert v / 0x100_0000 % 0x100 == 255 && v / 0x1_0000 % 0x100 == 255;
    assert v / 0x100 % 0x100 == 255 && v % 0x100 == 0;
    assert NatToString(25) == "25";
    assert NatToString(255) == "255";
  }
}
