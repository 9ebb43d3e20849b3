/** The IPv4 address and netmask validators of `bsd_netgui/utils/system_utils.py`.
    The dotted-quad grammar (IPv4 addresses, RFC 791) is written out directly, as the
    standard-library address parser applies it to a string: four `.`-separated octets,
    each one to three ASCII digits without a leading zero, of value at most 255. */
module SystemUtils {
  import opened Wrappers
  import opened Text

  /** One octet as the address parser accepts it. */
  predicate IsOctet(s: string) {
    IsDigits(s) && |s| <= 3 && (|s| > 1 ==> s[0] != '0') && DigitsValue(s) <= 255
  }

  /** `validate_ip_address`. */
  predicate ValidateIpAddress(ip: string) {
    var parts := Split(ip, '.');
    |parts| == 4 && IsOctet(parts[0]) && IsOctet(parts[1]) && IsOctet(parts[2]) && IsOctet(parts[3])
  }

  /** The canonical dotted-quad text of four octet values. */
  function FormatIPv4(a: nat, b: nat, c: nat, d: nat): string {
    Join(".", [NatToString(a), NatToString(b), NatToString(c), NatToString(d)])
  }

  /** The 32-bit value of a valid address (Python `int(IPv4Address(ip))`). */
  function AddressValue(ip: string): (v: nat)
    requires ValidateIpAddress(ip)
    ensures v < 0x1_0000_0000
  {
    var p := Split(ip, '.');
    0x100_0000 * DigitsValue(p[0]) + 0x1_0000 * DigitsValue(p[1]) + 0x100 * DigitsValue(p[2]) + DigitsValue(p[3])
  }

  /** The `w` low bits of `v`, most significant first, as `'0'`/`'1'` characters; for
      `w == 32` and `v < 2^32` this is Python's `bin(v)[2:].zfill(32)`. */
  function Binary(v: nat, w: nat): (r: string)
    ensures |r| == w
  {
    if w == 0 then "" else Binary(v / 2, w - 1) + [if v % 2 == 1 then '1' else '0']
  }

  /** `validate_netmask`: a decimal prefix length 0..32, or a dotted quad whose 32-bit
      pattern has no `01` transition. */
  predicate ValidateNetmask(netmask: string) {
    if IsDigits(netmask) then DigitsValue(netmask) <= 32
    else ValidateIpAddress(netmask) && !Contains(Binary(AddressValue(netmask), 32), "01")
  }

  // ---------------------------------------------------------------------------------
  // The address grammar is exactly the canonical decimal rendering of four octets.

  lemma {:induction false} CanonicalDigits(s: string)
    requires IsDigits(s) && (|s| > 1 ==> s[0] != '0')
    ensures NatToString(DigitsValue(s)) == s
  {
    var n := DigitsValue(s);
    var last := s[|s| - 1];
    if |s| == 1 {
      assert s[..0] == [];
      assert DigitsValue(s[..0]) == 0;
      assert n == last as int - '0' as int;
    } else {
      var init := s[..|s| - 1];
      assert init[0] == s[0];
      assert IsDigits(init);
      CanonicalDigits(init);
      assert n == 10 * DigitsValue(init) + (last as int - '0' as int);
      LeadingDigitPositive(init);
      assert n / 10 == DigitsValue(init) && n % 10 == last as int - '0' as int;
      assert s == init + [last];
    }
  }

  lemma {:induction false} LeadingDigitPositive(s: string)
    requires IsDigits(s) && s[0] != '0'
    ensures DigitsValue(s) > 0
  {
    if |s| > 1 {
      var init := s[..|s| - 1];
      assert init[0] == s[0];
      LeadingDigitPositive(init);
    }
  }

  lemma OctetOfValue(n: nat)
    requires n <= 255
    ensures IsOctet(NatToString(n))
  {
    NatToStringValue(n);
    var s := NatToString(n);
    if n >= 10 {
      if n >= 100 {
        assert NatToString(n / 10) == NatToString(n / 10 / 10) + [DigitChar(n / 10 % 10)];
      }
    }
  }

  /** An address is valid exactly when it is the dotted rendering of four values 0..255. */
  lemma ValidAddressIsCanonical(ip: string)
    ensures ValidateIpAddress(ip) <==>
      exists a: nat, b: nat, c: nat, d: nat :: a <= 255 && b <= 255 && c <= 255 && d <= 255 && ip == FormatIPv4(a, b, c, d)
  {
    if ValidateIpAddress(ip) {
      var p := Split(ip, '.');
      var a, b, c, d := DigitsValue(p[0]), DigitsValue(p[1]), DigitsValue(p[2]), DigitsValue(p[3]);
      CanonicalDigits(p[0]);
      CanonicalDigits(p[1]);
      CanonicalDigits(p[2]);
      CanonicalDigits(p[3]);
      assert [NatToString(a), NatToString(b), NatToString(c), NatToString(d)] == p;
      JoinSplit(ip, '.');
      assert ip == FormatIPv4(a, b, c, d);
    }
    if exists a: nat, b: nat, c: nat, d: nat :: a <= 255 && b <= 255 && c <= 255 && d <= 255 && ip == FormatIPv4(a, b, c, d) {
      var a: nat, b: nat, c: nat, d: nat :| a <= 255 && b <= 255 && c <= 255 && d <= 255 && ip == FormatIPv4(a, b, c, d);
      FormattedIsValid(a, b, c, d);
    }
  }

  lemma FormattedIsValid(a: nat, b: nat, c: nat, d: nat)
    requires a <= 255 && b <= 255 && c <= 255 && d <= 255
    ensures ValidateIpAddress(FormatIPv4(a, b, c, d))
    ensures AddressValue(FormatIPv4(a, b, c, d)) == 0x100_0000 * a + 0x1_0000 * b + 0x100 * c + d
  {
    var parts := [NatToString(a), NatToString(b), NatToString(c), NatToString(d)];
    OctetOfValue(a);
    OctetOfValue(b);
    OctetOfValue(c);
    OctetOfValue(d);
    forall i | 0 <= i < 4 ensures HasNo(parts[i], '.') {
      assert IsDigits(parts[i]);
    }
    SplitJoin(parts, '.');
    NatToStringValue(a);
    NatToStringValue(b);
    NatToStringValue(c);
    NatToStringValue(d);
  }

  lemma {:induction false} JoinSplit(s: string, c: char)
    ensures Join([c], Split(s, c)) == s
    decreases |s|
  {
    match IndexOf(s, c)
    case None =>
    case Some(i) =>
      var a, rest := s[..i], s[i + 1..];
      JoinSplit(rest, c);
      var r := Split(rest, c);
      var parts := [a] + r;
      assert Split(s, c) == parts;
      assert parts[0] == a && parts[1..] == r;
      assert s == a + [c] + rest;
  }

  // ---------------------------------------------------------------------------------
  // Netmask bit patterns.

  /** `n` copies of the bit character `c`. */
  function Run(c: char, n: nat): (r: string)
    ensures |r| == n && forall i :: 0 <= i < n ==> r[i] == c
  {
    if n == 0 then "" else [c] + Run(c, n - 1)
  }

  predicate IsBitString(s: string) { forall i :: 0 <= i < |s| ==> s[i] == '0' || s[i] == '1' }

  /** Every character of a dotted join of digit strings is a digit or a dot. */
  lemma {:induction false} JoinedDigits(parts: seq<string>)
    requires forall i :: 0 <= i < |parts| ==> IsDigits(parts[i])
    ensures forall k :: 0 <= k < |Join(".", parts)| ==> IsDigit(Join(".", parts)[k]) || Join(".", parts)[k] == '.'
  {
    if |parts| > 1 {
      JoinedDigits(parts[1..]);
      var rest := Join(".", parts[1..]);
      var j := parts[0] + "." + rest;
      assert Join(".", parts) == j;
      forall k | 0 <= k < |j| ensures IsDigit(j[k]) || j[k] == '.' {
        if k < |parts[0]| {
          assert j[k] == parts[0][k];
        } else if k > |parts[0]| {
          assert j[k] == rest[k - |parts[0]| - 1];
        }
      }
    }
  }

  /** A valid address is non-empty and made of digits and dots only: it holds no
      whitespace, quote, `#` or `=`. */
  lemma AddressChars(ip: string)
    requires ValidateIpAddress(ip)
    ensures ip != [] && forall k :: 0 <= k < |ip| ==> IsDigit(ip[k]) || ip[k] == '.'
  {
    var parts := Split(ip, '.');
    JoinSplit(ip, '.');
    JoinedDigits(parts);
    assert |Join(".", parts)| >= |parts[0]| > 0;
  }

  /** So does a valid netmask, in either of its forms. */
  lemma NetmaskChars(m: string)
    requires ValidateNetmask(m)
    ensures m != [] && forall k :: 0 <= k < |m| ==> IsDigit(m[k]) || m[k] == '.'
  {
    if !IsDigits(m) {
      AddressChars(m);
    }
  }

  /** A value still wrapped in its double quotes is never a valid address (as
      `defaultrouter="192.168.1.1"` is stored by the parser). */
  lemma QuotedNotAddress(v: string)
    requires v != [] && v[0] == '"'
    ensures !ValidateIpAddress(v)
  {
    if ValidateIpAddress(v) {
      AddressChars(v);
      assert false;
    }
  }

  lemma BinaryIsBits(v: nat, w: nat)
    ensures IsBitString(Binary(v, w))
  {
  }

  /** A bit string has no `01` transition exactly when it is a run of ones followed by a
      run of zeros: the contiguous-mask shape of CIDR prefix notation (RFC 4632, section 3.1). */
  lemma {:induction false} NoZeroOneIsContiguous(s: string)
    requires IsBitString(s)
    ensures !Contains(s, "01") <==> exists p :: 0 <= p <= |s| && s == Run('1', p) + Run('0', |s| - p)
    decreases |s|
  {
    if s == [] {
      assert s == Run('1', 0) + Run('0', 0);
    } else {
      var t := s[1..];
      assert IsBitString(t);
      NoZeroOneIsContiguous(t);
      if !Contains(s, "01") {
        if s[0] == '1' {
          NoZeroOneSuffix(s);
          var p :| 0 <= p <= |t| && t == Run('1', p) + Run('0', |t| - p);
          OnesCons(s, p);
        } else {
          AllZeroAfterZero(s);
          assert s == Run('1', 0) + Run('0', |s|);
        }
      }
      if exists p :: 0 <= p <= |s| && s == Run('1', p) + Run('0', |s| - p) {
        var p :| 0 <= p <= |s| && s == Run('1', p) + Run('0', |s| - p);
        ContiguousHasNoZeroOne(p, |s| - p);
      }
    }
  }

  /** A one in front of a contiguous pattern keeps it contiguous. */
  lemma OnesCons(s: string, p: nat)
    requires s != [] && s[0] == '1' && p <= |s| - 1 && s[1..] == Run('1', p) + Run('0', |s| - 1 - p)
    ensures s == Run('1', p + 1) + Run('0', |s| - (p + 1))
  {
    assert s == [s[0]] + s[1..];
  }

  lemma NoZeroOneSuffix(s: string)
    requires s != [] && !Contains(s, "01")
    ensures !Contains(s[1..], "01")
  {
    if Contains(s[1..], "01") {
      var j := Find(s[1..], "01").value;
      assert s[j + 1..j + 3] == s[1..][j..j + 2];
      assert OccursAt(s, "01", j + 1);
      assert false;
    }
  }

  lemma AllZeroAfterZero(s: string)
    requires IsBitString(s) && s != [] && s[0] == '0' && !Contains(s, "01")
    ensures s == Run('0', |s|)
  {
    forall i | 0 <= i < |s| ensures s[i] == '0' {
      ZeroPropagates(s, i);
    }
  }

  lemma ZeroPropagates(s: string, i: nat)
    requires IsBitString(s) && s != [] && s[0] == '0' && !Contains(s, "01") && i < |s|
    ensures s[i] == '0'
  {
    if i > 0 {
      ZeroPropagates(s, i - 1);
      if s[i] == '1' {
        assert s[i - 1..i + 1] == "01";
        assert OccursAt(s, "01", i - 1);
        assert false;
      }
    }
  }

  lemma ContiguousHasNoZeroOne(p: nat, q: nat)
    ensures !Contains(Run('1', p) + Run('0', q), "01")
  {
    var s := Run('1', p) + Run('0', q);
    forall j: nat | j + 2 <= |s| ensures !OccursAt(s, "01", j) {
      if j + 1 < p {
        assert s[j] == '1';
      } else {
        assert s[j + 1] == '0';
      }
      assert s[j..j + 2][0] == s[j] && s[j..j + 2][1] == s[j + 1];
    }
  }

  function Pow2(n: nat): (r: nat)
    ensures r >= 1
  {
    if n == 0 then 1 else 2 * Pow2(n - 1)
  }

  /** The value of a `'0'`/`'1'` string read as a binary numeral. */
  function BitsValue(s: string): nat {
    if s == [] then 0 else 2 * BitsValue(s[..|s| - 1]) + (if s[|s| - 1] == '1' then 1 else 0)
  }

  /** The value of `p` one bits followed by `w - p` zero bits. */
  function PrefixValue(p: nat, w: nat): nat
    requires p <= w
    decreases w
  {
    if w == 0 then 0
    else if p == w then 2 * PrefixValue(p - 1, w - 1) + 1
    else 2 * PrefixValue(p, w - 1)
  }

  /** The 32-bit value of the netmask with prefix length `p`. */
  function MaskValue(p: nat): nat
    requires p <= 32
  {
    PrefixValue(p, 32)
  }

  /** `Binary` loses nothing below its width. */
  lemma {:induction false} BinaryValue(v: nat, w: nat)
    requires v < Pow2(w)
    ensures BitsValue(Binary(v, w)) == v
  {
    if w > 0 {
      BinaryValue(v / 2, w - 1);
      var b := Binary(v, w);
      assert b[..|b| - 1] == Binary(v / 2, w - 1);
    }
  }

  /** A prefix mask written in binary is its ones followed by its zeros. */
  lemma {:induction false} PrefixBits(p: nat, w: nat)
    requires p <= w
    ensures PrefixValue(p, w) < Pow2(w)
    ensures Binary(PrefixValue(p, w), w) == Run('1', p) + Run('0', w - p)
    decreases w
  {
    if w > 0 {
      var v := PrefixValue(p, w);
      if p == w {
        PrefixBits(p - 1, w - 1);
        assert v / 2 == PrefixValue(p - 1, w - 1) && v % 2 == 1;
        assert Run('1', p - 1) + Run('0', 0) + "1" == Run('1', p) + Run('0', 0);
      } else {
        PrefixBits(p, w - 1);
        assert v / 2 == PrefixValue(p, w - 1) && v % 2 == 0;
        assert Run('1', p) + Run('0', w - 1 - p) + "0" == Run('1', p) + Run('0', w - p);
      }
    }
  }

  /** The mask of a prefix is the textbook `(2^p - 1) * 2^(w - p)`. */
  lemma {:induction false} PrefixArithmetic(p: nat, w: nat)
    requires p <= w
    ensures PrefixValue(p, w) == (Pow2(p) - 1) * Pow2(w - p)
    decreases w
  {
    if w > 0 {
      if p == w {
        PrefixArithmetic(p - 1, w - 1);
      } else {
        PrefixArithmetic(p, w - 1);
        MulDouble(Pow2(p) - 1, Pow2(w - 1 - p));
      }
    }
  }

  lemma MulDouble(a: nat, b: nat)
    ensures a * (2 * b) == 2 * (a * b)
  {
  }

  lemma {:induction false} PowAdd(a: nat, b: nat)
    ensures Pow2(a) * Pow2(b) == Pow2(a + b)
  {
    if a > 0 {
      PowAdd(a - 1, b);
    }
  }

  lemma Pow32()
    ensures Pow2(32) == 0x1_0000_0000
  {
    PowAdd(16, 16);
    PowAdd(8, 8);
    assert Pow2(8) == 256;
  }

  /** A dotted netmask is accepted exactly when it is a valid address whose 32-bit value
      is the mask of some prefix length 0..32. */
  lemma DottedNetmaskIsPrefixMask(m: string)
    requires !IsDigits(m)
    ensures ValidateNetmask(m) <==>
      ValidateIpAddress(m) && exists p: nat :: p <= 32 && AddressValue(m) == MaskValue(p)
  {
    if ValidateIpAddress(m) {
      var v := AddressValue(m);
      var bits := Binary(v, 32);
      BinaryIsBits(v, 32);
      NoZeroOneIsContiguous(bits);
      if !Contains(bits, "01") {
        var p :| 0 <= p <= 32 && bits == Run('1', p) + Run('0', 32 - p);
        MaskFromBits(v, p);
      }
      if exists p: nat :: p <= 32 && v == MaskValue(p) {
        var p: nat :| p <= 32 && v == MaskValue(p);
        MaskHasNoZeroOne(p);
      }
    }
  }

  /** A 32-bit value written as a prefix mask is that mask. */
  lemma MaskFromBits(v: nat, p: nat)
    requires v < 0x1_0000_0000 && p <= 32 && Binary(v, 32) == Run('1', p) + Run('0', 32 - p)
    ensures v == MaskValue(p)
  {
    Pow32();
    PrefixFromBits(v, p, 32);
  }

  lemma PrefixFromBits(v: nat, p: nat, w: nat)
    requires v < Pow2(w) && p <= w && Binary(v, w) == Run('1', p) + Run('0', w - p)
    ensures v == PrefixValue(p, w)
  {
    PrefixBits(p, w);
    BinaryValue(v, w);
    BinaryValue(PrefixValue(p, w), w);
  }

  /** The binary text of a prefix mask has no `01` transition. */
  lemma MaskHasNoZeroOne(p: nat)
    requires p <= 32
    ensures !Contains(Binary(MaskValue(p), 32), "01")
  {
    PrefixHasNoZeroOne(p, 32);
  }

  lemma PrefixHasNoZeroOne(p: nat, w: nat)
    requires p <= w
    ensures !Contains(Binary(PrefixValue(p, w), w), "01")
  {
    PrefixBits(p, w);
    ContiguousHasNoZeroOne(p, w - p);
  }

  // ---------------------------------------------------------------------------------
  // The values the unit tests pin.

  /** The value of a digit string of at most three digits, written out. */
  lemma ShortDigitsValue(s: string)
    requires IsDigits(s) && |s| <= 3
    ensures |s| == 1 ==> DigitsValue(s) == s[0] as int - '0' as int
    ensures |s| == 2 ==> DigitsValue(s) == 10 * (s[0] as int - '0' as int) + (s[1] as int - '0' as int)
    ensures |s| == 3 ==> DigitsValue(s) == 100 * (s[0] as int - '0' as int) + 10 * (s[1] as int - '0' as int) + (s[2] as int - '0' as int)
  {
    assert s[..|s| - 1][..0] == [];
    assert DigitsValue(s[..|s| - 1][..0]) == 0;
    if |s| >= 2 {
      assert s[..|s| - 1][..|s| - 2][..0] == [];
      assert DigitsValue(s[..|s| - 1][..|s| - 2][..0]) == 0;
    }
  }

  /** Four octets joined by dots form a valid address. */
  lemma ValidFromOctets(ip: string, p0: string, p1: string, p2: string, p3: string)
    requires IsOctet(p0) && IsOctet(p1) && IsOctet(p2) && IsOctet(p3)
    requires ip == p0 + "." + p1 + "." + p2 + "." + p3
    ensures ValidateIpAddress(ip) && !IsDigits(ip)
    ensures Split(ip, '.') == [p0, p1, p2, p3]
  {
    assert ip[|p0|] == '.';
    var parts := [p0, p1, p2, p3];
    forall i | 0 <= i < 4 ensures HasNo(parts[i], '.') {
      assert IsDigits(parts[i]);
    }
    JoinFour(p0, p1, p2, p3);
    SplitJoin(parts, '.');
  }

  lemma JoinFour(p0: string, p1: string, p2: string, p3: string)
    ensures Join(".", [p0, p1, p2, p3]) == p0 + "." + p1 + "." + p2 + "." + p3
  {
    var parts := [p0, p1, p2, p3];
    assert Join(".", parts[3..]) == p3;
    assert Join(".", parts[2..]) == p2 + "." + p3;
    assert Join(".", parts[1..]) == p1 + "." + p2 + "." + p3;
  }

  lemma Octet3(s: string)
    requires |s| == 3 && IsDigits(s) && s[0] != '0'
    requires 100 * (s[0] as int - '0' as int) + 10 * (s[1] as int - '0' as int) + (s[2] as int - '0' as int) <= 255
    ensures IsOctet(s)
  {
    ShortDigitsValue(s);
  }

  lemma ExampleHostAddress()
    ensures ValidateIpAddress("192.168.1.1")
  {
    Octet3("192");
    Octet3("168");
    ShortDigitsValue("1");
    ValidFromOctets("192.168.1.1", "192", "168", "1", "1");
  }

  lemma ExamplePrivateAddress()
    ensures ValidateIpAddress("10.0.0.1")
  {
    ShortDigitsValue("10");
    ShortDigitsValue("0");
    ShortDigitsValue("1");
    ValidFromOctets("10.0.0.1", "10", "0", "0", "1");
  }

  lemma ExampleBroadcastAddress()
    ensures ValidateIpAddress("255.255.255.255")
  {
    Octet3("255");
    ValidFromOctets("255.255.255.255", "255", "255", "255", "255");
  }

  /** An address whose first part is not an octet is refused. */
  lemma FirstPartNotOctet(ip: string, a: string, rest: string)
    requires ip == a + "." + rest && HasNo(a, '.') && !IsOctet(a)
    ensures !ValidateIpAddress(ip)
  {
    IndexOfAfter(a, '.', rest);
    assert ip == a + ['.'] + rest;
    assert ip[..|a|] == a;
  }

  /** Text without a dot is never an address. */
  lemma NoDotNotAddress(s: string)
    requires HasNo(s, '.')
    ensures !ValidateIpAddress(s)
  {
    assert IndexOf(s, '.').None?;
  }

  lemma ExampleInvalidAddresses(big: string, word: string, empty: string)
    requires big == "256.1.1.1" && word == "invalid" && empty == ""
    ensures !ValidateIpAddress(big)
    ensures !ValidateIpAddress(word)
    ensures !ValidateIpAddress(empty)
  {
    ShortDigitsValue("256");
    FirstPartNotOctet(big, "256", "1.1.1");
    NoDotNotAddress(word);
    NoDotNotAddress(empty);
  }

  lemma ExamplePrefixLengths()
    ensures ValidateNetmask("24")
    ensures ValidateNetmask("16")
  {
    ShortDigitsValue("24");
    ShortDigitsValue("16");
  }

  lemma ExampleInvalidNetmasks(word: string, dotted: string)
    requires word == "invalid" && dotted == "256.255.255.0"
    ensures !ValidateNetmask(word)
    ensures !ValidateNetmask(dotted)
  {
    assert !IsDigit(word[0]);
    NoDotNotAddress(word);
    NotAddressNotNetmask(word);
    assert !IsDigit(dotted[3]);
    ShortDigitsValue("256");
    FirstPartNotOctet(dotted, "256", "255.255.0");
    NotAddressNotNetmask(dotted);
  }

  lemma NotAddressNotNetmask(m: string)
    requires !IsDigits(m) && !ValidateIpAddress(m)
    ensures !ValidateNetmask(m)
  {
  }

  lemma NetmaskOfPrefix(m: string, p: nat)
    requires !IsDigits(m) && ValidateIpAddress(m) && p <= 32 && AddressValue(m) == MaskValue(p)
    ensures ValidateNetmask(m)
  {
    DottedNetmaskIsPrefixMask(m);
  }

  /** A dotted address whose parts combine to the mask of a prefix length is an accepted
      netmask. */
  lemma DottedMask(m: string, parts: seq<string>, p: nat)
    requires ValidateIpAddress(m) && !IsDigits(m) && Split(m, '.') == parts && p <= 32
    requires 0x100_0000 * DigitsValue(parts[0]) + 0x1_0000 * DigitsValue(parts[1]) +
      0x100 * DigitsValue(parts[2]) + DigitsValue(parts[3]) == MaskValue(p)
    ensures ValidateNetmask(m)
  {
    AddressValueOf(m, parts);
    NetmaskOfPrefix(m, p);
  }

  lemma AddressValueOf(ip: string, parts: seq<string>)
    requires ValidateIpAddress(ip) && Split(ip, '.') == parts
    ensures |parts| == 4 && IsOctet(parts[0]) && IsOctet(parts[1]) && IsOctet(parts[2]) && IsOctet(parts[3])
    ensures AddressValue(ip) == 0x100_0000 * DigitsValue(parts[0]) + 0x1_0000 * DigitsValue(parts[1]) +
      0x100 * DigitsValue(parts[2]) + DigitsValue(parts[3])
  {
  }

  lemma Pow2Values()
    ensures Pow2(8) == 0x100 && Pow2(16) == 0x1_0000 && Pow2(24) == 0x100_0000
  {
    assert Pow2(8) == 0x100;
    PowAdd(8, 8);
    PowAdd(16, 8);
  }

  /** The masks of the prefix lengths the unit tests use. */
  lemma MaskValues()
    ensures MaskValue(0) == 0 && MaskValue(16) == 0xFFFF_0000
    ensures MaskValue(24) == 0xFFFF_FF00 && MaskValue(32) == 0xFFFF_FFFF
  {
    Pow2Values();
    Pow32();
    PrefixArithmetic(0, 32);
    PrefixArithmetic(16, 32);
    PrefixArithmetic(24, 32);
    PrefixArithmetic(32, 32);
  }

  lemma ExampleClassCNetmask(m: string)
    requires m == "255.255.255.0"
    ensures ValidateNetmask(m)
  {
    Octet3("255");
    ShortDigitsValue("255");
    ShortDigitsValue("0");
    ValidFromOctets(m, "255", "255", "255", "0");
    MaskValues();
    DottedMask(m, ["255", "255", "255", "0"], 24);
  }

  lemma ExampleClassBNetmask(m: string)
    requires m == "255.255.0.0"
    ensures ValidateNetmask(m)
  {
    Octet3("255");
    ShortDigitsValue("255");
    ShortDigitsValue("0");
    ValidFromOctets(m, "255", "255", "0", "0");
    MaskValues();
    DottedMask(m, ["255", "255", "0", "0"], 16);
  }

  lemma ExampleLongPrefix()
    ensures !ValidateNetmask("33")
  {
    ShortDigitsValue("33");
  }

  /** The all-zero mask is accepted: it has no `01` transition. */
  lemma ExampleZeroNetmask(m: string)
    requires m == "0.0.0.0"
    ensures ValidateNetmask(m)
  {
    ShortDigitsValue("0");
    ValidFromOctets(m, "0", "0", "0", "0");
    MaskValues();
    DottedMask(m, ["0", "0", "0", "0"], 0);
  }

  /** The all-ones mask is accepted: it has no `01` transition. */
  lemma ExampleFullNetmask(m: string)
    requires m == "255.255.255.255"
    ensures ValidateNetmask(m)
  {
    Octet3("255");
    ShortDigitsValue("255");
    ValidFromOctets(m, "255", "255", "255", "255");
    MaskValues();
    DottedMask(m, ["255", "255", "255", "255"], 32);
  }

  /** Every mask shorter than 32 bits has its lowest bit clear. */
  lemma ShortMaskEven(p: nat)
    requires p < 32
    ensures MaskValue(p) % 2 == 0
  {
  }

  /** An odd value other than all ones is the mask of no prefix length. */
  lemma OddNotMask(v: nat)
    requires v % 2 == 1 && v != 0xFFFF_FFFF
    ensures forall p: nat :: p <= 32 ==> v != MaskValue(p)
  {
    forall p: nat | p <= 32 ensures v != MaskValue(p) {
      if p < 32 {
        ShortMaskEven(p);
      } else {
        MaskValues();
      }
    }
  }

  /** A dotted address with its lowest bit set is a netmask only if it is all ones. */
  lemma OddNotNetmask(m: string)
    requires !IsDigits(m) && ValidateIpAddress(m)
    requires AddressValue(m) % 2 == 1 && AddressValue(m) != 0xFFFF_FFFF
    ensures !ValidateNetmask(m)
  {
    OddNotMask(AddressValue(m));
    DottedNetmaskIsPrefixMask(m);
  }

  lemma ExampleGappedNetmask(m: string)
    requires m == "255.255.0.255"
    ensures !ValidateNetmask(m)
  {
    GappedValue(m);
    OddNotNetmask(m);
  }

  lemma GappedValue(m: string)
    requires m == "255.255.0.255"
    ensures ValidateIpAddress(m) && !IsDigits(m) && AddressValue(m) == 0xFFFF_00FF
  {
    Octet3("255");
    ShortDigitsValue("255");
    ShortDigitsValue("0");
    ValidFromOctets(m, "255", "255", "0", "255");
    AddressValueOf(m, ["255", "255", "0", "255"]);
  }
}
