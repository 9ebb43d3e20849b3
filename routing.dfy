/** The pure parts of `bsd_netgui/backend/routing_handler.py`: the `netstat -rn` table
    parser, the dotted-netmask to prefix-length conversion and the argument vector of
    `route add`. The command output is an input string; running the commands is not
    modelled. */
module Routing {
  import opened Wrappers
  import opened Text
  import opened SystemUtils

  // ---------------------------------------------------------------------------------
  // `_netmask_to_prefix`: `bin(int(octet))[2:].zfill(8)` per octet, then `count('1')`.

  function BitChar(b: bool): char { if b then '1' else '0' }

  /** The digits of Python `bin(n)` after its `0b`: no leading zero, `"0"` for zero. */
  function BinDigits(n: nat): (r: string)
    ensures r != [] && IsBitString(r)
  {
    if n < 2 then [BitChar(n == 1)] else BinDigits(n / 2) + [BitChar(n % 2 == 1)]
  }

  /** Python `bin(i)`: `0b` and the digits, with a leading `-` for a negative value. */
  function Bin(i: int): string {
    if i < 0 then "-0b" + BinDigits(-i) else "0b" + BinDigits(i)
  }

  /** Python `s.zfill(w)`: zeros on the left up to width `w`, after a leading sign. */
  function ZFill(s: string, w: nat): (r: string)
    ensures |r| == if |s| >= w then |s| else w
  {
    if |s| >= w then s
    else if s != [] && (s[0] == '+' || s[0] == '-') then [s[0]] + Run('0', w - |s|) + s[1..]
    else Run('0', w - |s|) + s
  }

  /** Python `s.count(c)` for one character. */
  function CountChar(s: string, c: char): nat {
    if s == [] then 0 else CountChar(s[..|s| - 1], c) + (if s[|s| - 1] == c then 1 else 0)
  }

  /** The text one octet contributes to the joined pattern. */
  function OctetBits(i: int): string {
    var b := Bin(i);
    ZFill(b[2..], 8)
  }

  /** `[int(o) for o in parts]`, or `None` when one of them raises `ValueError`. */
  function OctetValues(parts: seq<string>): (r: Option<seq<int>>)
    ensures r.Some? ==> |r.value| == |parts|
  {
    if parts == [] then Some([])
    else match (ParseInt(parts[0]), OctetValues(parts[1..]))
      case (Some(v), Some(vs)) => Some([v] + vs)
      case _ => None
  }

  function JoinedBits(vs: seq<int>): string {
    if vs == [] then "" else OctetBits(vs[0]) + JoinedBits(vs[1..])
  }

  /** `_netmask_to_prefix(netmask)`. */
  function NetmaskToPrefix(netmask: string): string {
    var octets := Split(netmask, '.');
    if |octets| != 4 then "32"
    else match OctetValues(octets)
      case None => "32"
      case Some(vs) => NatToString(CountChar(JoinedBits(vs), '1'))
  }

  /** The number of one bits of `n`. */
  function PopCount(n: nat): nat {
    if n == 0 then 0 else PopCount(n / 2) + n % 2
  }

  function Magnitude(i: int): nat { if i < 0 then -i else i }

  /** The one bits an octet that `int()` accepts contributes. */
  function OctetOnes(o: string): nat
    requires ParseInt(o).Some?
  {
    PopCount(Magnitude(ParseInt(o).value))
  }

  lemma {:induction false} CountAppend(a: string, b: string, c: char)
    ensures CountChar(a + b, c) == CountChar(a, c) + CountChar(b, c)
    decreases |b|
  {
    if b == [] {
      assert a + b == a;
    } else {
      var b' := b[..|b| - 1];
      assert (a + b)[..|a + b| - 1] == a + b';
      CountAppend(a, b', c);
    }
  }

  lemma {:induction false} CountZeros(n: nat)
    ensures CountChar(Run('0', n), '1') == 0
  {
    if n > 0 {
      assert Run('0', n) == "0" + Run('0', n - 1);
      CountZeros(n - 1);
      CountAppend("0", Run('0', n - 1), '1');
    }
  }

  lemma {:induction false} CountBinDigits(n: nat)
    ensures CountChar(BinDigits(n), '1') == PopCount(n)
  {
    if n >= 2 {
      CountBinDigits(n / 2);
      var b := BinDigits(n);
      assert b[..|b| - 1] == BinDigits(n / 2);
    }
  }

  /** What `bin(i)[2:]` leaves: the digits, behind a `b` for a negative value. */
  lemma BinTail(i: int)
    ensures Bin(i)[2..] == if i < 0 then "b" + BinDigits(Magnitude(i)) else BinDigits(Magnitude(i))
  {
  }

  /** Zero fill adds no one bits to text that does not start with a sign. */
  lemma ZFillOnes(s: string, w: nat)
    requires s != [] && s[0] != '+' && s[0] != '-'
    ensures CountChar(ZFill(s, w), '1') == CountChar(s, '1')
  {
    if |s| < w {
      CountZeros(w - |s|);
      CountAppend(Run('0', w - |s|), s, '1');
    }
  }

  /** An octet's text carries exactly the one bits of its magnitude: the zero fill adds
      none, and for a negative value the `b` left over from `-0b` adds none either. */
  lemma OctetBitsOnes(i: int)
    ensures CountChar(OctetBits(i), '1') == PopCount(Magnitude(i))
  {
    var d := BinDigits(Magnitude(i));
    var s := Bin(i)[2..];
    BinTail(i);
    CountBinDigits(Magnitude(i));
    if i < 0 {
      CountAppend("b", d, '1');
    }
    ZFillOnes(s, 8);
  }

  /** The one bits of a list of integers. */
  function SumOnes(vs: seq<int>): nat {
    if vs == [] then 0 else PopCount(Magnitude(vs[0])) + SumOnes(vs[1..])
  }

  lemma {:induction false} JoinedBitsOnes(vs: seq<int>)
    ensures CountChar(JoinedBits(vs), '1') == SumOnes(vs)
  {
    if vs != [] {
      OctetBitsOnes(vs[0]);
      CountAppend(OctetBits(vs[0]), JoinedBits(vs[1..]), '1');
      JoinedBitsOnes(vs[1..]);
    }
  }

  lemma SumOnesFour(a: int, b: int, c: int, d: int)
    ensures SumOnes([a, b, c, d]) == PopCount(Magnitude(a)) + PopCount(Magnitude(b)) +
      PopCount(Magnitude(c)) + PopCount(Magnitude(d))
  {
    var s4, s3, s2, s1 := [a, b, c, d], [b, c, d], [c, d], [d];
    assert s4[1..] == s3 && s3[1..] == s2 && s2[1..] == s1 && s1[1..] == [];
    assert SumOnes(s1) == PopCount(Magnitude(d)) + SumOnes([]);
    assert SumOnes(s2) == PopCount(Magnitude(c)) + SumOnes(s1);
    assert SumOnes(s3) == PopCount(Magnitude(b)) + SumOnes(s2);
    assert SumOnes(s4) == PopCount(Magnitude(a)) + SumOnes(s3);
  }

  /** When all four parts parse, the result is the count of their one bits. */
  lemma PrefixOfValues(m: string, vs: seq<int>)
    requires |Split(m, '.')| == 4 && OctetValues(Split(m, '.')) == Some(vs)
    ensures NetmaskToPrefix(m) == NatToString(SumOnes(vs))
  {
    JoinedBitsOnes(vs);
  }

  /** `_netmask_to_prefix` gives `"32"` unless the text splits on `.` into exactly four
      parts that `int()` accepts. */
  lemma NetmaskToPrefixDefault(m: string)
    ensures var o := Split(m, '.');
      !(|o| == 4 && ParseInt(o[0]).Some? && ParseInt(o[1]).Some? &&
        ParseInt(o[2]).Some? && ParseInt(o[3]).Some?) ==>
      NetmaskToPrefix(m) == "32"
  {
    var o := Split(m, '.');
    if |o| == 4 && !(ParseInt(o[0]).Some? && ParseInt(o[1]).Some? && ParseInt(o[2]).Some? && ParseInt(o[3]).Some?) {
      PrefixUnparsed(m, o);
    }
  }

  /** When the text splits into four parts that `int()` accepts, the result is the
      decimal count of their one bits, without any check that the ones are contiguous
      or that the octets are below 256. */
  lemma NetmaskToPrefixCount(m: string, o: seq<string>)
    requires o == Split(m, '.') && |o| == 4
    requires ParseInt(o[0]).Some? && ParseInt(o[1]).Some? && ParseInt(o[2]).Some? && ParseInt(o[3]).Some?
    ensures NetmaskToPrefix(m) == NatToString(OctetOnes(o[0]) + OctetOnes(o[1]) + OctetOnes(o[2]) + OctetOnes(o[3]))
  {
    assert o == [o[0], o[1], o[2], o[3]];
    OctetValuesFour(o[0], o[1], o[2], o[3]);
    var vs := OctetValues(o).value;
    PrefixOfValues(m, vs);
    SumOnesFour(vs[0], vs[1], vs[2], vs[3]);
  }

  lemma PrefixUnparsed(m: string, o: seq<string>)
    requires o == Split(m, '.') && |o| == 4
    requires !(ParseInt(o[0]).Some? && ParseInt(o[1]).Some? && ParseInt(o[2]).Some? && ParseInt(o[3]).Some?)
    ensures NetmaskToPrefix(m) == "32"
  {
    assert o == [o[0], o[1], o[2], o[3]];
    OctetValuesFour(o[0], o[1], o[2], o[3]);
  }

  lemma OctetValuesCons(p: string, rest: seq<string>)
    ensures OctetValues([p] + rest).Some? <==> ParseInt(p).Some? && OctetValues(rest).Some?
    ensures OctetValues([p] + rest).Some? ==>
      OctetValues([p] + rest).value == [ParseInt(p).value] + OctetValues(rest).value
  {
    assert ([p] + rest)[1..] == rest;
  }

  /** Four parts are read exactly when each of them is, as their values in order. */
  lemma OctetValuesFour(a: string, b: string, c: string, d: string)
    ensures OctetValues([a, b, c, d]).Some? <==>
      ParseInt(a).Some? && ParseInt(b).Some? && ParseInt(c).Some? && ParseInt(d).Some?
    ensures OctetValues([a, b, c, d]).Some? ==>
      OctetValues([a, b, c, d]).value == [ParseInt(a).value, ParseInt(b).value, ParseInt(c).value, ParseInt(d).value]
  {
    OctetValuesCons(d, []);
    assert [d] + [] == [d];
    OctetValuesCons(c, [d]);
    OctetValuesCons(b, [c, d]);
    OctetValuesCons(a, [b, c, d]);
  }

  /** Four digit strings are read as their values. */
  lemma OctetValuesOfDigits(a: string, b: string, c: string, d: string)
    requires IsDigits(a) && IsDigits(b) && IsDigits(c) && IsDigits(d)
    ensures OctetValues([a, b, c, d]) == Some([DigitsValue(a) as int, DigitsValue(b) as int,
                                               DigitsValue(c) as int, DigitsValue(d) as int])
  {
    DigitsParse(a);
    DigitsParse(b);
    DigitsParse(c);
    DigitsParse(d);
    OctetValuesFour(a, b, c, d);
  }

  // ---------------------------------------------------------------------------------
  // On a valid contiguous netmask the conversion gives its prefix length.

  /** `w` bits of zero are `w` zero characters. */
  lemma {:induction false} BinaryOfZero(w: nat)
    ensures Binary(0, w) == Run('0', w)
  {
    if w > 0 {
      BinaryOfZero(w - 1);
      assert Run('0', w) == Run('0', w - 1) + "0";
    }
  }

  /** The bits of `hi` shifted left by `w` places with `lo` below them are the bits of
      `hi` followed by those of `lo`; `pw` is `2^w`. */
  lemma {:induction false} BinaryConcat(hi: nat, lo: nat, k: nat, w: nat, pw: nat, n: nat)
    requires pw == Pow2(w) && lo < pw && n == hi * pw + lo
    ensures Binary(n, k + w) == Binary(hi, k) + Binary(lo, w)
  {
    if w == 0 {
      assert n == hi;
    } else {
      var h := Pow2(w - 1);
      var q := hi * h;
      assert n == 2 * q + lo by {
        MulDouble(hi, h);
      }
      BinaryConcat(hi, lo / 2, k, w - 1, h, q + lo / 2);
      assert n / 2 == q + lo / 2 && n % 2 == lo % 2;
    }
  }

  lemma Pow2Bytes()
    ensures Pow2(8) == 0x100 && Pow2(16) == 0x1_0000 && Pow2(24) == 0x100_0000
  {
    assert Pow2(8) == 0x100;
    PowAdd(8, 8);
    PowAdd(16, 8);
  }

  /** `bin(v)[2:]` zero-filled to `w` places is the `w`-bit binary of `v` when `v` fits. */
  lemma {:induction false} BinDigitsFilled(v: nat, w: nat)
    requires 0 < w && v < Pow2(w)
    ensures |BinDigits(v)| <= w && Run('0', w - |BinDigits(v)|) + BinDigits(v) == Binary(v, w)
  {
    if v < 2 {
      BinaryOfZero(w - 1);
    } else {
      assert w >= 2;
      BinDigitsFilled(v / 2, w - 1);
    }
  }

  /** The text of an octet in 0..255 is its 8-bit binary. */
  lemma OctetBitsBinary(v: int)
    requires 0 <= v < 256
    ensures OctetBits(v) == Binary(v, 8)
  {
    assert Pow2(8) == 256;
    BinTail(v);
    BinDigitsFilled(v, 8);
  }

  lemma JoinedBitsFour(a: int, b: int, c: int, d: int)
    ensures JoinedBits([a, b, c, d]) == OctetBits(a) + (OctetBits(b) + (OctetBits(c) + OctetBits(d)))
  {
    var s4, s3, s2, s1 := [a, b, c, d], [b, c, d], [c, d], [d];
    var ba, bb, bc, bd := OctetBits(a), OctetBits(b), OctetBits(c), OctetBits(d);
    assert s4[1..] == s3 && s3[1..] == s2 && s2[1..] == s1 && s1[1..] == [];
    assert JoinedBits(s1) == bd by {
      assert JoinedBits(s1) == bd + JoinedBits([]);
    }
    assert JoinedBits(s2) == bc + bd;
    assert JoinedBits(s3) == bb + (bc + bd);
    assert JoinedBits(s4) == ba + (bb + (bc + bd));
  }

  /** Four octets in 0..255, joined, are the 32-bit binary of their address value. */
  lemma JoinedBitsValue(vs: seq<int>, n: nat)
    requires |vs| == 4 && 0 <= vs[0] < 256 && 0 <= vs[1] < 256 && 0 <= vs[2] < 256 && 0 <= vs[3] < 256
    requires n == 0x100_0000 * vs[0] + 0x1_0000 * vs[1] + 0x100 * vs[2] + vs[3]
    ensures JoinedBits(vs) == Binary(n, 32)
  {
    var a: nat, b: nat, c: nat, d: nat := vs[0], vs[1], vs[2], vs[3];
    assert vs == [a, b, c, d];
    OctetsBinary(a, b, c, d);
    BinaryFour(a, b, c, d);
  }

  lemma OctetsBinary(a: nat, b: nat, c: nat, d: nat)
    requires a < 256 && b < 256 && c < 256 && d < 256
    ensures JoinedBits([a, b, c, d]) == Binary(a, 8) + (Binary(b, 8) + (Binary(c, 8) + Binary(d, 8)))
  {
    JoinedBitsFour(a, b, c, d);
    OctetBitsBinary(a);
    OctetBitsBinary(b);
    OctetBitsBinary(c);
    OctetBitsBinary(d);
  }

  /** The 32-bit binary of an address value is that of its four octets, in order. */
  lemma BinaryFour(a: nat, b: nat, c: nat, d: nat)
    requires b < 256 && c < 256 && d < 256
    ensures Binary(0x100_0000 * a + 0x1_0000 * b + 0x100 * c + d, 32) ==
      Binary(a, 8) + (Binary(b, 8) + (Binary(c, 8) + Binary(d, 8)))
  {
    var lo2 := 0x100 * c + d;
    var lo3 := 0x1_0000 * b + lo2;
    Pow2Bytes();
    BinaryConcat(c, d, 8, 8, 0x100, lo2);
    BinaryConcat(b, lo2, 8, 16, 0x1_0000, lo3);
    BinaryConcat(a, lo3, 8, 24, 0x100_0000, 0x100_0000 * a + lo3);
  }

  lemma {:induction false} CountOnes(n: nat)
    ensures CountChar(Run('1', n), '1') == n
  {
    if n > 0 {
      assert Run('1', n) == "1" + Run('1', n - 1);
      CountOnes(n - 1);
      CountAppend("1", Run('1', n - 1), '1');
    }
  }

  lemma CountOnesZeros(p: nat, q: nat)
    ensures CountChar(Run('1', p) + Run('0', q), '1') == p
  {
    CountOnes(p);
    CountZeros(q);
    CountAppend(Run('1', p), Run('0', q), '1');
  }

  /** The mask of prefix length `p` has `p` one characters in its 32-bit binary. */
  lemma MaskOnes(p: nat)
    requires p <= 32
    ensures CountChar(Binary(MaskValue(p), 32), '1') == p
  {
    assert Binary(MaskValue(p), 32) == Run('1', p) + Run('0', 32 - p) by {
      PrefixBits(p, 32);
    }
    CountOnesZeros(p, 32 - p);
  }

  /** A digit string is what `int()` reads it as. */
  lemma DigitsParse(s: string)
    requires IsDigits(s)
    ensures ParseInt(s) == Some(DigitsValue(s) as int)
  {
    StripNoSpace(s);
  }

  /** For a valid address that is the mask of prefix length `p`, `_netmask_to_prefix`
      gives `p` in decimal. */
  lemma PrefixOfMask(m: string, p: nat)
    requires ValidateIpAddress(m) && p <= 32 && AddressValue(m) == MaskValue(p)
    ensures NetmaskToPrefix(m) == NatToString(p)
  {
    var o := Split(m, '.');
    var a, b, c, d := DigitsValue(o[0]), DigitsValue(o[1]), DigitsValue(o[2]), DigitsValue(o[3]);
    var vs := [a as int, b as int, c as int, d as int];
    assert OctetValues(o) == Some(vs) by {
      assert o == [o[0], o[1], o[2], o[3]];
      OctetValuesOfDigits(o[0], o[1], o[2], o[3]);
    }
    assert JoinedBits(vs) == Binary(AddressValue(m), 32) by {
      JoinedBitsValue(vs, AddressValue(m));
    }
    assert CountChar(JoinedBits(vs), '1') == p by {
      MaskOnes(p);
    }
  }

  /** The count for four parts that `int()` accepts, from the count of each. */
  lemma PrefixOfParts(m: string, p0: string, p1: string, p2: string, p3: string, k: nat)
    requires Split(m, '.') == [p0, p1, p2, p3]
    requires ParseInt(p0).Some? && ParseInt(p1).Some? && ParseInt(p2).Some? && ParseInt(p3).Some?
    requires OctetOnes(p0) + OctetOnes(p1) + OctetOnes(p2) + OctetOnes(p3) == k
    ensures NetmaskToPrefix(m) == NatToString(k)
  {
    NetmaskToPrefixCount(m, [p0, p1, p2, p3]);
  }

  /** The one bits the octets `255` and `0` contribute. */
  lemma ByteOnes(full: string, zero: string)
    requires full == "255" && zero == "0"
    ensures ParseInt(full).Some? && OctetOnes(full) == 8
    ensures ParseInt(zero).Some? && OctetOnes(zero) == 0
  {
    ShortDigitsValue(full);
    ShortDigitsValue(zero);
    DigitsParse(full);
    DigitsParse(zero);
    PopCountAllOnes();
  }

  lemma PopCountAllOnes()
    ensures PopCount(255) == 8
  {
    assert PopCount(1) == 1;
    assert PopCount(3) == 2;
    assert PopCount(7) == 3;
    assert PopCount(15) == 4;
    assert PopCount(31) == 5;
    assert PopCount(63) == 6;
    assert PopCount(127) == 7;
  }

  /** The conversion counts bits and nothing else: `255.0.255.0` has sixteen one bits,
      though it is not a contiguous mask. */
  lemma ExampleGappedMask(m: string, full: string, zero: string)
    requires full == "255" && zero == "0" && m == full + "." + zero + "." + full + "." + zero
    ensures NetmaskToPrefix(m) == "16"
  {
    ShortDigitsValue(full);
    ShortDigitsValue(zero);
    ValidFromOctets(m, full, zero, full, zero);
    ByteOnes(full, zero);
    PrefixOfParts(m, full, zero, full, zero, 16);
    assert NatToString(16) == NatToString(1) + [DigitChar(6)];
  }

  /** The class C mask `255.255.255.0` gives prefix length 24. */
  lemma ExampleClassCPrefix(m: string, full: string, zero: string)
    requires full == "255" && zero == "0" && m == full + "." + full + "." + full + "." + zero
    ensures NetmaskToPrefix(m) == "24"
  {
    ShortDigitsValue(full);
    ShortDigitsValue(zero);
    ValidFromOctets(m, full, full, full, zero);
    ByteOnes(full, zero);
    PrefixOfParts(m, full, full, full, zero, 24);
    assert NatToString(24) == NatToString(2) + [DigitChar(4)];
  }

  // ---------------------------------------------------------------------------------
  // `add_route`: the argument vector.

  /** The command `add_route(destination, gateway, netmask)` runs: a network route when
      a non-empty netmask is given (converted when it contains a `.`), a host route
      otherwise. */
  function AddRouteArgv(destination: string, gateway: string, netmask: Option<string>): seq<string> {
    if netmask.Some? && netmask.value != [] then
      var prefix := if Contains(netmask.value, ".") then NetmaskToPrefix(netmask.value) else netmask.value;
      ["route", "add", "-net", destination + "/" + prefix, gateway]
    else ["route", "add", destination, gateway]
  }

  /** A valid dotted netmask reaches `route` as its prefix length, a bare prefix length
      as it is, and without a netmask the route is a host route. */
  lemma AddRouteArgvCases(destination: string, gateway: string, netmask: Option<string>, p: nat)
    ensures (netmask.Some? && ValidateIpAddress(netmask.value) && p <= 32 &&
             AddressValue(netmask.value) == MaskValue(p)) ==>
      AddRouteArgv(destination, gateway, netmask) ==
        ["route", "add", "-net", destination + "/" + NatToString(p), gateway]
    ensures (netmask.Some? && IsDigits(netmask.value)) ==>
      AddRouteArgv(destination, gateway, netmask) ==
        ["route", "add", "-net", destination + "/" + netmask.value, gateway]
    ensures (netmask.None? || netmask == Some("")) ==>
      AddRouteArgv(destination, gateway, netmask) == ["route", "add", destination, gateway]
  {
    if netmask.Some? {
      var m := netmask.value;
      if ValidateIpAddress(m) && p <= 32 && AddressValue(m) == MaskValue(p) {
        PrefixOfMask(m, p);
        var parts := Split(m, '.');
        assert m == Join(".", parts) by {
          JoinSplit(m, '.');
        }
        DotInFour(parts);
      }
      if IsDigits(m) {
        NoDotInDigits(m);
      }
    }
  }

  lemma DotInFour(parts: seq<string>)
    requires |parts| == 4
    ensures Contains(Join(".", parts), ".")
  {
    var s := Join(".", parts);
    assert s == parts[0] + "." + Join(".", parts[1..]);
    assert OccursAt(s, ".", |parts[0]|);
  }

  lemma NoDotInDigits(m: string)
    requires IsDigits(m)
    ensures !Contains(m, ".")
  {
    assert HasNo(m, '.');
    NotContainsChar(m, '.');
  }

  // ---------------------------------------------------------------------------------
  // `_parse_netstat_output`.

  /** One route record (the dict the handler builds). */
  datatype Route = Route(
    destination: string, gateway: string, flags: string,
    netmask: string, iface: string, metric: string)

  /** A line that marks the start of the table (or a repeated heading). */
  predicate OpensTable(line: string) {
    Contains(line, "Routing tables") || Contains(line, "Destination")
  }

  /** A section or column heading inside the table. */
  predicate IsHeading(line: string) {
    StartsWith(line, "Internet") || StartsWith(line, "Destination")
  }

  /** A field that can be the interface column: neither all digits nor `-`. */
  predicate NamesIface(f: string) { !IsDigits(f) && f != "-" }

  /** The index of the last field at or after `lo` that can name the interface. */
  function LastIface(parts: seq<string>, lo: nat): (r: Option<nat>)
    ensures r.Some? ==> lo <= r.value < |parts| && NamesIface(parts[r.value])
    ensures r.Some? ==> forall j :: r.value < j < |parts| ==> !NamesIface(parts[j])
    ensures r.None? ==> forall j :: lo <= j < |parts| ==> !NamesIface(parts[j])
    decreases |parts|
  {
    if |parts| <= lo then None
    else if NamesIface(parts[|parts| - 1]) then Some(|parts| - 1)
    else LastIface(parts[..|parts| - 1], lo)
  }

  /** The interface column: the last field from the fourth on that names one, else the
      fourth field. */
  function IfaceOf(parts: seq<string>): string
    requires |parts| >= 4
  {
    match LastIface(parts, 3)
    case Some(j) => parts[j]
    case None => parts[3]
  }

  function MetricOf(parts: seq<string>): string
    requires |parts| >= 4
  {
    if |parts| > 4 && IsDigits(parts[4]) then parts[4] else "0"
  }

  /** The routes one stripped line yields once inside the table. */
  function RouteLine(line: string): seq<Route> {
    var parts := Fields(line);
    if line == [] || IsHeading(line) || |parts| < 4 then []
    else [Route(parts[0], parts[1], parts[2], "", IfaceOf(parts), MetricOf(parts))]
  }

  /** The routes of `lines`, starting inside or outside the table. */
  function Netstat(lines: seq<string>, inTable: bool): seq<Route>
    decreases |lines|
  {
    if lines == [] then []
    else
      var line := Strip(lines[0]);
      if OpensTable(line) then Netstat(lines[1..], true)
      else if !inTable then Netstat(lines[1..], false)
      else RouteLine(line) + Netstat(lines[1..], true)
  }

  function NetstatRoutes(output: string): seq<Route> {
    Netstat(Split(output, '\n'), false)
  }

  /** The interface search: from the last field back to the fourth. */
  method PickIface(parts: seq<string>) returns (iface: string)
    requires |parts| >= 4
    ensures iface == IfaceOf(parts)
  {
    iface := parts[3];
    var j := |parts|;
    while j > 3
      invariant 3 <= j <= |parts|
      invariant LastIface(parts, 3) == LastIface(parts[..j], 3)
    {
      assert parts[..j][..j - 1] == parts[..j - 1];
      if NamesIface(parts[j - 1]) {
        iface := parts[j - 1];
        return;
      }
      j := j - 1;
    }
  }

  /** `_parse_netstat_output(output)`. */
  method ParseNetstatOutput(output: string) returns (routes: seq<Route>)
    ensures routes == NetstatRoutes(output)
  {
    var lines := Split(output, '\n');
    routes := [];
    var inTable := false;
    var i := 0;
    while i < |lines|
      invariant 0 <= i <= |lines|
      invariant routes + Netstat(lines[i..], inTable) == Netstat(lines, false)
    {
      assert lines[i..] == [lines[i]] + lines[i + 1..];
      var found, next := ScanNetstatLine(lines[i], inTable, lines[i + 1..]);
      assert routes + (found + Netstat(lines[i + 1..], next)) == (routes + found) + Netstat(lines[i + 1..], next);
      routes, inTable := routes + found, next;
      i := i + 1;
    }
    assert lines[i..] == [];
  }

  /** One pass of the loop body of `_parse_netstat_output`: the routes `raw` yields and
      whether the table has been entered after it. */
  method ScanNetstatLine(raw: string, inTable: bool, ghost rest: seq<string>) returns (found: seq<Route>, next: bool)
    ensures Netstat([raw] + rest, inTable) == found + Netstat(rest, next)
  {
    assert ([raw] + rest)[0] == raw && ([raw] + rest)[1..] == rest;
    var line := Strip(raw);
    found, next := [], inTable;
    if OpensTable(line) {
      next := true;
    } else if !inTable || line == [] {
    } else if IsHeading(line) {
    } else {
      var parts := Fields(line);
      if |parts| >= 4 {
        var iface := PickIface(parts);
        var metric := if |parts| > 4 && IsDigits(parts[4]) then parts[4] else "0";
        found := [Route(parts[0], parts[1], parts[2], "", iface, metric)];
      }
      assert RouteLine(line) == found;
    }
  }

  /** Nothing before the line that opens the table yields a route. */
  lemma {:induction false} NetstatPreamble(lines: seq<string>, k: nat)
    requires k < |lines| && OpensTable(Strip(lines[k]))
    requires forall j :: 0 <= j < k ==> !OpensTable(Strip(lines[j]))
    ensures Netstat(lines, false) == Netstat(lines[k + 1..], true)
  {
    if k > 0 {
      NetstatPreamble(lines[1..], k - 1);
      assert lines[1..][k..] == lines[k + 1..];
    }
  }

  /** Output without a table heading has no routes. */
  lemma {:induction false} NetstatNoTable(lines: seq<string>)
    requires forall j :: 0 <= j < |lines| ==> !OpensTable(Strip(lines[j]))
    ensures Netstat(lines, false) == []
  {
    if lines != [] {
      NetstatNoTable(lines[1..]);
    }
  }

  /** Inside the table every line contributes on its own, in order. */
  lemma {:induction false} NetstatInTable(a: seq<string>, b: seq<string>)
    ensures Netstat(a + b, true) == Netstat(a, true) + Netstat(b, true)
  {
    if a != [] {
      assert (a + b)[1..] == a[1..] + b;
      NetstatInTable(a[1..], b);
    } else {
      assert a + b == b;
    }
  }

  /** What one line inside the table contributes. */
  lemma NetstatLine(raw: string)
    ensures Netstat([raw], true) == if OpensTable(Strip(raw)) then [] else RouteLine(Strip(raw))
  {
    assert [raw][1..] == [];
  }

  /** Every route carries an empty netmask and a metric that is all digits or `"0"`. */
  lemma {:induction false} NetstatRouteShape(lines: seq<string>, inTable: bool)
    ensures forall r :: r in Netstat(lines, inTable) ==> r.netmask == "" && (IsDigits(r.metric) || r.metric == "0")
  {
    if lines != [] {
      NetstatRouteShape(lines[1..], true);
      NetstatRouteShape(lines[1..], false);
    }
  }
}
