/** The two helpers of loongson_helpers.c the driver relies on: the PCI bus
    identifier handed to drmOpen, and the check that the kernel driver has
    something to display on. */
module Helpers {
  import opened Wrappers

  // ---------------------------------------------------------------------
  // LS_DRICreatePCIBusID: "pci:%04x:%02x:%02x.%d".

  /** The location of a PCI device (struct pci_device). */
  datatype PciAddress = PciAddress(domain: nat, bus: nat, dev: nat, func: nat)

  /** The printf digit for 0 <= d < 16, lower-case. */
  function DigitChar(d: nat): char
  {
    if d == 0 then '0' else if d == 1 then '1' else if d == 2 then '2' else if d == 3 then '3'
    else if d == 4 then '4' else if d == 5 then '5' else if d == 6 then '6' else if d == 7 then '7'
    else if d == 8 then '8' else if d == 9 then '9' else if d == 10 then 'a' else if d == 11 then 'b'
    else if d == 12 then 'c' else if d == 13 then 'd' else if d == 14 then 'e' else 'f'
  }

  /** The value of a digit character; 16 for anything else. */
  function DigitValue(c: char): nat
  {
    if c == '0' then 0 else if c == '1' then 1 else if c == '2' then 2 else if c == '3' then 3
    else if c == '4' then 4 else if c == '5' then 5 else if c == '6' then 6 else if c == '7' then 7
    else if c == '8' then 8 else if c == '9' then 9 else if c == 'a' then 10 else if c == 'b' then 11
    else if c == 'c' then 12 else if c == 'd' then 13 else if c == 'e' then 14 else if c == 'f' then 15
    else 16
  }

  /** The base of a conversion: 16 for %x, 10 for %d. */
  function Radix(hex: bool): nat { if hex then 16 else 10 }

  /** `c` is a digit of the base. */
  predicate IsDigit(c: char, hex: bool) {
    DigitValue(c) < Radix(hex)
  }

  lemma {:induction false} DigitCharValue(d: nat)
    requires d < 16
    ensures DigitValue(DigitChar(d)) == d
  {
  }

  /** `n` divided by the base, the remainder, and `v` times the base. */
  function Quot(n: nat, hex: bool): nat { if hex then n / 16 else n / 10 }
  function Rem(n: nat, hex: bool): nat { if hex then n % 16 else n % 10 }
  function Scale(v: nat, hex: bool): nat { if hex then v * 16 else v * 10 }

  /** The printf digits of `n` (%x when `hex`, %d otherwise), most
      significant first, lower-case, without leading zeros ("0" for zero). */
  function ToDigits(n: nat, hex: bool): (s: string)
    ensures |s| >= 1
    ensures forall k | 0 <= k < |s| :: IsDigit(s[k], hex)
    ensures n == 0 ==> s == "0"
    ensures n > 0 ==> s[0] != '0'
    decreases n
  {
    DigitCharValue(Rem(n, hex));
    DigitCharValue(n % 16);
    if n < Radix(hex) then [DigitChar(n)] else ToDigits(Quot(n, hex), hex) + [DigitChar(Rem(n, hex))]
  }

  /** The number a digit string denotes in the base. */
  function FromDigits(s: string, hex: bool): nat
  {
    if s == [] then 0 else Scale(FromDigits(s[..|s| - 1], hex), hex) + DigitValue(s[|s| - 1])
  }

  /** %0<width>x: pad with zeros on the left up to `width` characters. */
  function ZeroPad(s: string, width: nat): (r: string)
    ensures |r| == if |s| >= width then |s| else width
    ensures r[|r| - |s|..] == s
    ensures forall k | 0 <= k < |r| - |s| :: r[k] == '0'
  {
    if |s| >= width then s else seq(width - |s|, _ => '0') + s
  }

  /** One conversion of the format: %0<width>x when `hex`, %d (width 0)
      otherwise.  It denotes the number, in digits of the base, at least
      `width` characters long, and a leading zero only where the width asks
      for one (or for zero itself). */
  function Conv(n: nat, hex: bool, width: nat): (s: string)
    ensures IsNumeral(s, hex) && FromDigits(s, hex) == n
    ensures |s| >= width
    ensures |s| > width && |s| > 1 ==> s[0] != '0'
    ensures width > 0 && n < Power(Radix(hex), width) ==> |s| == width
  {
    PaddedValue(n, hex, width);
    PaddedNumeral(n, hex, width);
    DigitsFit(n, hex, width);
    ZeroPad(ToDigits(n, hex), width)
  }

  function Power(b: nat, e: nat): nat {
    if e == 0 then 1 else b * Power(b, e - 1)
  }

  /** A number below base^w has at most w digits (one when w is 0). */
  lemma {:induction false} DigitsFit(n: nat, hex: bool, w: nat)
    ensures n < Power(Radix(hex), w) ==> |ToDigits(n, hex)| <= if w == 0 then 1 else w
    decreases n
  {
    if n >= Radix(hex) && n < Power(Radix(hex), w) {
      assert w >= 2 by {
        if w < 2 {
          assert Power(Radix(hex), w) <= Radix(hex) by {
            if w == 1 {
              assert Power(Radix(hex), 0) == 1;
            }
          }
        }
      }
      var p := Power(Radix(hex), w - 1);
      assert n < Radix(hex) * p;
      assert Quot(n, hex) < p;
      DigitsFit(Quot(n, hex), hex, w - 1);
    }
  }

  /** The string asprintf builds for the device. */
  function BusIdString(a: PciAddress): string {
    Assemble(Conv(a.domain, true, 4), Conv(a.bus, true, 2), Conv(a.dev, true, 2), Conv(a.func, false, 0))
  }

  /** "pci:<d>:<b>:<v>.<f>" */
  function Assemble(d: string, b: string, v: string, f: string): string {
    "pci:" + d + ":" + b + ":" + v + "." + f
  }

  /** LS_DRICreatePCIBusID: the formatted string, or NULL when asprintf fails
      (`allocOk` is its outcome). */
  function CreatePciBusId(a: PciAddress, allocOk: bool): (r: Option<string>)
    ensures allocOk <==> r.Some?
    ensures r.Some? ==> ParseBusId(r.value) == Some(a)
    ensures r.Some? ==> r.value == Assemble(Conv(a.domain, true, 4), Conv(a.bus, true, 2), Conv(a.dev, true, 2),
                                            Conv(a.func, false, 0))
  {
    BusIdRoundTrip(a);
    if allocOk then Some(BusIdString(a)) else None
  }

  /** A 16-bit domain prints as exactly four digits and an 8-bit bus and
      device as exactly two; the function number has no padding. */
  lemma FieldWidths(a: PciAddress)
    ensures a.domain < 0x1_0000 ==> |Conv(a.domain, true, 4)| == 4
    ensures a.bus < 0x100 ==> |Conv(a.bus, true, 2)| == 2
    ensures a.dev < 0x100 ==> |Conv(a.dev, true, 2)| == 2
    ensures Conv(a.func, false, 0) == ToDigits(a.func, false)
  {
    assert Power(16, 2) == 0x100 by {
      assert Power(16, 0) == 1;
    }
    assert Power(16, 4) == 0x1_0000 by {
      assert Power(16, 3) == 16 * Power(16, 2);
    }
  }

  /** The part of `s` before the first `c`, and the part after it. */
  function SplitAt(s: string, c: char): Option<(string, string)>
  {
    if s == [] then None
    else if s[0] == c then Some(([], s[1..]))
    else match SplitAt(s[1..], c)
      case None => None
      case Some(parts) => Some(([s[0]] + parts.0, parts.1))
  }

  /** A non-empty string of digits of the base. */
  predicate IsNumeral(s: string, hex: bool) {
    |s| > 0 && forall k | 0 <= k < |s| :: IsDigit(s[k], hex)
  }

  /** Reads a bus identifier back: the inverse of BusIdString. */
  function ParseBusId(s: string): Option<PciAddress>
  {
    if |s| < 4 || s[..4] != "pci:" then None
    else match SplitAt(s[4..], ':')
      case None => None
      case Some(p1) => match SplitAt(p1.1, ':')
        case None => None
        case Some(p2) => match SplitAt(p2.1, '.')
          case None => None
          case Some(p3) =>
            if IsNumeral(p1.0, true) && IsNumeral(p2.0, true) && IsNumeral(p3.0, true) && IsNumeral(p3.1, false)
            then Some(PciAddress(FromDigits(p1.0, true), FromDigits(p2.0, true), FromDigits(p3.0, true),
                                 FromDigits(p3.1, false)))
            else None
  }

  lemma {:induction false} DigitsRoundTrip(n: nat, hex: bool)
    ensures FromDigits(ToDigits(n, hex), hex) == n
    decreases n
  {
    var s := ToDigits(n, hex);
    DigitCharValue(Rem(n, hex));
    if n >= Radix(hex) {
      DigitsRoundTrip(Quot(n, hex), hex);
      assert s[..|s| - 1] == ToDigits(Quot(n, hex), hex);
    } else {
      assert s[..0] == [];
    }
  }

  lemma {:induction false} LeadingZeros(z: nat, s: string, hex: bool)
    ensures FromDigits(seq(z, _ => '0') + s, hex) == FromDigits(s, hex)
    decreases |s|
  {
    var zs: string := seq(z, _ => '0');
    if s == [] {
      assert zs + s == zs;
      ZerosValue(z, hex);
    } else {
      var t := zs + s;
      assert t[..|t| - 1] == zs + s[..|s| - 1];
      LeadingZeros(z, s[..|s| - 1], hex);
    }
  }

  lemma {:induction false} ZerosValue(z: nat, hex: bool)
    ensures FromDigits(seq(z, _ => '0'), hex) == 0
  {
    if z > 0 {
      var zs: string := seq(z, _ => '0');
      assert zs[..z - 1] == seq(z - 1, _ => '0');
      ZerosValue(z - 1, hex);
    }
  }

  /** The padded digits still denote the number. */
  lemma {:induction false} PaddedValue(n: nat, hex: bool, width: nat)
    ensures FromDigits(ZeroPad(ToDigits(n, hex), width), hex) == n
  {
    var s := ToDigits(n, hex);
    DigitsRoundTrip(n, hex);
    if |s| < width {
      LeadingZeros(width - |s|, s, hex);
    }
  }

  /** The padded digits are all digits of the base. */
  lemma {:induction false} PaddedNumeral(n: nat, hex: bool, width: nat)
    ensures IsNumeral(ZeroPad(ToDigits(n, hex), width), hex)
  {
    var s := ToDigits(n, hex);
    var r := ZeroPad(s, width);
    forall k | 0 <= k < |r| ensures IsDigit(r[k], hex) {
      if k >= |r| - |s| {
        assert r[k] == r[|r| - |s|..][k - (|r| - |s|)];
      }
    }
  }

  /** Neither separator is a digit. */
  lemma {:induction false} NumeralHasNoSeparator(s: string, hex: bool)
    requires IsNumeral(s, hex)
    ensures ':' !in s && '.' !in s
  {
    forall k | 0 <= k < |s| ensures s[k] != ':' && s[k] != '.' {
      assert IsDigit(s[k], hex);
    }
  }

  /** A field free of the separator is split off exactly. */
  lemma {:induction false} SplitAtField(a: string, c: char, b: string)
    requires c !in a
    ensures SplitAt(a + [c] + b, c) == Some((a, b))
  {
    if a == [] {
      assert a + [c] + b == [c] + b;
    } else {
      assert (a + [c] + b)[0] == a[0] != c;
      assert (a + [c] + b)[1..] == a[1..] + [c] + b;
      assert c !in a[1..] by {
        forall k | 0 <= k < |a[1..]| ensures a[1..][k] != c {
          assert a[1..][k] == a[k + 1];
        }
      }
      SplitAtField(a[1..], c, b);
      assert [a[0]] + a[1..] == a;
    }
  }

  /** The assembled identifier is the prefix followed by the separated fields. */
  lemma AssembleShape(d: string, b: string, v: string, f: string)
    ensures |Assemble(d, b, v, f)| >= 4 && Assemble(d, b, v, f)[..4] == "pci:"
    ensures Assemble(d, b, v, f)[4..] == d + [':'] + (b + [':'] + (v + ['.'] + f))
  {
    var s := Assemble(d, b, v, f);
    assert s == "pci:" + (d + [':'] + (b + [':'] + (v + ['.'] + f)));
  }

  /** Fields free of their separators are read back exactly. */
  lemma {:induction false} ParseAssembled(d: string, b: string, v: string, f: string)
    requires IsNumeral(d, true) && IsNumeral(b, true) && IsNumeral(v, true) && IsNumeral(f, false)
    ensures ParseBusId(Assemble(d, b, v, f)) ==
              Some(PciAddress(FromDigits(d, true), FromDigits(b, true), FromDigits(v, true), FromDigits(f, false)))
  {
    NumeralHasNoSeparator(d, true);
    NumeralHasNoSeparator(b, true);
    NumeralHasNoSeparator(v, true);
    AssembleShape(d, b, v, f);
    SplitAtField(d, ':', b + [':'] + (v + ['.'] + f));
    SplitAtField(b, ':', v + ['.'] + f);
    SplitAtField(v, '.', f);
  }

  /** Reading back the bus identifier of a device gives the device. */
  lemma {:induction false} BusIdRoundTrip(a: PciAddress)
    ensures ParseBusId(BusIdString(a)) == Some(a)
  {
    var d := Conv(a.domain, true, 4);
    var b := Conv(a.bus, true, 2);
    var v := Conv(a.dev, true, 2);
    var f := Conv(a.func, false, 0);
    ParseAssembled(d, b, v, f);
  }

  // ---------------------------------------------------------------------
  // LS_CheckOutputs.

  const DRM_PRIME_CAP_EXPORT: bv64 := 0x2

  /** What LS_CheckOutputs returns, and what it writes through `count`. */
  datatype OutputsCheck = OutputsCheck(ret: int, count: Option<int>)

  /** LS_CheckOutputs as written.  `connectors` is the connector count of
      the mode resources, None when drmModeGetResources fails; `wantCount`
      says whether `count` is non-NULL; `gbmLinear` whether the driver was
      built with GLAMOR_HAS_GBM_LINEAR; `capRet`/`capValue` answer the
      PRIME capability query.  With no connectors the query's own return
      code becomes the result. */
  function CheckOutputsAsWritten(connectors: Option<int>, wantCount: bool, gbmLinear: bool,
                                 capRet: int, capValue: bv64): (c: OutputsCheck)
    ensures connectors.None? ==> c == OutputsCheck(0, None)
    ensures c.count.Some? <==> connectors.Some? && wantCount
    ensures c.count.Some? ==> c.count.value == connectors.value
    ensures connectors.Some? && connectors.value > 0 ==> c.ret == 1
    ensures connectors.Some? && connectors.value <= 0 && gbmLinear ==>
              c.ret == (if capRet == 0 && capValue & DRM_PRIME_CAP_EXPORT != 0 then 1 else capRet)
  {
    match connectors
    case None => OutputsCheck(0, None)
    case Some(n) =>
      var count := if wantCount then Some(n) else None;
      var ret := if n > 0 then 1 else 0;
      var ret := if ret == 0 && gbmLinear then
                   (if capRet == 0 && capValue & DRM_PRIME_CAP_EXPORT != 0 then 1 else capRet)
                 else ret;
      OutputsCheck(ret, count)
  }

  /** LS_CheckOutputs as intended: the device is usable when it has a
      connector, or (with GLAMOR_HAS_GBM_LINEAR) when the PRIME query
      succeeds and reports export support; the result is a boolean. */
  function CheckOutputs(connectors: Option<int>, wantCount: bool, gbmLinear: bool,
                        capRet: int, capValue: bv64): (c: OutputsCheck)
    ensures c.ret == 0 || c.ret == 1
    ensures c.count.Some? <==> connectors.Some? && wantCount
    ensures c.count.Some? ==> c.count.value == connectors.value
  {
    match connectors
    case None => OutputsCheck(0, None)
    case Some(n) =>
      var count := if wantCount then Some(n) else None;
      var usable := n > 0 || (gbmLinear && capRet == 0 && capValue & DRM_PRIME_CAP_EXPORT != 0);
      OutputsCheck(if usable then 1 else 0, count)
  }

  /** The caller in PreInit goes on exactly when the result is non-zero. */
  predicate Accepted(c: OutputsCheck) {
    c.ret != 0
  }

  /** The intended check accepts exactly the devices with a connector or a
      PRIME export capability. */
  lemma CheckOutputsAccepts(connectors: Option<int>, wantCount: bool, gbmLinear: bool, capRet: int, capValue: bv64)
    ensures Accepted(CheckOutputs(connectors, wantCount, gbmLinear, capRet, capValue)) <==>
              connectors.Some? &&
              (connectors.value > 0 || (gbmLinear && capRet == 0 && capValue & DRM_PRIME_CAP_EXPORT != 0))
  {
  }

  /** As written, a failing PRIME query on a device without connectors is
      accepted: the query's -1 is returned and the caller reads it as TRUE. */
  lemma CheckOutputsFailedQueryAccepted()
    ensures CheckOutputsAsWritten(Some(0), true, true, -1, 0).ret == -1
    ensures Accepted(CheckOutputsAsWritten(Some(0), true, true, -1, 0))
    ensures !Accepted(CheckOutputs(Some(0), true, true, -1, 0))
  {
  }

  /** The two versions agree except when the PRIME query itself fails. */
  lemma CheckOutputsAgreeOnSuccess(connectors: Option<int>, wantCount: bool, gbmLinear: bool, capRet: int, capValue: bv64)
    requires capRet == 0 || !gbmLinear
    ensures CheckOutputsAsWritten(connectors, wantCount, gbmLinear, capRet, capValue) ==
            CheckOutputs(connectors, wantCount, gbmLinear, capRet, capValue)
  {
  }
}
