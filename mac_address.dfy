/**
 * The hardware-address parse at the top of `wake_on_lan` (wol.py:50-61):
 * split the string on `:`, insist on exactly six fields, read each field
 * with `int(field, 16)` and pack the six values as unsigned octets.
 */
module MacAddress {
  import opened Wrappers
  import opened Text
  import opened Hex

  /** The packed 6-octet hardware address `hwa`. */
  type HardwareAddress = a: seq<Byte> | |a| == 6 witness [0, 0, 0, 0, 0, 0]

  /**
   * Why a string was not turned into a hardware address.
   * `FieldCount` is the "Illegal MAC address" message after which
   * `wake_on_lan` returns normally; `InvalidLiteral` is the ValueError that
   * `int(field, 16)` raises; `OutOfRange` is the struct.error that `pack`
   * raises for a value above 255.
   */
  datatype MacError =
    | FieldCount(count: nat)
    | InvalidLiteral(field: nat)
    | OutOfRange(field: nat, value: nat)

  /**
   * The six `int(add_oct[k], 16)` calls, left to right: either every field
   * has a value, or the index of the first field that raises.
   */
  function ParseInts(fields: seq<string>): (r: Result<seq<nat>, nat>)
    ensures r.Success? ==>
      |r.value| == |fields| &&
      forall k :: 0 <= k < |fields| ==> ParseHex(fields[k]) == Some(r.value[k])
    ensures r.Failure? ==>
      r.error < |fields| && ParseHex(fields[r.error]).None? &&
      forall j :: 0 <= j < r.error ==> ParseHex(fields[j]).Some?
    decreases |fields|
  {
    if fields == [] then Success([])
    else
      match ParseHex(fields[0])
      case None => Failure(0)
      case Some(v) =>
        match ParseInts(fields[1..])
        case Success(vs) => Success([v] + vs)
        case Failure(i) => Failure(i + 1)
  }

  /**
   * `pack('BBBBBB', ...)`: either every value fits an unsigned octet, or the
   * index of the first value that does not.
   */
  function PackBytes(values: seq<nat>): (r: Result<seq<Byte>, nat>)
    ensures r.Success? ==>
      |r.value| == |values| && forall k :: 0 <= k < |values| ==> r.value[k] == values[k]
    ensures r.Failure? ==>
      r.error < |values| && values[r.error] > 255 &&
      forall j :: 0 <= j < r.error ==> values[j] < 256
    decreases |values|
  {
    if values == [] then Success([])
    else if values[0] > 255 then Failure(0)
    else
      match PackBytes(values[1..])
      case Success(bs) => Success([values[0] as Byte] + bs)
      case Failure(i) => Failure(i + 1)
  }

  /**
   * The parse of `ethernet_address` in `wake_on_lan`. Every `int` call is
   * made before `pack` is, so an invalid literal anywhere is reported ahead
   * of an out-of-range value in an earlier field.
   */
  function ParseMac(s: string): (r: Result<HardwareAddress, MacError>)
    // exactly six fields are needed; any other count is the normal rejection
    ensures (r.Failure? && r.error.FieldCount?) <==> |Split(s, ':')| != 6
    ensures r.Failure? && r.error.FieldCount? ==> r.error.count == |Split(s, ':')|
    // acceptance: six fields, each a hexadecimal literal whose value fits an octet
    ensures r.Success? <==>
      |Split(s, ':')| == 6 &&
      forall k :: 0 <= k < 6 ==>
        ParseHex(Split(s, ':')[k]).Some? && ParseHex(Split(s, ':')[k]).value < 256
    // octet k of the address is the value of field k
    ensures r.Success? ==>
      forall k :: 0 <= k < 6 ==> ParseHex(Split(s, ':')[k]) == Some(r.value[k])
    // ValueError: the first field that is not a hexadecimal literal
    ensures r.Failure? && r.error.InvalidLiteral? ==>
      |Split(s, ':')| == 6 && r.error.field < 6 &&
      ParseHex(Split(s, ':')[r.error.field]).None? &&
      forall j :: 0 <= j < r.error.field ==> ParseHex(Split(s, ':')[j]).Some?
    // struct.error: all six fields are literals and this is the first one above 255
    ensures r.Failure? && r.error.OutOfRange? ==>
      |Split(s, ':')| == 6 && r.error.field < 6 &&
      (forall k :: 0 <= k < 6 ==> ParseHex(Split(s, ':')[k]).Some?) &&
      ParseHex(Split(s, ':')[r.error.field]) == Some(r.error.value) && r.error.value > 255 &&
      forall j :: 0 <= j < r.error.field ==> ParseHex(Split(s, ':')[j]).value < 256
  {
    var fields := Split(s, ':');
    if |fields| != 6 then Failure(FieldCount(|fields|))
    else
      match ParseInts(fields)
      case Failure(i) => Failure(InvalidLiteral(i))
      case Success(values) =>
        match PackBytes(values)
        case Failure(i) => Failure(OutOfRange(i, values[i]))
        case Success(octets) => Success(octets)
  }

  /** Six fields with octet values are accepted as exactly those octets. */
  lemma ParseMacAccepts(s: string, a: HardwareAddress)
    requires |Split(s, ':')| == 6
    requires forall k :: 0 <= k < 6 ==> ParseHex(Split(s, ':')[k]) == Some(a[k])
    ensures ParseMac(s) == Success(a)
  {
    var r := ParseMac(s);
    assert r.Success?;
    assert forall k :: 0 <= k < 6 ==> r.value[k] == a[k];
    assert r.value == a;
  }

  /** Among six fields, the first one that is not a hexadecimal literal is reported. */
  lemma ParseMacInvalid(s: string, i: nat)
    requires |Split(s, ':')| == 6 && i < 6 && ParseHex(Split(s, ':')[i]).None?
    requires forall j :: 0 <= j < i ==> ParseHex(Split(s, ':')[j]).Some?
    ensures ParseMac(s) == Failure(InvalidLiteral(i))
  {
    var r := ParseMac(s);
    assert r.Failure? && r.error.InvalidLiteral?;
    assert r.error.field == i;
  }

  /** Six literals, the first one above 255 at `i`: `pack` reports field `i`. */
  lemma ParseMacOutOfRange(s: string, i: nat, v: nat)
    requires |Split(s, ':')| == 6 && i < 6
    requires forall k :: 0 <= k < 6 ==> ParseHex(Split(s, ':')[k]).Some?
    requires ParseHex(Split(s, ':')[i]) == Some(v) && v > 255
    requires forall j :: 0 <= j < i ==> ParseHex(Split(s, ':')[j]).value < 256
    ensures ParseMac(s) == Failure(OutOfRange(i, v))
  {
  }

  /**
   * Whether `wake_on_lan` raises (rather than returns) on this string: only
   * a string of six fields gets as far as `int` and `pack`.
   */
  predicate Raises(s: string): (r: bool)
    ensures r ==> |Split(s, ':')| == 6
  {
    ParseMac(s).Failure? && !ParseMac(s).error.FieldCount?
  }

  /**
   * The canonical spelling `00:11:22:33:44:55` that the script's usage
   * message asks for: six two-digit lower-case fields joined by colons.
   */
  function FormatMac(a: HardwareAddress): string
  {
    Join(seq(6, k requires 0 <= k < 6 => ByteToHex(a[k])), ':')
  }

  /** Parsing the canonical spelling of an address gives the address back. */
  lemma ParseFormat(a: HardwareAddress)
    ensures ParseMac(FormatMac(a)) == Success(a)
  {
    var fields := seq(6, k requires 0 <= k < 6 => ByteToHex(a[k]));
    forall k | 0 <= k < 6 ensures ':' !in fields[k] && ParseHex(fields[k]) == Some(a[k]) {
      ParseByteToHex(a[k]);
      assert !IsHexDigit(':');
    }
    SplitJoin(fields, ':');
    var r := ParseMac(FormatMac(a));
    assert r.Success?;
    assert r.value == a;
  }

  /** Two addresses with the same canonical spelling are the same address. */
  lemma FormatInjective(a: HardwareAddress, b: HardwareAddress)
    requires FormatMac(a) == FormatMac(b)
    ensures a == b
  {
    ParseFormat(a);
    ParseFormat(b);
  }

  /** The case of the hexadecimal digits never changes the outcome. */
  lemma ParseMacLower(s: string)
    ensures ParseMac(Lower(s)) == ParseMac(s)
  {
    var fs := Split(s, ':');
    var gs := Split(Lower(s), ':');
    SplitLower(s, ':');
    forall k | 0 <= k < |fs| ensures ParseHex(gs[k]) == ParseHex(fs[k]) {
      ParseHexLower(fs[k]);
    }
    SameValuesSameParse(s, Lower(s));
  }

  /** Two strings whose fields read alike, field by field, parse alike. */
  lemma SameValuesSameParse(s: string, t: string)
    requires |Split(s, ':')| == |Split(t, ':')|
    requires forall k :: 0 <= k < |Split(s, ':')| ==> ParseHex(Split(t, ':')[k]) == ParseHex(Split(s, ':')[k])
    ensures ParseMac(t) == ParseMac(s)
  {
    var r, q := ParseMac(s), ParseMac(t);
    if r.Success? {
      ParseMacAccepts(t, r.value);
    } else if r.error.InvalidLiteral? {
      ParseMacInvalid(t, r.error.field);
    } else if r.error.OutOfRange? {
      ParseMacOutOfRange(t, r.error.field, r.error.value);
    }
  }

  /**
   * Without a colon there is a single field: neither the hyphenated form
   * `00-11-22-33-44-55` nor twelve bare digits is accepted.
   */
  lemma NoColonRejected(s: string)
    requires ':' !in s
    ensures ParseMac(s) == Failure(FieldCount(1))
  {
    CountAbsent(s, ':');
  }
}
