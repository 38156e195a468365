/**
 * Concrete runs of the model on the script's own configuration and on the
 * address forms its usage text and table use.
 */
module Scenarios {
  import opened Wrappers
  import opened Text
  import opened Hex
  import opened MacAddress
  import opened MagicPacket
  import opened Wol

  lemma CanonicalAccepted()
    ensures ParseMac("00:11:22:33:44:55") == Success([0x00, 0x11, 0x22, 0x33, 0x44, 0x55])
  {
    CanonicalSpelling();
    ParseFormat([0x00, 0x11, 0x22, 0x33, 0x44, 0x55]);
  }

  lemma CanonicalSpelling()
    ensures FormatMac([0x00, 0x11, 0x22, 0x33, 0x44, 0x55]) == "00:11:22:33:44:55"
  {
    var a: HardwareAddress := [0x00, 0x11, 0x22, 0x33, 0x44, 0x55];
    assert seq(6, k requires 0 <= k < 6 => ByteToHex(a[k])) == ["00", "11", "22", "33", "44", "55"];
    JoinCanonical();
  }

  /** Joining six fields, written out. */
  lemma JoinSix(fs: seq<string>, sep: char)
    requires |fs| == 6
    ensures Join(fs, sep) ==
      fs[0] + [sep] + (fs[1] + [sep] + (fs[2] + [sep] + (fs[3] + [sep] + (fs[4] + [sep] + fs[5]))))
  {
    var t1 := fs[1..];
    var t2, t3, t4 := t1[1..], t1[1..][1..], t1[1..][1..][1..];
    assert t4 == [fs[4], fs[5]] && t4[1..] == [fs[5]];
    assert Join(t4, sep) == fs[4] + [sep] + fs[5];
    assert Join(t3, sep) == fs[3] + [sep] + Join(t4, sep);
    assert Join(t2, sep) == fs[2] + [sep] + Join(t3, sep);
    assert Join(t1, sep) == fs[1] + [sep] + Join(t2, sep);
  }

  lemma JoinCanonical()
    ensures Join(["00", "11", "22", "33", "44", "55"], ':') == "00:11:22:33:44:55"
  {
    JoinSix(["00", "11", "22", "33", "44", "55"], ':');
  }

  lemma LowerEntry()
    ensures Lower("00:1C:55:35:12:BF") == "00:1c:55:35:12:bf"
  {
    LowerPointwise("00:1C:55:35:12:BF", "00:1c:55:35:12:bf");
  }

  lemma LowerPointwise(s: string, t: string)
    requires |s| == |t| && forall i :: 0 <= i < |s| ==> LowerChar(s[i]) == t[i]
    ensures Lower(s) == t
  {
  }

  lemma FiveFieldsRejected()
    ensures ParseMac("00:11:22:33:44") == Failure(FieldCount(5))
  {
    var fs := ["00", "11", "22", "33", "44"];
    assert fs[1..] == ["11", "22", "33", "44"];
    assert fs[1..][1..] == ["22", "33", "44"];
    assert fs[1..][1..][1..] == ["33", "44"];
    assert Join(["33", "44"], ':') == "33:44";
    assert Join(["22", "33", "44"], ':') == "22:33:44";
    assert Join(["11", "22", "33", "44"], ':') == "11:22:33:44";
    assert Join(fs, ':') == "00:11:22:33:44";
    SplitJoin(fs, ':');
  }

  lemma HyphenatedRejected()
    ensures ParseMac("00-11-22-33-44-55") == Failure(FieldCount(1))
    ensures ParseMac("001122334455") == Failure(FieldCount(1))
  {
    NoColonRejected("00-11-22-33-44-55");
    NoColonRejected("001122334455");
  }

  lemma JoinBadDigits()
    ensures Join(["gg", "11", "22", "33", "44", "55"], ':') == "gg:11:22:33:44:55"
  {
    JoinSix(["gg", "11", "22", "33", "44", "55"], ':');
  }

  /** `int("gg", 16)` raises, so the call raises instead of sending. */
  lemma BadDigitsRaise()
    ensures ParseMac("gg:11:22:33:44:55") == Failure(InvalidLiteral(0))
  {
    JoinBadDigits();
    SplitJoin(["gg", "11", "22", "33", "44", "55"], ':');
    BadDigits("gg:11:22:33:44:55");
  }

  lemma BadDigits(s: string)
    requires Split(s, ':') == ["gg", "11", "22", "33", "44", "55"]
    ensures ParseMac(s) == Failure(InvalidLiteral(0))
  {
    assert !IsHexDigit("gg"[0]);
    ParseMacInvalid(s, 0);
  }

  lemma JoinEmptyField()
    ensures Join(["00", "11", "", "33", "44", "55"], ':') == "00:11::33:44:55"
  {
    JoinSix(["00", "11", "", "33", "44", "55"], ':');
  }

  /** Adjacent colons give an empty field, and `int("", 16)` raises. */
  lemma EmptyFieldRaises()
    ensures ParseMac("00:11::33:44:55") == Failure(InvalidLiteral(2))
  {
    JoinEmptyField();
    SplitJoin(["00", "11", "", "33", "44", "55"], ':');
    EmptyField("00:11::33:44:55");
  }

  lemma EmptyField(s: string)
    requires Split(s, ':') == ["00", "11", "", "33", "44", "55"]
    ensures ParseMac(s) == Failure(InvalidLiteral(2))
  {
    assert AllHex("00") && AllHex("11");
    ParseMacInvalid(s, 2);
  }

  lemma JoinWideField()
    ensures Join(["100", "11", "22", "33", "44", "55"], ':') == "100:11:22:33:44:55"
  {
    JoinSix(["100", "11", "22", "33", "44", "55"], ':');
  }

  lemma Value256()
    ensures ParseHex("100") == Some(256)
  {
    assert "100"[..2] == "10";
    assert "10"[..1] == "1";
    assert "1"[..0] == "";
  }

  /** `int("100", 16)` is 256, which `pack('B', ...)` refuses. */
  lemma WideFieldRaises()
    ensures ParseMac("100:11:22:33:44:55") == Failure(OutOfRange(0, 256))
  {
    JoinWideField();
    SplitJoin(["100", "11", "22", "33", "44", "55"], ':');
    WideField("100:11:22:33:44:55");
  }

  lemma WideField(s: string)
    requires Split(s, ':') == ["100", "11", "22", "33", "44", "55"]
    ensures ParseMac(s) == Failure(OutOfRange(0, 256))
  {
    var fs := ["100", "11", "22", "33", "44", "55"];
    Value256();
    forall k | 1 <= k < 6 ensures ParseHex(fs[k]).Some? && ParseHex(fs[k]).value < 256 {
      ShortValueFits(fs[k]);
    }
    ParseMacOutOfRange(s, 0, 256);
  }

  lemma JoinLateBadField()
    ensures Join(["100", "11", "22", "33", "44", "zz"], ':') == "100:11:22:33:44:zz"
  {
    JoinSix(["100", "11", "22", "33", "44", "zz"], ':');
  }

  /**
   * All six `int` calls run before `pack`: an invalid last field is reported
   * even though the first field is already too wide.
   */
  lemma LiteralCheckedBeforeRange()
    ensures ParseMac("100:11:22:33:44:zz") == Failure(InvalidLiteral(5))
  {
    JoinLateBadField();
    SplitJoin(["100", "11", "22", "33", "44", "zz"], ':');
    LateBadField("100:11:22:33:44:zz");
  }

  lemma LateBadField(s: string)
    requires Split(s, ':') == ["100", "11", "22", "33", "44", "zz"]
    ensures ParseMac(s) == Failure(InvalidLiteral(5))
  {
    assert !IsHexDigit("zz"[0]);
    assert AllHex("100") && AllHex("11") && AllHex("22") && AllHex("33") && AllHex("44");
    ParseMacInvalid(s, 5);
  }

  /** The canonical spelling of an address, given field by field, parses to the address. */
  lemma ParsesTo(a: HardwareAddress, fs: seq<string>, s: string)
    requires fs == seq(6, k requires 0 <= k < 6 => ByteToHex(a[k])) && s == Join(fs, ':')
    ensures ParseMac(s) == Success(a)
  {
    ParseFormat(a);
  }

  lemma JoinMercury()
    ensures Join(["00", "1c", "55", "35", "12", "bf"], ':') == "00:1c:55:35:12:bf"
  {
    JoinSix(["00", "1c", "55", "35", "12", "bf"], ':');
  }

  lemma JoinVenus()
    ensures Join(["00", "1d", "39", "55", "5c", "df"], ':') == "00:1d:39:55:5c:df"
  {
    JoinSix(["00", "1d", "39", "55", "5c", "df"], ':');
  }

  lemma JoinEarth()
    ensures Join(["00", "10", "60", "15", "97", "fb"], ':') == "00:10:60:15:97:fb"
  {
    JoinSix(["00", "10", "60", "15", "97", "fb"], ':');
  }

  lemma JoinMars()
    ensures Join(["00", "10", "dc", "34", "b2", "87"], ':') == "00:10:dc:34:b2:87"
  {
    JoinSix(["00", "10", "dc", "34", "b2", "87"], ':');
  }

  lemma LowerMars()
    ensures Lower("00:10:DC:34:B2:87") == "00:10:dc:34:b2:87"
  {
    LowerPointwise("00:10:DC:34:B2:87", "00:10:dc:34:b2:87");
  }

  lemma MercuryAccepted()
    ensures ParseMac("00:1C:55:35:12:BF") == Success([0x00, 0x1C, 0x55, 0x35, 0x12, 0xBF])
  {
    JoinMercury();
    ParsesTo([0x00, 0x1C, 0x55, 0x35, 0x12, 0xBF], ["00", "1c", "55", "35", "12", "bf"], "00:1c:55:35:12:bf");
    LowerEntry();
    ParseMacLower("00:1C:55:35:12:BF");
  }

  lemma VenusAccepted()
    ensures ParseMac("00:1d:39:55:5c:df") == Success([0x00, 0x1D, 0x39, 0x55, 0x5C, 0xDF])
  {
    JoinVenus();
    ParsesTo([0x00, 0x1D, 0x39, 0x55, 0x5C, 0xDF], ["00", "1d", "39", "55", "5c", "df"], "00:1d:39:55:5c:df");
  }

  lemma EarthAccepted()
    ensures ParseMac("00:10:60:15:97:fb") == Success([0x00, 0x10, 0x60, 0x15, 0x97, 0xFB])
  {
    JoinEarth();
    ParsesTo([0x00, 0x10, 0x60, 0x15, 0x97, 0xFB], ["00", "10", "60", "15", "97", "fb"], "00:10:60:15:97:fb");
  }

  lemma MarsAccepted()
    ensures ParseMac("00:10:DC:34:B2:87") == Success([0x00, 0x10, 0xDC, 0x34, 0xB2, 0x87])
  {
    JoinMars();
    ParsesTo([0x00, 0x10, 0xDC, 0x34, 0xB2, 0x87], ["00", "10", "dc", "34", "b2", "87"], "00:10:dc:34:b2:87");
    LowerMars();
    ParseMacLower("00:10:DC:34:B2:87");
  }

  /** Every entry of the script's table is an address `wake_on_lan` accepts. */
  lemma KnownComputersAccepted(name: string)
    requires name in KnownComputers
    ensures ParseMac(KnownComputers[name]).Success?
  {
    var mac := KnownComputers[name];
    assert mac == "00:1C:55:35:12:BF" || mac == "00:1d:39:55:5c:df"
        || mac == "00:10:60:15:97:fb" || mac == "00:10:DC:34:B2:87";
    if mac == "00:1C:55:35:12:BF" {
      MercuryAccepted();
    } else if mac == "00:1d:39:55:5c:df" {
      VenusAccepted();
    } else if mac == "00:10:60:15:97:fb" {
      EarthAccepted();
    } else {
      MarsAccepted();
    }
  }

  /**
   * Names and MAC strings are handed on in order; the script path is
   * skipped; an unknown name ends processing before the names after it.
   */
  lemma DispatchMixed()
    ensures Dispatch(["/usr/local/bin/wol", "mercury", "00:11:22:33:44:55", "pluto", "venus"], KnownComputers)
      == Dispatched(["00:1C:55:35:12:BF", "00:11:22:33:44:55"], UnknownComputer("pluto"))
  {
    var args := ["/usr/local/bin/wol", "mercury", "00:11:22:33:44:55", "pluto", "venus"];
    assert ':' !in "mercury" && ':' !in "pluto";
    assert "pluto" !in KnownComputers;
    assert args[1..][1..][1..] == ["pluto", "venus"];
  }

  /**
   * The loop also visits `argv[0]`: a script started by a relative path is
   * taken for an unknown computer before any name is looked at.
   */
  lemma RelativeScriptPathStops()
    ensures Dispatch(["wol.py", "mercury"], KnownComputers) == Dispatched([], UnknownComputer("wol.py"))
  {
    assert ':' !in "wol.py";
    assert "wol.py" !in KnownComputers;
  }

  /** A `-v` flag that reaches the loop is taken for an unknown computer name. */
  lemma VerboseFlagStops()
    ensures Dispatch(["/usr/local/bin/wol", "-v", "mercury"], KnownComputers) == Dispatched([], UnknownComputer("-v"))
  {
    assert ':' !in "-v";
    assert "-v" !in KnownComputers;
  }

  /** With the script's configuration an accepted address yields one datagram per broadcast address, on port 9. */
  lemma DefaultTrace(mac: string, a: HardwareAddress)
    requires ParseMac(mac) == Success(a)
    ensures WakeTrace(mac, DefaultConfig) == [
      Datagram("192.168.1.255", 9, Packet(a)),
      Datagram("192.168.0.255", 9, Packet(a))]
  {
  }

  /**
   * An address that is only refused lets the run go on; the next one, if it
   * makes `int` or `pack` raise, ends it: whatever follows is never reached.
   */
  lemma RefusedThenRaised(args: seq<string>, table: map<string, string>)
    requires |args| >= 3 && args[0] != [] && args[0][0] == '/'
    requires ':' in args[1] && args[1][0] != '/' && ParseMac(args[1]).Failure? && ParseMac(args[1]).error.FieldCount?
    requires ':' in args[2] && args[2][0] != '/' && Raises(args[2])
    ensures Process(args, table) == Processed(args[1..3], Crashed(args[2], ParseMac(args[2]).error))
  {
    var crash := Crashed(args[2], ParseMac(args[2]).error);
    assert StepOf(args[2], table) == Wake(args[2]);
    ProcessUnfold(args, 2, table);
    assert Process(args[2..], table) == Processed([args[2]], crash);
    assert StepOf(args[1], table) == Wake(args[1]) && !Raises(args[1]);
    ProcessUnfold(args, 1, table);
    assert Process(args[1..], table) == Processed([args[1], args[2]], crash);
    ProcessUnfold(args, 0, table);
    assert args[0..] == args;
    assert [args[1], args[2]] == args[1..3];
  }
}
