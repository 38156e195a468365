/**
 * The Wake-on-LAN "magic packet" built on wol.py:65: six 0xFF octets
 * followed by the 6-octet hardware address sixteen times, 102 octets in all.
 */
module MagicPacket {
  import opened Wrappers
  import opened Hex
  import opened MacAddress

  /** `s * n` for a Python sequence: `n` copies of `s`, one after another. */
  function Repeat<T>(s: seq<T>, n: nat): (r: seq<T>)
    ensures |r| == |s| * n
  {
    if n == 0 then [] else s + Repeat(s, n - 1)
  }

  /** Element `k` of copy `j` of `s * n` is element `k` of `s`. */
  lemma {:induction false} RepeatAt<T>(s: seq<T>, n: nat, j: nat, k: nat)
    requires j < n && k < |s|
    ensures |s| * j + k < |Repeat(s, n)| && Repeat(s, n)[|s| * j + k] == s[k]
  {
    if j > 0 {
      RepeatAt(s, n - 1, j - 1, k);
      assert |s| * j + k == |s| + (|s| * (j - 1) + k);
    }
  }

  /** The synchronisation stream `'\xff' * 6`. */
  const Header: seq<Byte> := [0xFF, 0xFF, 0xFF, 0xFF, 0xFF, 0xFF]

  lemma HeaderIsRepeat()
    ensures Repeat([0xFF], 6) == Header
  {
  }

  /** The payload `'\xff' * 6 + hwa * 16`, read as octets throughout. */
  function Packet(hwa: HardwareAddress): (p: seq<Byte>)
    ensures |p| == 102 && p[..6] == Header
  {
    Header + Repeat(hwa, 16)
  }

  /**
   * The layout a Wake-on-LAN receiver looks for, stated octet by octet:
   * 102 octets, the first six 0xFF, then octet `6 + i` equal to octet
   * `i % 6` of the address.
   */
  ghost predicate IsMagicPacketFor(p: seq<Byte>, hwa: HardwareAddress)
  {
    |p| == 102 &&
    (forall i :: 0 <= i < 6 ==> p[i] == 0xFF) &&
    (forall i :: 0 <= i < 96 ==> p[6 + i] == hwa[i % 6])
  }

  /** The packet has exactly the magic-packet layout, and carries the address at 6..12. */
  lemma PacketLayout(hwa: HardwareAddress)
    ensures |Packet(hwa)| == 6 + 6 * 16
    ensures Packet(hwa)[..6] == Header
    ensures IsMagicPacketFor(Packet(hwa), hwa)
    ensures Packet(hwa)[6..12] == hwa
  {
    var p := Packet(hwa);
    forall i | 0 <= i < 96 ensures p[6 + i] == hwa[i % 6] {
      RepeatAt(hwa, 16, i / 6, i % 6);
    }
    assert p[6..12] == hwa by {
      forall i | 0 <= i < 6 ensures p[6..12][i] == hwa[i] {
        assert p[6 + i] == hwa[i % 6];
      }
    }
  }

  /** The layout determines the packet: `Packet(hwa)` is the only one. */
  lemma PacketUnique(p: seq<Byte>, hwa: HardwareAddress)
    ensures IsMagicPacketFor(p, hwa) <==> p == Packet(hwa)
  {
    PacketLayout(hwa);
    if IsMagicPacketFor(p, hwa) {
      var q := Packet(hwa);
      forall i | 0 <= i < 102 ensures p[i] == q[i] {
        if i >= 6 {
          assert p[6 + (i - 6)] == hwa[(i - 6) % 6];
          assert q[6 + (i - 6)] == hwa[(i - 6) % 6];
        }
      }
    }
  }

  /**
   * The model's own reference reader, standing for a receiving interface:
   * it recognises a payload that is exactly a magic packet and reads the
   * address it carries, or finds that it is not one. A real interface looks
   * for the pattern anywhere in a frame; this one accepts only the
   * 102-octet payload itself.
   */
  function Recognise(p: seq<Byte>): (r: Option<HardwareAddress>)
  {
    if |p| == 102 && (forall i :: 0 <= i < 6 ==> p[i] == 0xFF) &&
       (forall i :: 0 <= i < 96 ==> p[6 + i] == p[6 + i % 6])
    then Some(p[6..12])
    else None
  }

  /** A built packet is recognised as carrying its address. */
  lemma RecognisePacket(hwa: HardwareAddress)
    ensures Recognise(Packet(hwa)) == Some(hwa)
  {
    var p := Packet(hwa);
    PacketLayout(hwa);
    forall i | 0 <= i < 96 ensures p[6 + i] == p[6 + i % 6] {
      assert p[6 + i % 6] == hwa[(i % 6) % 6];
    }
  }

  /** Anything recognised is exactly the packet for the address read from it. */
  lemma RecognisedIsPacket(p: seq<Byte>)
    requires Recognise(p).Some?
    ensures p == Packet(Recognise(p).value)
  {
    var hwa := Recognise(p).value;
    forall i | 0 <= i < 96 ensures p[6 + i] == hwa[i % 6] {
      assert p[6 + i] == p[6 + i % 6];
    }
    PacketUnique(p, hwa);
  }

  /** Different addresses give different packets. */
  lemma PacketInjective(a: HardwareAddress, b: HardwareAddress)
    requires Packet(a) == Packet(b)
    ensures a == b
  {
    PacketLayout(a);
    PacketLayout(b);
  }

  /*
   * Line 65 as written, in Python 3's terms: `'\xff' * 6` is text while
   * `hwa` (the result of `pack`) is bytes, and `+` between the two raises
   * TypeError.
   */

  /** The two kinds of Python sequence line 65 combines. */
  datatype PyValue = PyText(chars: string) | PyBytes(octets: seq<Byte>)

  datatype PyError = TypeError

  /** `v * n`: repetition keeps the kind of the sequence. */
  function PyRepeat(v: PyValue, n: nat): (r: PyValue)
    ensures r.PyText? == v.PyText?
  {
    match v
    case PyText(t) => PyText(Repeat(t, n))
    case PyBytes(b) => PyBytes(Repeat(b, n))
  }

  /** `a + b`: concatenation of two sequences of the same kind, TypeError otherwise. */
  function PyConcat(a: PyValue, b: PyValue): (r: Result<PyValue, PyError>)
    ensures r.Success? <==> a.PyText? == b.PyText?
  {
    match (a, b)
    case (PyText(s), PyText(t)) => Success(PyText(s + t))
    case (PyBytes(s), PyBytes(t)) => Success(PyBytes(s + t))
    case _ => Failure(TypeError)
  }

  /**
   * `'\xff' * 6 + hwa * 16` exactly as line 65 writes it: under Python 3 it
   * raises for every address, so nothing is ever sent.
   */
  function MessageAsWritten(hwa: HardwareAddress): (r: Result<PyValue, PyError>)
    ensures r == Failure(TypeError)
  {
    PyConcat(PyRepeat(PyText("\U{FF}"), 6), PyRepeat(PyBytes(hwa), 16))
  }

  /** The evident intent, `b'\xff' * 6 + hwa * 16`, is the magic packet. */
  function MessageIntended(hwa: HardwareAddress): (r: Result<PyValue, PyError>)
    ensures r.Success? && r.value.PyBytes? && |r.value.octets| == 102
  {
    PyConcat(PyRepeat(PyBytes([0xFF]), 6), PyRepeat(PyBytes(hwa), 16))
  }

  /**
   * Line 65 as written and as intended part ways on every address: the
   * first raises, the second is the packet.
   */
  lemma MessageAsWrittenRaises(hwa: HardwareAddress)
    ensures MessageAsWritten(hwa) == Failure(TypeError)
    ensures MessageIntended(hwa) == Success(PyBytes(Packet(hwa)))
  {
    HeaderIsRepeat();
  }

  lemma MessageIntendedIsPacket(hwa: HardwareAddress)
    ensures MessageIntended(hwa) == Success(PyBytes(Packet(hwa)))
    ensures IsMagicPacketFor(Packet(hwa), hwa)
  {
    HeaderIsRepeat();
    PacketLayout(hwa);
  }
}
