/**
 * The Wake-on-LAN sender `wake_on_lan`: it decodes the configured MAC text,
 * lays out a magic packet (six 0xFF bytes, then the address sixteen times, as
 * AMD's Magic Packet Technology white paper defines it) and hands it to a UDP
 * socket with broadcast enabled, addressed to the target on port 9. Every
 * exception is caught and logged, so the call never fails its caller.
 */
module Wol {
  import opened Wrappers
  import opened Hex

  /** The discard port the packet is addressed to. */
  const WolPort: nat := 9

  /** Number of copies of the address in the packet. */
  const Copies: nat := 16

  /** One datagram handed to the UDP socket. */
  datatype Datagram = Datagram(payload: seq<Byte>, host: string, port: nat)

  /** `s * n` on Python bytes: `n` copies of `s` back to back. */
  function Repeat(s: seq<Byte>, n: nat): (r: seq<Byte>)
    ensures |r| == n * |s|
  {
    if n == 0 then [] else s + Repeat(s, n - 1)
  }

  /** The six-byte 0xFF synchronisation stream. */
  function SyncStream(): (r: seq<Byte>)
    ensures |r| == 6 && forall i :: 0 <= i < 6 ==> r[i] == 0xFF
  {
    [0xFF, 0xFF, 0xFF, 0xFF, 0xFF, 0xFF]
  }

  /** `b'\xff' * 6 + mac_bytes * 16`. */
  function MagicPacket(mac: seq<Byte>): (p: seq<Byte>)
    ensures |p| == 6 + Copies * |mac|
    ensures forall i :: 0 <= i < 6 ==> p[i] == 0xFF
  {
    SyncStream() + Repeat(mac, Copies)
  }

  /**
   * What a receiving network card looks for: a 102-byte frame made of the
   * synchronisation stream and sixteen copies of one 6-byte address, which it
   * yields.
   */
  function ParseMagicPacket(p: seq<Byte>): Option<seq<Byte>> {
    if |p| == 102 && p[..6] == SyncStream()
       && forall k :: 0 <= k < 16 ==> p[6 + 6 * k .. 12 + 6 * k] == p[6..12]
    then Some(p[6..12])
    else None
  }

  /**
   * `wake_on_lan(mac, ip)`: the datagram sent, or `None` when the MAC text does
   * not decode or the socket fails (the error is logged and swallowed).
   * `socketOk` stands for the outcome of the socket calls.
   */
  function WakeOnLan(mac: string, ip: string, socketOk: bool): (sent: Option<Datagram>)
    ensures sent.Some? <==> DecodeMac(mac).Some? && socketOk
    ensures sent.Some? ==> sent.value.host == ip && sent.value.port == 9
                           && |sent.value.payload| == 6 + 16 * |DecodeMac(mac).value|
    ensures sent.Some? ==> sent.value.payload == MagicPacket(DecodeMac(mac).value)
  {
    match DecodeMac(mac)
    case None => None
    case Some(macBytes) =>
      if socketOk then Some(Datagram(MagicPacket(macBytes), ip, WolPort)) else None
  }

  // ---------------------------------------------------------------------------
  // The layout of the packet

  /** Byte `j` of copy `k` in `Repeat(s, n)` is `s[j]`. */
  lemma {:induction false} RepeatAt(s: seq<Byte>, n: nat, k: nat, j: nat)
    requires k < n && j < |s|
    ensures k * |s| + j < |Repeat(s, n)| && Repeat(s, n)[k * |s| + j] == s[j]
  {
    if k > 0 {
      RepeatAt(s, n - 1, k - 1, j);
      assert k * |s| + j == |s| + ((k - 1) * |s| + j);
    }
  }

  /**
   * The packet for a 6-byte address is 102 bytes: six 0xFF bytes, and then
   * copy k of the address at bytes 6 + 6k .. 11 + 6k for every k in 0..15, so
   * byte i (for i >= 6) is address byte (i - 6) mod 6.
   */
  lemma MagicPacketLayout(mac: seq<Byte>)
    requires |mac| == 6
    ensures |MagicPacket(mac)| == 102
    ensures forall i :: 0 <= i < 6 ==> MagicPacket(mac)[i] == 0xFF
    ensures forall i :: 6 <= i < 102 ==> MagicPacket(mac)[i] == mac[(i - 6) % 6]
  {
    forall i | 6 <= i < 102 ensures MagicPacket(mac)[i] == mac[(i - 6) % 6] {
      var k, j := (i - 6) / 6, (i - 6) % 6;
      RepeatAt(mac, Copies, k, j);
      assert i - 6 == k * |mac| + j;
    }
  }

  /** Each six-byte window after the synchronisation stream is the address. */
  lemma MagicPacketWindows(mac: seq<Byte>)
    requires |mac| == 6
    ensures forall k :: 0 <= k < 16 ==> MagicPacket(mac)[6 + 6 * k .. 12 + 6 * k] == mac
  {
    MagicPacketLayout(mac);
    var p := MagicPacket(mac);
    forall k | 0 <= k < 16 ensures p[6 + 6 * k .. 12 + 6 * k] == mac {
      forall j | 0 <= j < 6 ensures p[6 + 6 * k .. 12 + 6 * k][j] == mac[j] {
        assert (6 + 6 * k + j - 6) % 6 == j;
      }
    }
  }

  /** A receiver recognises the packet and recovers the address from it. */
  lemma ParseMagicPacketRoundTrip(mac: seq<Byte>)
    requires |mac| == 6
    ensures ParseMagicPacket(MagicPacket(mac)) == Some(mac)
  {
    MagicPacketLayout(mac);
    MagicPacketWindows(mac);
    var p := MagicPacket(mac);
    assert p[..6] == SyncStream();
    assert p[6..12] == mac;
  }

  /** Conversely, every frame a receiver accepts is the packet this sender builds for its address. */
  lemma ParseMagicPacketOnlyMagic(p: seq<Byte>)
    requires ParseMagicPacket(p).Some?
    ensures p == MagicPacket(ParseMagicPacket(p).value)
  {
    var mac := p[6..12];
    var q := MagicPacket(mac);
    MagicPacketLayout(mac);
    forall i | 0 <= i < 102 ensures p[i] == q[i] {
      if i >= 6 {
        var k := (i - 6) / 6;
        var j := (i - 6) % 6;
        assert i == 6 + 6 * k + j;
        assert p[6 + 6 * k .. 12 + 6 * k][j] == p[i];
      } else {
        assert p[..6][i] == p[i];
      }
    }
  }

  /**
   * End to end: for any 6-byte address written with colons, dashes or no
   * separators, `wake_on_lan` sends a 102-byte datagram to port 9 that a
   * receiver reads back as that address (when the socket works).
   */
  lemma WakeOnLanSendsAddress(mac: seq<Byte>, sep: string, ip: string)
    requires |mac| == 6 && (sep == ":" || sep == "-" || sep == "")
    ensures WakeOnLan(FormatMac(mac, sep), ip, true).Some?
    ensures var d := WakeOnLan(FormatMac(mac, sep), ip, true).value;
            d.host == ip && d.port == 9 && |d.payload| == 102
            && ParseMagicPacket(d.payload) == Some(mac)
  {
    MacFormsDecode(mac, sep);
    ParseMagicPacketRoundTrip(mac);
  }

  /** Malformed MAC text sends nothing, whatever the socket would do. */
  lemma MalformedMacSendsNothing(mac: string, ip: string, socketOk: bool)
    requires var s := StripSeparators(mac);
             (exists i :: 0 <= i < |s| && !IsHexDigit(s[i]) && !IsAsciiSpace(s[i]))
             || CountHexDigits(s) % 2 == 1
    ensures WakeOnLan(mac, ip, socketOk) == None
  {
    MalformedHexRejected(StripSeparators(mac));
  }

  /** The three spellings of one address decode to the same six bytes and give a 102-byte packet. */
  lemma ExampleAddressForms()
    ensures var mac: seq<Byte> := [0xAA, 0xBB, 0xCC, 0xDD, 0xEE, 0xFF];
            && DecodeMac("AA:BB:CC:DD:EE:FF") == Some(mac)
            && DecodeMac("AA-BB-CC-DD-EE-FF") == Some(mac)
            && DecodeMac("AABBCCDDEEFF") == Some(mac)
            && |MagicPacket(mac)| == 102
  {
    ExampleForm(":");
    assert "AA" + ":" + "BB" + ":" + "CC" + ":" + "DD" + ":" + "EE" + ":" + "FF" == "AA:BB:CC:DD:EE:FF";
    ExampleForm("-");
    assert "AA" + "-" + "BB" + "-" + "CC" + "-" + "DD" + "-" + "EE" + "-" + "FF" == "AA-BB-CC-DD-EE-FF";
    ExampleForm("");
    assert "AA" + "" + "BB" + "" + "CC" + "" + "DD" + "" + "EE" + "" + "FF" == "AABBCCDDEEFF";
  }

  lemma ExampleForm(sep: string)
    requires sep == ":" || sep == "-" || sep == ""
    ensures DecodeMac("AA" + sep + "BB" + sep + "CC" + sep + "DD" + sep + "EE" + sep + "FF")
            == Some([0xAA, 0xBB, 0xCC, 0xDD, 0xEE, 0xFF])
  {
    var mac: seq<Byte> := [0xAA, 0xBB, 0xCC, 0xDD, 0xEE, 0xFF];
    ExampleDigits();
    FormatSix(mac, sep);
    MacFormsDecode(mac, sep);
  }

  lemma ExampleDigits()
    ensures ByteToHex(0xAA) == "AA" && ByteToHex(0xBB) == "BB" && ByteToHex(0xCC) == "CC"
    ensures ByteToHex(0xDD) == "DD" && ByteToHex(0xEE) == "EE" && ByteToHex(0xFF) == "FF"
  {
    assert Digit(10) == 'A' && Digit(11) == 'B' && Digit(12) == 'C';
    assert Digit(13) == 'D' && Digit(14) == 'E' && Digit(15) == 'F';
  }

  lemma FormatSix(mac: seq<Byte>, sep: string)
    requires |mac| == 6
    ensures FormatMac(mac, sep) == ByteToHex(mac[0]) + sep + ByteToHex(mac[1]) + sep + ByteToHex(mac[2]) + sep
                                   + ByteToHex(mac[3]) + sep + ByteToHex(mac[4]) + sep + ByteToHex(mac[5])
  {
    var t := mac[1..];
    assert FormatMac(mac, sep) == ByteToHex(mac[0]) + sep + FormatMac(t, sep);
    assert FormatMac(t, sep) == ByteToHex(t[0]) + sep + FormatMac(t[1..], sep);
    assert FormatMac(t[1..], sep) == ByteToHex(t[1]) + sep + FormatMac(t[2..], sep);
    assert FormatMac(t[2..], sep) == ByteToHex(t[2]) + sep + FormatMac(t[3..], sep);
    assert FormatMac(t[3..], sep) == ByteToHex(t[3]) + sep + FormatMac(t[4..], sep);
    assert FormatMac(t[4..], sep) == ByteToHex(t[4]);
  }
}
