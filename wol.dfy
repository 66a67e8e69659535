/**
 * The Wake-on-LAN magic packet: six bytes of 0xFF followed by the 6-byte
 * hardware address repeated sixteen times (the AMD "Magic Packet" layout).
 */
module Wol {
  import opened Wrappers

  /** An unsigned 8-bit value. */
  newtype Byte = x: int | 0 <= x < 0x100

  /** Length of a hardware (MAC) address in bytes. */
  const MacLength: nat := 6

  /** How many times the address is repeated after the header. */
  const MacRepeatTimes: nat := 16

  /** The synchronisation header that opens every packet. */
  const Head: seq<Byte> := [0xFF, 0xFF, 0xFF, 0xFF, 0xFF, 0xFF]

  /** Total length of a magic packet. */
  const PacketSize: nat := MacLength * MacRepeatTimes + |Head|

  /** The six bytes of a parsed hardware address. */
  type MacBytes = s: seq<Byte> | |s| == 6 witness [0, 0, 0, 0, 0, 0]

  /** Failure to read the address text. */
  datatype WolError = MacParseError

  /** `n` copies of the address, one after another. */
  function Repeated(mac: MacBytes, n: nat): (r: seq<Byte>)
    ensures |r| == MacLength * n
  {
    if n == 0 then [] else Repeated(mac, n - 1) + mac
  }

  /** The magic packet for `mac`. */
  function MagicPacket(mac: MacBytes): (p: seq<Byte>)
    ensures |p| == PacketSize == 102
  {
    Head + Repeated(mac, MacRepeatTimes)
  }

  /** Slot `k` of a packet: the six bytes of the `k`-th copy of the address. */
  function Slot(p: seq<Byte>, k: nat): seq<Byte>
    requires |p| == PacketSize && k < MacRepeatTimes
  {
    p[|Head| + MacLength * k .. |Head| + MacLength * (k + 1)]
  }

  /** The address a packet carries, read back from its first slot. */
  function AddressOf(p: seq<Byte>): (mac: MacBytes)
    requires |p| == PacketSize
  {
    Slot(p, 0)
  }

  /** A well-formed magic packet: the header, then sixteen identical six-byte slots. */
  predicate IsMagicPacket(p: seq<Byte>)
  {
    |p| == PacketSize &&
    p[..|Head|] == Head &&
    forall k :: 0 <= k < MacRepeatTimes ==> Slot(p, k) == Slot(p, 0)
  }

  /** Every copy inside `Repeated(mac, n)` is the address. */
  lemma {:induction false} RepeatedSlot(mac: MacBytes, n: nat, k: nat)
    requires k < n
    ensures Repeated(mac, n)[MacLength * k .. MacLength * (k + 1)] == mac
  {
    var prev := Repeated(mac, n - 1);
    assert Repeated(mac, n) == prev + mac;
    if k < n - 1 {
      RepeatedSlot(mac, n - 1, k);
      assert (prev + mac)[MacLength * k .. MacLength * (k + 1)] == prev[MacLength * k .. MacLength * (k + 1)];
    } else {
      assert (prev + mac)[|prev|..] == mac;
    }
  }

  /** Layout: 102 bytes, the first six are 0xFF, and each of the sixteen slots holds the address. */
  lemma MagicPacketLayout(mac: MacBytes)
    ensures |MagicPacket(mac)| == 102
    ensures forall i :: 0 <= i < |Head| ==> MagicPacket(mac)[i] == 0xFF
    ensures forall k :: 0 <= k < MacRepeatTimes ==> Slot(MagicPacket(mac), k) == mac
  {
    var p := MagicPacket(mac);
    forall k | 0 <= k < MacRepeatTimes
      ensures Slot(p, k) == mac
    {
      RepeatedSlot(mac, MacRepeatTimes, k);
      assert Slot(p, k) == Repeated(mac, MacRepeatTimes)[MacLength * k .. MacLength * (k + 1)];
    }
  }

  /** Round trip: the address read back from the packet is the one it was built from. */
  lemma AddressOfMagicPacket(mac: MacBytes)
    ensures AddressOf(MagicPacket(mac)) == mac
  {
    MagicPacketLayout(mac);
  }

  /** Distinct addresses give distinct packets. */
  lemma MagicPacketInjective(m1: MacBytes, m2: MacBytes)
    requires MagicPacket(m1) == MagicPacket(m2)
    ensures m1 == m2
  {
    AddressOfMagicPacket(m1);
    AddressOfMagicPacket(m2);
  }

  /** A byte sequence is a magic packet exactly when it is the packet of the address it carries. */
  lemma MagicPacketRecognised(p: seq<Byte>)
    requires |p| == PacketSize
    ensures IsMagicPacket(p) <==> p == MagicPacket(AddressOf(p))
  {
    var mac := AddressOf(p);
    var q := MagicPacket(mac);
    MagicPacketLayout(mac);
    if IsMagicPacket(p) {
      forall i | 0 <= i < PacketSize
        ensures p[i] == q[i]
      {
        if i >= |Head| {
          var k := (i - |Head|) / MacLength;
          assert Slot(p, k)[i - |Head| - MacLength * k] == p[i];
          assert Slot(q, k)[i - |Head| - MacLength * k] == q[i];
        } else {
          assert p[..|Head|][i] == p[i];
        }
      }
    }
  }

  /**
   * Vec::extend on a buffer of sufficient capacity: writes `src` after the
   * first `len` bytes and returns the new length.
   */
  method Extend(buffer: array<Byte>, len: nat, src: seq<Byte>) returns (newLen: nat)
    requires len + |src| <= buffer.Length
    modifies buffer
    ensures newLen == len + |src|
    ensures buffer[..newLen] == old(buffer[..len]) + src
  {
    newLen := len;
    for j := 0 to |src|
      invariant newLen == len + j
      invariant buffer[..newLen] == old(buffer[..len]) + src[..j]
    {
      buffer[newLen] := src[j];
      newLen := newLen + 1;
    }
  }

  /**
   * Builds the packet for the address written in `macStr`. Reading the text
   * is left to `parse`; when it fails, no packet is produced.
   */
  method CreateWolPacket(macStr: string, parse: string -> Option<MacBytes>) returns (r: Result<seq<Byte>, WolError>)
    ensures r.Ok? <==> parse(macStr).Some?
    ensures r.Ok? ==> r.value == MagicPacket(parse(macStr).value)
    ensures r.Err? ==> r.error == MacParseError
  {
    var address := parse(macStr);
    if address.None? {
      return Err(MacParseError);
    }
    var mac := address.value;
    var buffer := new Byte[PacketSize];
    var len := Extend(buffer, 0, Head);
    for i := 0 to MacRepeatTimes
      invariant len == |Head| + MacLength * i
      invariant buffer[..len] == Head + Repeated(mac, i)
    {
      len := Extend(buffer, len, mac);
    }
    r := Ok(buffer[..len]);
  }

  /** Copies of an address whose six bytes are all `b` are a run of `b`. */
  lemma {:induction false} RepeatedUniform(b: Byte, n: nat)
    ensures Repeated([b, b, b, b, b, b], n) == seq(MacLength * n, _ => b)
  {
    if n > 0 {
      RepeatedUniform(b, n - 1);
      assert seq(MacLength * (n - 1), _ => b) + [b, b, b, b, b, b] == seq(MacLength * n, _ => b);
    }
  }

  /** The unit test `test_create_wol_packet` (src/wol.rs:48-72): "10:10:10:10:10:10" yields six 0xFF bytes then ninety-six 0x10 bytes. */
  method CreateFixturePacket(parse: string -> Option<MacBytes>) returns (r: Result<seq<Byte>, WolError>)
    requires parse("10:10:10:10:10:10") == Some([0x10, 0x10, 0x10, 0x10, 0x10, 0x10])
    ensures r == Ok(seq(6, _ => 0xFF) + seq(96, _ => 0x10))
  {
    r := CreateWolPacket("10:10:10:10:10:10", parse);
    RepeatedUniform(0x10, MacRepeatTimes);
    assert Head == seq(6, _ => 0xFF);
  }
}
