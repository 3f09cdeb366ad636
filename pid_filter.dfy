/**
 * The packet loop of `main` in freesat.cpp: every packet the synchroniser
 * delivers is checked for its 13-bit packet identifier (PID), and only those
 * on PID 3002, which carries the Bouquet Association Table on this platform,
 * are passed on to section reassembly.
 */
module PidFilter {
  import opened Common
  import opened TsReader

  /** The PID that carries the bouquet table. */
  const BatPid: int := 3002

  /**
   * The PID of a packet: the low five bits of byte 1 above byte 2; the top
   * three bits of byte 1 are header flags.
   */
  function Pid(packet: seq<uint8>): (pid: int)
    requires |packet| >= 3
    ensures 0 <= pid < 0x2000
  {
    (packet[1] as int % 0x20) * 0x100 + packet[2] as int
  }

  /** The first three header bytes of a packet with the given flag bits and PID. */
  function Header(flags: int, pid: int): (h: seq<uint8>)
    requires 0 <= flags < 8 && 0 <= pid < 0x2000
    ensures |h| == 3 && h[0] == Sync
  {
    [Sync, flags * 0x20 + pid / 0x100, pid % 0x100]
  }

  /** The PID is read back from any header, whatever its flag bits. */
  lemma PidOfHeader(flags: int, pid: int, payload: seq<uint8>)
    requires 0 <= flags < 8 && 0 <= pid < 0x2000
    ensures Pid(Header(flags, pid) + payload) == pid
  {
    var b1 := flags * 0x20 + pid / 0x100;
    assert b1 % 0x20 == pid / 0x100;
  }

  /** The packets that are forwarded, in the order they arrive. */
  function BatPackets(packets: seq<seq<uint8>>): (r: seq<seq<uint8>>)
    requires forall k | 0 <= k < |packets| :: |packets[k]| == PacketSize
    ensures |r| <= |packets|
    ensures forall k | 0 <= k < |r| :: |r[k]| == PacketSize && Pid(r[k]) == BatPid
  {
    if packets == [] then []
    else
      var tail := BatPackets(packets[1..]);
      if Pid(packets[0]) == BatPid then [packets[0]] + tail else tail
  }

  /** A packet is forwarded exactly when it is one of the input packets and carries PID 3002. */
  lemma {:induction false} BatPacketsMembers(packets: seq<seq<uint8>>, p: seq<uint8>)
    requires forall k | 0 <= k < |packets| :: |packets[k]| == PacketSize
    ensures p in BatPackets(packets) <==> p in packets && Pid(p) == BatPid
  {
    if packets != [] {
      BatPacketsMembers(packets[1..], p);
      assert packets == [packets[0]] + packets[1..];
    }
  }

  lemma NoPackets(s: seq<uint8>)
    requires !HasPacket(s)
    ensures BatPackets(Packets(s)) == []
  {
  }

  lemma PacketsStep(s: seq<uint8>, packet: seq<uint8>, rest: seq<uint8>)
    requires NextPacket(s) == Some((packet, rest))
    ensures BatPackets(Packets(s)) ==
      (if Pid(packet) == BatPid then [packet] else []) + BatPackets(Packets(rest))
  {
    PacketsCons(s, packet, rest);
    assert Packets(s)[1..] == Packets(rest);
  }

  /**
   * The loop `while (p = reader.get_packet())` of `main`: returns the
   * packets it hands to section reassembly.
   */
  method ForwardBatPackets(reader: Reader) returns (forwarded: seq<seq<uint8>>)
    requires reader.Valid()
    modifies reader, reader.buffer, reader.stream
    ensures reader.Valid()
    ensures forwarded == BatPackets(Packets(old(reader.Pending())))
  {
    ghost var all := BatPackets(Packets(reader.Pending()));
    forwarded := [];
    ghost var before := reader.Pending();
    var p := reader.GetPacket();
    while p.Some?
      invariant reader.Valid()
      invariant p.Some? ==> 0 <= p.value && p.value + PacketSize <= reader.buffer.Length
      invariant p.Some? ==>
        NextPacket(before) == Some((reader.buffer[p.value..p.value + PacketSize], reader.Pending()))
      invariant p.None? ==> !HasPacket(before)
      invariant forwarded + BatPackets(Packets(before)) == all
      decreases |before|
    {
      var packet := reader.buffer[p.value..p.value + PacketSize];
      ghost var after := reader.Pending();
      ghost var later := BatPackets(Packets(after));
      PacketsStep(before, packet, after);
      if Pid(packet) == BatPid {
        AppendAssoc(forwarded, [packet], later);
        forwarded := forwarded + [packet];
      } else {
        AppendAssoc(forwarded, [], later);
      }
      before := after;
      p := reader.GetPacket();
    }
    NoPackets(before);
  }
}
