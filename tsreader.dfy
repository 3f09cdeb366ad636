/**
 * The transport-packet synchroniser `tsreader` of freesat.cpp: a fixed-size
 * byte buffer with a read cursor and a fill mark over an input stream, from
 * which `GetPacket` hands out 188-byte windows that start with the sync byte
 * 'G' (0x47), the transport packet of section 2.4.3.2 of ISO/IEC 13818-1.
 *
 * The pure part says what the synchroniser delivers in terms of the bytes not
 * yet consumed (`NextPacket`, `Packets`); the classes model the stream and
 * the buffer and are proved against it.
 */
module TsReader {
  import opened Common

  const PacketSize: nat := 188
  /** The sync byte, the character 'G'. */
  const Sync: uint8 := 0x47
  /** The size the reader gives its buffer (1024*1024 bytes). */
  const BufferSize: nat := 1024 * 1024

  /** None of the first `n` bytes of `s` is a sync byte. */
  predicate NoSyncBelow(s: seq<uint8>, n: nat)
  {
    n <= |s| && forall j | 0 <= j < n :: s[j] != Sync
  }

  /** Index of the first sync byte of `s` at or after `k`, or |s| when there is none. */
  function FirstSyncFrom(s: seq<uint8>, k: nat): (i: nat)
    requires k <= |s|
    ensures k <= i <= |s|
    ensures forall j | k <= j < i :: s[j] != Sync
    ensures i < |s| ==> s[i] == Sync
    decreases |s| - k
  {
    if k == |s| || s[k] == Sync then k else FirstSyncFrom(s, k + 1)
  }

  /** Index of the first sync byte of `s`, or |s| when there is none. */
  function FirstSync(s: seq<uint8>): (i: nat)
    ensures NoSyncBelow(s, i)
    ensures i < |s| ==> s[i] == Sync
  {
    FirstSyncFrom(s, 0)
  }

  /** A sync byte after a sync-free prefix is the first one. */
  lemma FirstSyncAt(s: seq<uint8>, n: nat)
    requires NoSyncBelow(s, n) && n < |s| && s[n] == Sync
    ensures FirstSync(s) == n
  {
  }

  /** `t` is what is left of `s` after dropping a prefix that holds no sync byte. */
  predicate DropsGarbage(s: seq<uint8>, t: seq<uint8>)
  {
    |t| <= |s| && t == s[|s| - |t|..] && NoSyncBelow(s, |s| - |t|)
  }

  lemma DropsGarbageTrans(s: seq<uint8>, t: seq<uint8>, u: seq<uint8>)
    requires DropsGarbage(s, t) && DropsGarbage(t, u)
    ensures DropsGarbage(s, u)
  {
    var a := |s| - |t|;
    assert s[|s| - |u|..] == t[|t| - |u|..];
    forall j | 0 <= j < |s| - |u| ensures s[j] != Sync {
      if j >= a {
        assert s[j] == t[j - a];
      }
    }
  }

  /** True when a whole packet follows the first sync byte of `s`. */
  predicate HasPacket(s: seq<uint8>)
  {
    FirstSync(s) + PacketSize <= |s|
  }

  /**
   * What the next call of `get_packet` yields from the unconsumed bytes `s`:
   * the 188 bytes from the first sync byte on, and the bytes after them; or
   * nothing, when no sync byte has a whole packet behind it.
   */
  function NextPacket(s: seq<uint8>): (r: Option<(seq<uint8>, seq<uint8>)>)
    ensures r.None? <==> !HasPacket(s)
    ensures r.Some? ==>
      |r.value.0| == PacketSize && r.value.0[0] == Sync &&
      DropsGarbage(s, r.value.0 + r.value.1)
  {
    var i := FirstSync(s);
    if i + PacketSize <= |s| then
      assert s[i..] == s[i..i + PacketSize] + s[i + PacketSize..];
      Some((s[i..i + PacketSize], s[i + PacketSize..]))
    else
      None
  }

  /**
   * `get_packet` ends the stream exactly when no sync byte in the unconsumed
   * bytes has a whole packet behind it.
   */
  lemma EndOfPackets(s: seq<uint8>)
    ensures NextPacket(s).None? <==> forall j | 0 <= j < |s| && s[j] == Sync :: j + PacketSize > |s|
  {
    var i := FirstSync(s);
    if i + PacketSize <= |s| {
      assert s[i] == Sync;
    } else {
      forall j | 0 <= j < |s| && s[j] == Sync ensures j + PacketSize > |s| {
        assert j >= i;
      }
    }
  }

  /** Every packet that repeated calls of `get_packet` deliver from `s`, in order. */
  function Packets(s: seq<uint8>): (r: seq<seq<uint8>>)
    ensures forall k | 0 <= k < |r| :: |r[k]| == PacketSize && r[k][0] == Sync
    decreases |s|
  {
    match NextPacket(s)
    case None => []
    case Some((packet, rest)) => [packet] + Packets(rest)
  }

  /** Each packet delivered takes 188 bytes of the stream: at most |s| / 188 come out of `s`. */
  lemma {:induction false} PacketsFit(s: seq<uint8>)
    ensures |Packets(s)| * PacketSize <= |s|
    decreases |s|
  {
    match NextPacket(s)
    case None =>
    case Some((packet, rest)) =>
      PacketsFit(rest);
  }

  lemma PacketsCons(s: seq<uint8>, packet: seq<uint8>, rest: seq<uint8>)
    requires NextPacket(s) == Some((packet, rest))
    ensures Packets(s) == [packet] + Packets(rest)
  {
  }

  /** The concatenation of a sequence of packets. */
  function Concat(packets: seq<seq<uint8>>): seq<uint8>
  {
    if packets == [] then [] else packets[0] + Concat(packets[1..])
  }

  predicate WellFormedPacket(p: seq<uint8>)
  {
    |p| == PacketSize && p[0] == Sync
  }

  /**
   * Resynchronisation: leading bytes that hold no sync byte, followed by
   * aligned packets, yield exactly those packets.
   */
  lemma {:induction false} ResyncAfterGarbage(garbage: seq<uint8>, packets: seq<seq<uint8>>)
    requires NoSyncBelow(garbage, |garbage|)
    requires forall k | 0 <= k < |packets| :: WellFormedPacket(packets[k])
    ensures Packets(garbage + Concat(packets)) == packets
    decreases |packets|
  {
    var s := garbage + Concat(packets);
    if packets == [] {
      assert s == garbage;
      EndOfStream(s, []);
    } else {
      var tail := Concat(packets[1..]);
      assert s == garbage + (packets[0] + tail);
      assert s[|garbage|..] == packets[0] + tail;
      PacketAtCursor(s, packets[0], tail);
      PacketsCons(s, packets[0], tail);
      assert [] + tail == tail;
      ResyncAfterGarbage([], packets[1..]);
      assert packets == [packets[0]] + packets[1..];
    }
  }

  /** The step of `get_packet` that hands out the packet at the cursor. */
  lemma PacketAtCursor(s: seq<uint8>, packet: seq<uint8>, after: seq<uint8>)
    requires DropsGarbage(s, packet + after)
    requires |packet| == PacketSize && packet[0] == Sync
    ensures NextPacket(s) == Some((packet, after))
  {
    var n := |s| - |packet + after|;
    assert s[n] == Sync;
    FirstSyncAt(s, n);
    assert s[n..] == packet + after;
    assert s[n..n + PacketSize] == packet;
    assert s[n + PacketSize..] == after;
  }

  /** The step of `get_packet` that ends the stream. */
  lemma EndOfStream(s: seq<uint8>, t: seq<uint8>)
    requires DropsGarbage(s, t) && |t| < PacketSize
    ensures NextPacket(s).None?
  {
    var i := FirstSync(s);
    if i < |s| - |t| {
      assert s[i] != Sync;
    }
  }

  /** An array that agrees with `src` on `[off, off + count)` and with `d0` elsewhere. */
  lemma CopiedRange(d: seq<uint8>, d0: seq<uint8>, src: seq<uint8>, off: nat, count: nat)
    requires |d| == |d0| && off + count <= |d0| && count <= |src|
    requires forall j | 0 <= j < |d| :: d[j] == if off <= j < off + count then src[j - off] else d0[j]
    ensures d == d0[..off] + src[..count] + d0[off + count..]
  {
    forall j | 0 <= j < |d|
      ensures d[j] == (d0[..off] + src[..count] + d0[off + count..])[j]
    {
      if j < off {
      } else if j < off + count {
        assert (d0[..off] + src[..count])[j] == src[..count][j - off];
      } else {
        assert (d0[..off] + src[..count] + d0[off + count..])[j] == d0[off + count..][j - off - count];
      }
    }
  }

  /**
   * An input stream that delivers the bytes `rest` and then ends, with
   * end-of-file or, when `failsAtEnd`, with an I/O error.
   */
  class ByteSource {
    var rest: seq<uint8>
    const failsAtEnd: bool
    var eof: bool
    var bad: bool

    ghost predicate Valid()
      reads this
    {
      (eof || bad ==> rest == []) && (eof ==> !failsAtEnd) && (bad ==> failsAtEnd)
    }

    constructor (contents: seq<uint8>, error: bool)
      ensures Valid() && rest == contents && failsAtEnd == error && !eof && !bad
    {
      rest := contents;
      failsAtEnd := error;
      eof, bad := false, false;
    }

    /**
     * `istream::read` followed by `gcount`: copies up to `n` bytes into
     * `dst[off..]`; a read that comes up short raises eof or bad.
     */
    method Read(dst: array<uint8>, off: nat, n: nat) returns (count: nat)
      requires Valid() && off + n <= dst.Length
      modifies this, dst
      ensures Valid()
      ensures count == Min(n, |old(rest)|)
      ensures rest == old(rest)[count..]
      ensures dst[..] == old(dst[..])[..off] + old(rest)[..count] + old(dst[..])[off + count..]
      ensures (eof || bad) <==> (old(eof) || old(bad) || count < n)
    {
      count := Min(n, |rest|);
      var k := 0;
      while k < count
        invariant 0 <= k <= count
        invariant rest == old(rest) && eof == old(eof) && bad == old(bad)
        invariant forall j | 0 <= j < dst.Length ::
          dst[j] == if off <= j < off + k then rest[j - off] else old(dst[j])
      {
        dst[off + k] := rest[k];
        k := k + 1;
      }
      CopiedRange(dst[..], old(dst[..]), rest, off, count);
      rest := rest[count..];
      if count < n {
        if failsAtEnd { bad := true; } else { eof := true; }
      }
    }
  }

  /** A read into the buffer moves bytes from the stream to the buffer, in order. */
  lemma ReadKeepsPending(b0: seq<uint8>, b1: seq<uint8>, readpos: nat, filled: nat, rest: seq<uint8>, count: nat)
    requires readpos <= filled && count <= |rest| && filled + count <= |b0|
    requires b1 == b0[..filled] + rest[..count] + b0[filled + count..]
    ensures b1[readpos..filled + count] + rest[count..] == b0[readpos..filled] + rest
  {
    assert b1[readpos..filled + count] == b0[readpos..filled] + rest[..count];
    assert rest == rest[..count] + rest[count..];
  }

  /** A packet at the read cursor splits the pending bytes into that packet and what follows it. */
  lemma SplitAtPacket(b: seq<uint8>, readpos: nat, filled: nat, rest: seq<uint8>)
    requires readpos + PacketSize <= filled <= |b|
    ensures b[readpos..filled] + rest == b[readpos..readpos + PacketSize] + (b[readpos + PacketSize..filled] + rest)
  {
    assert b[readpos..filled] == b[readpos..readpos + PacketSize] + b[readpos + PacketSize..filled];
  }

  /** The reader of freesat.cpp: a buffer, its fill mark and its read cursor. */
  class Reader {
    const stream: ByteSource
    const buffer: array<uint8>
    var filled: nat
    var readpos: nat

    ghost predicate Valid()
      reads this, stream
    {
      buffer.Length == BufferSize && readpos <= filled <= buffer.Length && stream.Valid()
    }

    /** The bytes not yet consumed: the unread part of the buffer, then the stream. */
    ghost function Pending(): seq<uint8>
      reads this, buffer, stream
      requires Valid()
    {
      buffer[readpos..filled] + stream.rest
    }

    constructor (str: ByteSource)
      requires str.Valid()
      ensures Valid() && stream == str && fresh(buffer)
      ensures Pending() == str.rest && filled == 0 && readpos == 0
    {
      stream := str;
      buffer := new uint8[BufferSize];
      filled, readpos := 0, 0;
    }

    /** Moves the unread bytes to the front of the buffer. */
    method Compact()
      requires Valid()
      modifies this, buffer
      ensures Valid() && readpos == 0 && filled == old(filled - readpos)
      ensures buffer[..filled] == old(buffer[readpos..filled])
      ensures Pending() == old(Pending())
    {
      var n := filled - readpos;
      var k := 0;
      while k < n
        invariant 0 <= k <= n && readpos == old(readpos) && filled == old(filled)
        invariant forall j | 0 <= j < k :: buffer[j] == old(buffer[readpos + j])
        invariant forall j | k <= j < buffer.Length :: buffer[j] == old(buffer[j])
      {
        buffer[k] := buffer[readpos + k];
        k := k + 1;
      }
      filled := filled - readpos;
      readpos := 0;
      assert buffer[readpos..filled] == buffer[..filled];
    }

    /**
     * One round of the refill loop once the stream is known to be good:
     * compaction when the cursor is past half the buffer, then one bulk read
     * into the free tail of the buffer.
     */
    method Refill()
      requires Valid() && !stream.eof && !stream.bad && filled - readpos < PacketSize
      modifies this, buffer, stream
      ensures Valid() && Pending() == old(Pending())
      ensures |stream.rest| + (filled - readpos) == old(|stream.rest| + (filled - readpos))
      ensures |stream.rest| < old(|stream.rest|) || stream.eof || stream.bad
    {
      ghost var p0 := Pending();
      if readpos > buffer.Length / 2 {
        Compact();
      }
      ghost var b0, r0 := buffer[..], stream.rest;
      assert p0 == b0[readpos..filled] + r0;
      var count := stream.Read(buffer, filled, buffer.Length - filled);
      ghost var b1 := buffer[..];
      ReadKeepsPending(b0, b1, readpos, filled, r0, count);
      filled := filled + count;
      assert buffer[readpos..filled] == b1[readpos..filled];
    }

    /**
     * The refill loop of `get_packet`: until a whole packet is buffered,
     * refills; `ok` is false when the stream ended first.
     */
    method EnsureBuffered() returns (ok: bool)
      requires Valid()
      modifies this, buffer, stream
      ensures Valid() && Pending() == old(Pending())
      ensures |stream.rest| + (filled - readpos) == old(|stream.rest| + (filled - readpos))
      ensures ok <==> filled - readpos >= PacketSize
      ensures !ok ==> stream.rest == [] && (stream.eof || stream.bad)
    {
      while filled - readpos < PacketSize
        invariant Valid() && Pending() == old(Pending())
        invariant |stream.rest| + (filled - readpos) == old(|stream.rest| + (filled - readpos))
        decreases |stream.rest|, if stream.eof || stream.bad then 0 else 1
      {
        if stream.bad || stream.eof {
          return false;
        }
        Refill();
      }
      return true;
    }

    /** The resync scan: moves the cursor over bytes other than the sync byte. */
    method SkipToSync()
      requires Valid()
      modifies this
      ensures Valid() && filled == old(filled) && old(readpos) <= readpos
      ensures DropsGarbage(old(Pending()), Pending())
      ensures old(readpos) < old(filled) && buffer[old(readpos)] != Sync ==> old(readpos) < readpos
      ensures readpos == filled || buffer[readpos] == Sync
    {
      while readpos < filled && buffer[readpos] != Sync
        invariant Valid() && filled == old(filled) && old(readpos) <= readpos <= filled
        invariant forall j | old(readpos) <= j < readpos :: buffer[j] != Sync
      {
        readpos := readpos + 1;
      }
      ghost var s, d := old(Pending()), readpos - old(readpos);
      assert Pending() == s[d..];
      forall j | 0 <= j < d ensures s[j] != Sync {
        assert s[j] == buffer[old(readpos) + j];
      }
    }

    /**
     * The outer loop of `get_packet`: refill and skip garbage until a 'G'
     * with a whole packet behind it sits at the cursor, or the stream ends
     * first. Only non-'G' bytes are dropped on the way.
     */
    method SeekSync() returns (ok: bool)
      requires Valid()
      modifies this, buffer, stream
      ensures Valid() && DropsGarbage(old(Pending()), Pending())
      ensures ok ==> filled - readpos >= PacketSize && buffer[readpos] == Sync
      ensures !ok ==> stream.rest == [] && (stream.eof || stream.bad) && filled - readpos < PacketSize
    {
      ghost var p0 := Pending();
      ok := EnsureBuffered();
      while ok && buffer[readpos] != Sync
        invariant Valid() && DropsGarbage(p0, Pending())
        invariant ok <==> filled - readpos >= PacketSize
        invariant !ok ==> stream.rest == [] && (stream.eof || stream.bad)
        decreases |stream.rest| + (filled - readpos)
      {
        ghost var before := Pending();
        SkipToSync();
        DropsGarbageTrans(p0, before, Pending());
        ok := EnsureBuffered();
      }
    }

    /**
     * `get_packet`: the buffer index of the next packet, or None at the end
     * of the stream.
     */
    method GetPacket() returns (p: Option<nat>)
      requires Valid()
      modifies this, buffer, stream
      ensures Valid()
      ensures p.Some? ==>
        p.value + PacketSize == readpos && buffer[p.value] == Sync &&
        NextPacket(old(Pending())) == Some((buffer[p.value..p.value + PacketSize], Pending()))
      ensures p.None? ==>
        NextPacket(old(Pending())).None? &&
        stream.rest == [] && (stream.eof || stream.bad) && |Pending()| < PacketSize &&
        DropsGarbage(old(Pending()), Pending())
    {
      ghost var p0 := Pending();
      var ok := SeekSync();
      if !ok {
        EndOfStream(p0, Pending());
        return None;
      }
      SplitAtPacket(buffer[..], readpos, filled, stream.rest);
      PacketAtCursor(p0, buffer[readpos..readpos + PacketSize], buffer[readpos + PacketSize..filled] + stream.rest);
      p := Some(readpos);
      readpos := readpos + PacketSize;
    }
  }
}
