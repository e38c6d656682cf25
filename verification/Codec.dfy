// Length-delimited packets: LengthDelimitedWriter and LengthDelimitedReader of
// hw-map-reduce-rs/src/codec/mod.rs.
module Codec {
  import opened Common

  type Byte = x: int | 0 <= x < 256
  type Bytes = seq<Byte>

  // BytesMut::put_u32() and Bytes::get_u32(): big-endian.
  function PutU32(n: nat): (b: Bytes)
    requires n < 0x1_0000_0000
    ensures |b| == 4
  {
    [n / 0x100_0000, n / 0x1_0000 % 256, n / 0x100 % 256, n % 256]
  }

  function GetU32(b: Bytes): (n: nat)
    requires |b| >= 4
    ensures n < 0x1_0000_0000
  {
    var high: nat := b[0];
    ((high * 256 + b[1]) * 256 + b[2]) * 256 + b[3]
  }

  function PutU64(n: nat): (b: Bytes)
    requires n < 0x1_0000_0000_0000_0000
    ensures |b| == 8
  {
    PutU32(n / 0x1_0000_0000) + PutU32(n % 0x1_0000_0000)
  }

  function GetU64(b: Bytes): (n: nat)
    requires |b| >= 8
    ensures n < 0x1_0000_0000_0000_0000
  {
    GetU32(b[..4]) * 0x1_0000_0000 + GetU32(b[4..8])
  }

  lemma GetPutU32(n: nat, rest: Bytes)
    requires n < 0x1_0000_0000
    ensures GetU32(PutU32(n) + rest) == n
  {}

  lemma PutGetU32(b: Bytes)
    requires |b| >= 4
    ensures PutU32(GetU32(b)) == b[..4]
  {
    var a: nat, c: nat, d: nat, e: nat := b[0], b[1], b[2], b[3];
    var n := GetU32(b);
    assert n / 256 == (a * 256 + c) * 256 + d && n % 256 == e;
    assert n / 256 / 256 == a * 256 + c && n / 256 % 256 == d;
    assert n / 0x1_0000 == n / 256 / 256;
    assert n / 0x100_0000 == a && n / 0x1_0000 % 256 == c;
  }

  lemma GetPutU64(n: nat)
    requires n < 0x1_0000_0000_0000_0000
    ensures GetU64(PutU64(n)) == n
  {
    hide PutU32, GetU32;
    var hi, lo := n / 0x1_0000_0000, n % 0x1_0000_0000;
    GetPutU32(hi, []);
    GetPutU32(lo, []);
    var b := PutU32(hi) + PutU32(lo);
    assert b[..4] == PutU32(hi) == PutU32(hi) + [] && b[4..8] == PutU32(lo) == PutU32(lo) + [];
  }

  // The number that the bytes write, most significant first.
  function BigEndian(b: Bytes): nat {
    if b == [] then 0 else 256 * BigEndian(b[..|b| - 1]) + b[|b| - 1]
  }

  lemma U32IsBigEndian(n: nat)
    requires n < 0x1_0000_0000
    ensures BigEndian(PutU32(n)) == n
  {
    var b := PutU32(n);
    assert b[..3][..2] == b[..2] && b[..3][..2][..1] == b[..1] && b[..1][..0] == [];
    var first: nat := b[0];
    assert BigEndian(b[..1]) == first;
    assert BigEndian(b[..2]) == 256 * first + b[1];
    assert BigEndian(b[..3]) == 256 * (256 * first + b[1]) + b[2];
    GetPutU32(n, []);
    assert b + [] == b;
  }

  lemma {:induction false} BigEndianConcat(a: Bytes, b: Bytes)
    requires |b| == 4
    ensures BigEndian(a + b) == 0x1_0000_0000 * BigEndian(a) + BigEndian(b)
  {
    var c := a + b;
    assert c[..|c| - 1] == a + b[..3] && c[..|c| - 1][..|a| + 2] == a + b[..2] && (a + b[..2])[..|a| + 1] == a + b[..1];
    assert (a + b[..1])[..|a|] == a && b[..3][..2] == b[..2] && b[..2][..1] == b[..1] && b[..1][..0] == [];
    assert BigEndian(a + b[..1]) == 256 * BigEndian(a) + b[0] && BigEndian(b[..1]) == b[0];
    assert BigEndian(a + b[..2]) == 256 * BigEndian(a + b[..1]) + b[1] && BigEndian(b[..2]) == 256 * BigEndian(b[..1]) + b[1];
    assert BigEndian(a + b[..3]) == 256 * BigEndian(a + b[..2]) + b[2] && BigEndian(b[..3]) == 256 * BigEndian(b[..2]) + b[2];
  }

  lemma U64IsBigEndian(n: nat)
    requires n < 0x1_0000_0000_0000_0000
    ensures BigEndian(PutU64(n)) == n
  {
    hide PutU32, BigEndian;
    U32IsBigEndian(n / 0x1_0000_0000);
    U32IsBigEndian(n % 0x1_0000_0000);
    BigEndianConcat(PutU32(n / 0x1_0000_0000), PutU32(n % 0x1_0000_0000));
  }

  // ---- Packets ----

  predicate Sendable(packet: Bytes) { |packet| <= 0xffff_ffff }

  ghost predicate AllSendable(packets: seq<Bytes>) {
    forall i | 0 <= i < |packets| :: Sendable(packets[i])
  }

  // The buffer that sending the packets in order builds.
  function Encode(packets: seq<Bytes>): Bytes
    requires AllSendable(packets)
  {
    if packets == [] then []
    else
      var n := |packets| - 1;
      Encode(packets[..n]) + PutU32(|packets[n]|) + packets[n]
  }

  // LengthDelimitedWriter::send(): the buffer with one more packet.
  function Appended(buf: Bytes, packet: Bytes): Bytes
    requires Sendable(packet)
  {
    buf + PutU32(|packet|) + packet
  }

  lemma EncodeAppended(packets: seq<Bytes>, packet: Bytes)
    requires AllSendable(packets) && Sendable(packet)
    ensures AllSendable(packets + [packet]) && Encode(packets + [packet]) == Appended(Encode(packets), packet)
  {
    assert (packets + [packet])[..|packets|] == packets;
  }

  // One step of the reader: at the end, a packet and what follows it, or a buffer on which it panics.
  datatype Read = End | Packet(packet: Bytes, rest: Bytes) | Malformed

  function ReadOne(buf: Bytes): (r: Read)
    ensures r.Packet? ==> |r.rest| + 4 + |r.packet| == |buf|
    ensures r.End? <==> buf == []
  {
    if |buf| == 0 then End
    else if |buf| < 4 then Malformed
    else
      var len := GetU32(buf);
      if |buf| - 4 < len then Malformed else Packet(buf[4..4 + len], buf[4 + len..])
  }

  // All packets of a buffer, or None if the reader panics on the way.
  function Decode(buf: Bytes): Option<seq<Bytes>>
    decreases |buf|
  {
    match ReadOne(buf)
    case End => Some([])
    case Malformed => None
    case Packet(p, rest) =>
      var more := Decode(rest);
      if more.None? then None else Some([p] + more.value)
  }

  lemma DecodeTurn(buf: Bytes)
    ensures var one := ReadOne(buf);
            Decode(buf) == if one.End? then Some([])
                           else if one.Malformed? || Decode(one.rest).None? then None
                           else Some([one.packet] + Decode(one.rest).value)
  {
    hide ReadOne;
  }

  lemma {:induction false} EncodeFirst(packets: seq<Bytes>)
    requires AllSendable(packets) && packets != []
    ensures Encode(packets) == PutU32(|packets[0]|) + packets[0] + Encode(packets[1..])
  {
    hide PutU32, Encode;
    var n := |packets| - 1;
    var rest := packets[1..];
    EncodeLast(packets);
    if n > 0 {
      EncodeFirst(packets[..n]);
      assert packets[..n][1..] == rest[..n - 1] && rest[n - 1] == packets[n];
      EncodeLast(rest);
      Regroup(PutU32(|packets[0]|), packets[0], Encode(rest[..n - 1]), PutU32(|packets[n]|), packets[n]);
    } else {
      EncodeNone();
      assert packets[..0] == [] && rest == [];
    }
  }

  lemma EncodeLast(packets: seq<Bytes>)
    requires AllSendable(packets) && packets != []
    ensures var n := |packets| - 1; Encode(packets) == Encode(packets[..n]) + PutU32(|packets[n]|) + packets[n]
  {}

  lemma Regroup(a: Bytes, b: Bytes, c: Bytes, d: Bytes, e: Bytes)
    ensures a + b + c + d + e == a + b + (c + d + e)
  {}

  lemma ReadFirst(packet: Bytes, rest: Bytes)
    requires Sendable(packet)
    ensures ReadOne(PutU32(|packet|) + packet + rest) == Packet(packet, rest)
  {
    var buf := PutU32(|packet|) + packet + rest;
    GetPutU32(|packet|, packet + rest);
    hide PutU32, GetU32;
    assert buf == PutU32(|packet|) + (packet + rest);
    assert buf[4..4 + |packet|] == packet && buf[4 + |packet|..] == rest;
  }

  // The reader gives back the packets the writer was sent.
  lemma {:induction false} DecodeEncode(packets: seq<Bytes>)
    requires AllSendable(packets)
    ensures Decode(Encode(packets)) == Some(packets)
  {
    hide PutU32, GetU32, ReadOne, Encode;
    if packets != [] {
      EncodeFirst(packets);
      ReadFirst(packets[0], Encode(packets[1..]));
      DecodeEncode(packets[1..]);
      assert packets == [packets[0]] + packets[1..];
    } else {
      EncodeNone();
    }
  }

  lemma EncodeNone()
    ensures Encode([]) == [] && ReadOne([]) == End
  {}

  // A buffer the reader gets through is one that a writer made: the codec is one-to-one.
  lemma {:induction false} EncodeDecode(buf: Bytes)
    requires Decode(buf).Some?
    ensures AllSendable(Decode(buf).value) && Encode(Decode(buf).value) == buf
    decreases |buf|
  {
    hide PutU32, GetU32, Encode;
    match ReadOne(buf)
    case End =>
      EncodeNone();
      assert Decode(buf).value == [];
    case Packet(p, rest) =>
      EncodeDecode(rest);
      var all := Decode(buf).value;
      assert all == [p] + Decode(rest).value && all[1..] == Decode(rest).value;
      EncodeFirst(all);
      PutGetU32(buf);
      assert buf == buf[..4] + buf[4..4 + |p|] + buf[4 + |p|..];
  }

  // ---- The writer and the reader ----

  class LengthDelimitedWriter {
    var buf: Bytes
    ghost var sent: seq<Bytes>

    ghost predicate Valid()
      reads this
    {
      AllSendable(sent) && buf == Encode(sent)
    }

    constructor ()
      ensures Valid() && sent == []
    {
      buf, sent := [], [];
    }

    // Panics on packets longer than u32::MAX, before anything is written.
    method Send(b: Bytes) returns (panicked: bool)
      requires Valid()
      modifies this
      ensures Valid() && (panicked <==> |b| > 0xffff_ffff)
      ensures sent == if panicked then old(sent) else old(sent) + [b]
    {
      hide Encode, Appended;
      panicked := |b| > 0xffff_ffff;
      if !panicked {
        EncodeAppended(sent, b);
        buf := Appended(buf, b);
        sent := sent + [b];
      }
    }

    // The packets a reader of the finished buffer will yield are those that were sent.
    method Finish() returns (r: Bytes)
      requires Valid()
      ensures r == buf && Decode(r) == Some(sent)
    {
      DecodeEncode(sent);
      r := buf;
    }
  }

  class LengthDelimitedReader {
    var buf: Bytes

    constructor (b: Bytes)
      ensures buf == b
    {
      buf := b;
    }

    // next(); Malformed where get_u32() or split_to() panics.
    method Next() returns (r: Read)
      modifies this
      ensures r == ReadOne(old(buf))
      ensures r.Packet? ==> buf == r.rest
      ensures !r.Packet? ==> buf == old(buf)
      ensures Decode(old(buf)).Some? ==>
                !r.Malformed? && Decode(buf).Some?
                && Decode(old(buf)).value == (if r.Packet? then [r.packet] else []) + Decode(buf).value
    {
      hide GetU32;
      if |buf| == 0 {
        return End;
      }
      if |buf| < 4 {
        return Malformed;
      }
      var len := GetU32(buf);
      if |buf| - 4 < len {
        return Malformed;
      }
      r := Packet(buf[4..4 + len], buf[4 + len..]);
      buf := r.rest;
    }
  }
}
