/** The FSR wire format (serializeFsrPacket / deserializeFsrPacket).

    Layout, big-endian, no padding:
      type(1) | source(4) | seqNo(4) | hop(1) | entryCount(2)
    followed by entryCount entries, each
      node(4) | neighborCount(2) | neighborCount x address(4).

    Entry sequence numbers live in memory but are not on the wire: the
    decoder stamps every entry with the packet-level sequence number. */
module Codec {
  import opened Numeric
  import opened Wrappers

  /** An IPv4 address, held as its 32-bit integer value. */
  type Addr = U32

  datatype LspEntry = LspEntry(node: Addr, seqNo: U32, neighbors: seq<Addr>)

  /** The in-memory FSR packet. `ptype` and `hop` are wider than a byte in
      memory; the encoder truncates them with a `uint8_t` cast. The arrival
      timestamp is not modelled. */
  datatype Packet = Packet(ptype: nat, src: Addr, seqNo: U32, hop: nat, entries: seq<LspEntry>)

  /** The four places where the decoder gives up and returns a null packet. */
  datatype DecodeError = TooShort | NoEntryCount | TruncatedEntry | TruncatedNeighbor

  /** Fixed part of a packet on the wire, including the entry count. */
  const HeaderSize: nat := 12
  /** Fixed part of one entry on the wire: address and neighbour count. */
  const EntryHeaderSize: nat := 6

  // ---------------------------------------------------------------------
  // Big-endian integers

  /** The two bytes `(x >> 8) & 0xFF`, `x & 0xFF`. */
  function Be16(x: U16): seq<Byte>
  {
    [x / 0x100, x % 0x100]
  }

  /** The four bytes `(x >> 24) & 0xFF`, ..., `x & 0xFF`. */
  function Be32(x: U32): seq<Byte>
  {
    [x / 0x100_0000, (x / 0x1_0000) % 0x100, (x / 0x100) % 0x100, x % 0x100]
  }

  /** The OR of the shifted bytes `s[i] << 8 | s[i+1]`. */
  function ReadU16(s: seq<Byte>, i: nat): U16
    requires i + 2 <= |s|
  {
    (s[i] as int) * 0x100 + s[i + 1] as int
  }

  /** The OR of the shifted bytes `s[i] << 24 | ... | s[i+3]`. */
  function ReadU32(s: seq<Byte>, i: nat): U32
    requires i + 4 <= |s|
  {
    (s[i] as int) * 0x100_0000 + (s[i + 1] as int) * 0x1_0000
      + (s[i + 2] as int) * 0x100 + s[i + 3] as int
  }

  lemma Be16Inverse(x: U16, rest: seq<Byte>)
    ensures ReadU16(Be16(x) + rest, 0) == x
  {
  }

  lemma Be32Inverse(x: U32, rest: seq<Byte>)
    ensures ReadU32(Be32(x) + rest, 0) == x
  {
    var s := Be32(x) + rest;
    var q1, q2, q3 := x / 0x100, x / 0x1_0000, x / 0x100_0000;
    assert x == q1 * 0x100 + x % 0x100;
    assert q1 == q2 * 0x100 + q1 % 0x100;
    assert q2 == q3 * 0x100 + q2 % 0x100;
    assert s[0] as int == q3 && s[1] as int == q2 % 0x100;
    assert s[2] as int == q1 % 0x100 && s[3] as int == x % 0x100;
  }

  lemma ReadU16Inverse(s: seq<Byte>)
    requires 2 <= |s|
    ensures Be16(ReadU16(s, 0)) == s[..2]
  {
  }

  lemma ReadU32Inverse(s: seq<Byte>)
    requires 4 <= |s|
    ensures Be32(ReadU32(s, 0)) == s[..4]
  {
    var a, b, c, d: int := s[0], s[1], s[2], s[3];
    var x := a * 0x100_0000 + b * 0x1_0000 + c * 0x100 + d;
    assert x == ReadU32(s, 0);
    assert x / 0x100 == a * 0x1_0000 + b * 0x100 + c && x % 0x100 == d;
    assert x / 0x1_0000 == a * 0x100 + b;
    assert (x / 0x1_0000) % 0x100 == b;
    assert (x / 0x100) % 0x100 == c;
    assert x / 0x100_0000 == a;
  }

  // ---------------------------------------------------------------------
  // Encoder

  /** The neighbour addresses of one entry, in order. */
  function EncodeAddrs(xs: seq<Addr>): (r: seq<Byte>)
    ensures |r| == 4 * |xs|
  {
    if xs == [] then [] else Be32(xs[0]) + EncodeAddrs(xs[1..])
  }

  /** One entry; the neighbour count is cast to `uint16_t` and exactly that
      many neighbours are written. */
  function EncodeEntry(e: LspEntry): seq<Byte>
  {
    var n := |e.neighbors| % 0x1_0000;
    Be32(e.node) + Be16(n) + EncodeAddrs(e.neighbors[..n])
  }

  function EncodeEntries(es: seq<LspEntry>): seq<Byte>
  {
    if es == [] then [] else EncodeEntry(es[0]) + EncodeEntries(es[1..])
  }

  /** serializeFsrPacket: type and hop are cast to `uint8_t`, the entry count
      to `uint16_t`, and exactly that many entries are written. */
  function Encode(p: Packet): seq<Byte>
  {
    EncodeHeader(p) + EncodeEntries(p.entries[..|p.entries| % 0x1_0000])
  }

  /** The 12 fixed bytes: type, source, sequence number, hop, entry count. */
  function EncodeHeader(p: Packet): (r: seq<Byte>)
    ensures |r| == HeaderSize
  {
    [p.ptype % 0x100] + Be32(p.src) + Be32(p.seqNo) + [p.hop % 0x100]
      + Be16(|p.entries| % 0x1_0000)
  }

  // ---------------------------------------------------------------------
  // Decoder. It walks the remaining bytes rather than an offset:
  // deserializeFsrPacket's check `offset + k > bytes.size()` is
  // `|rest| < k` here.

  /** Reads `n` neighbour addresses, each after a 4-byte bounds check;
      returns them and the bytes after them. */
  function DecodeAddrs(s: seq<Byte>, n: nat): (r: Result<(seq<Addr>, seq<Byte>), DecodeError>)
    ensures r.Success? ==> |r.value.0| == n
  {
    if n == 0 then Success(([], s))
    else if |s| < 4 then Failure(TruncatedNeighbor)
    else
      match DecodeAddrs(s[4..], n - 1)
      case Failure(e) => Failure(e)
      case Success(res) => Success(([ReadU32(s, 0)] + res.0, res.1))
  }

  /** Reads `n` entries, each after a 6-byte bounds check on its fixed part;
      every entry gets the packet-level sequence number `seqNo`. */
  function DecodeEntries(s: seq<Byte>, n: nat, seqNo: U32): (r: Result<(seq<LspEntry>, seq<Byte>), DecodeError>)
    ensures r.Success? ==> |r.value.0| == n
    decreases n
  {
    if n == 0 then Success(([], s))
    else if |s| < EntryHeaderSize then Failure(TruncatedEntry)
    else
      var node := ReadU32(s, 0);
      var count := ReadU16(s, 4);
      match DecodeAddrs(s[EntryHeaderSize..], count)
      case Failure(e) => Failure(e)
      case Success(nb) =>
        match DecodeEntries(nb.1, n - 1, seqNo)
        case Failure(e) => Failure(e)
        case Success(rest) => Success(([LspEntry(node, seqNo, nb.0)] + rest.0, rest.1))
  }

  /** deserializeFsrPacket. Fewer than 11 bytes is rejected up front; the
      entry count is read only after its own bounds check, which every
      11-byte buffer fails. Bytes after the last entry are ignored. */
  function Decode(s: seq<Byte>): (r: Result<Packet, DecodeError>)
    ensures |s| <= 11 ==> r.Failure?
    ensures r.Success? ==> r.value.ptype < 0x100 && r.value.hop < 0x100
    ensures r.Success? ==> r.value.ptype == s[0] && r.value.hop == s[9]
    ensures r.Success? ==> r.value.src == ReadU32(s, 1) && r.value.seqNo == ReadU32(s, 5)
  {
    if |s| < 11 then Failure(TooShort)
    else
      var ptype := s[0];
      var src := ReadU32(s, 1);
      var seqNo := ReadU32(s, 5);
      var hop := s[9];
      if 10 + 2 > |s| then Failure(NoEntryCount)
      else
        var count := ReadU16(s, 10);
        match DecodeEntries(s[HeaderSize..], count, seqNo)
        case Failure(e) => Failure(e)
        case Success(es) => Success(Packet(ptype, src, seqNo, hop, es.0))
  }

  // ---------------------------------------------------------------------
  // Well-formedness and the round trip

  /** Every field fits its wire width, so nothing is truncated on encode. */
  predicate WellFormed(p: Packet)
  {
    && p.ptype < 0x100
    && p.hop < 0x100
    && |p.entries| < 0x1_0000
    && forall i :: 0 <= i < |p.entries| ==> |p.entries[i].neighbors| < 0x1_0000
  }

  /** The entries as the decoder rebuilds them: same addresses, every
      sequence number replaced by the packet-level one. */
  function Stamp(es: seq<LspEntry>, seqNo: U32): (r: seq<LspEntry>)
    ensures |r| == |es|
    ensures forall i :: 0 <= i < |es| ==>
      r[i].node == es[i].node && r[i].neighbors == es[i].neighbors && r[i].seqNo == seqNo
  {
    if es == [] then [] else [es[0].(seqNo := seqNo)] + Stamp(es[1..], seqNo)
  }

  /** The packet as it reads after a trip over the wire. */
  function Stamped(p: Packet): Packet
  {
    p.(entries := Stamp(p.entries, p.seqNo))
  }

  /** Wire size of a list of entries: 6 bytes plus 4 per neighbour each. */
  function EntriesWireSize(es: seq<LspEntry>): nat
  {
    if es == [] then 0 else EntryHeaderSize + 4 * |es[0].neighbors| + EntriesWireSize(es[1..])
  }

  lemma {:induction false} DecodeAddrsEncode(xs: seq<Addr>, rest: seq<Byte>)
    ensures DecodeAddrs(EncodeAddrs(xs) + rest, |xs|) == Success((xs, rest))
  {
    if xs != [] {
      var s := EncodeAddrs(xs) + rest;
      assert s == Be32(xs[0]) + (EncodeAddrs(xs[1..]) + rest);
      assert s[4..] == EncodeAddrs(xs[1..]) + rest;
      DecodeAddrsEncode(xs[1..], rest);
      Be32Inverse(xs[0], EncodeAddrs(xs[1..]) + rest);
      assert |s| >= 4;
      assert DecodeAddrs(s[4..], |xs| - 1) == Success((xs[1..], rest));
      assert [xs[0]] + xs[1..] == xs;
    } else {
      assert EncodeAddrs(xs) + rest == rest;
    }
  }

  /** The fixed part of an encoded entry reads back as the entry's address
      and neighbour count, and the neighbour addresses follow it. */
  lemma EntryFields(e: LspEntry, tail: seq<Byte>)
    requires |e.neighbors| < 0x1_0000
    ensures var s := EncodeEntry(e) + tail;
      && |s| >= EntryHeaderSize
      && ReadU32(s, 0) == e.node
      && ReadU16(s, 4) == |e.neighbors|
      && s[EntryHeaderSize..] == EncodeAddrs(e.neighbors) + tail
  {
    var n := |e.neighbors|;
    assert e.neighbors[..n] == e.neighbors;
    var after := EncodeAddrs(e.neighbors) + tail;
    var s := EncodeEntry(e) + tail;
    assert s == Be32(e.node) + (Be16(n) + after);
    Be32Inverse(e.node, Be16(n) + after);
    var s4 := s[4..];
    assert s4 == Be16(n) + after;
    Be16Inverse(n, after);
    assert ReadU16(s, 4) == ReadU16(s4, 0);
  }

  /** The fixed header of an encoded packet reads back field by field, and
      the encoded entries follow it. */
  lemma HeaderFields(p: Packet, rest: seq<Byte>)
    requires WellFormed(p)
    ensures var s := Encode(p) + rest;
      && |s| >= HeaderSize
      && s[0] == p.ptype && s[9] == p.hop
      && ReadU32(s, 1) == p.src && ReadU32(s, 5) == p.seqNo
      && ReadU16(s, 10) == |p.entries|
      && s[HeaderSize..] == EncodeEntries(p.entries) + rest
  {
    var n := |p.entries|;
    assert p.entries[..n] == p.entries;
    var h := EncodeHeader(p);
    var s := Encode(p) + rest;
    assert s == h + (EncodeEntries(p.entries) + rest);
    HeaderOnly(p);
    assert ReadU16(s, 10) == ReadU16(h, 10);
    assert ReadU32(s, 5) == ReadU32(h, 5);
    assert ReadU32(s, 1) == ReadU32(h, 1);
  }

  lemma HeaderOnly(p: Packet)
    requires WellFormed(p)
    ensures var h := EncodeHeader(p);
      && h[0] == p.ptype && h[9] == p.hop
      && ReadU32(h, 1) == p.src && ReadU32(h, 5) == p.seqNo
      && ReadU16(h, 10) == |p.entries|
  {
    var h := EncodeHeader(p);
    var t := [p.ptype % 0x100];
    var hb := [p.hop % 0x100];
    var c := Be16(|p.entries| % 0x1_0000);
    assert h == t + Be32(p.src) + (Be32(p.seqNo) + hb + c);
    ReadU32At(t, p.src, Be32(p.seqNo) + hb + c);
    assert h == (t + Be32(p.src)) + Be32(p.seqNo) + (hb + c);
    ReadU32At(t + Be32(p.src), p.seqNo, hb + c);
    assert h == (t + Be32(p.src) + Be32(p.seqNo) + hb) + c + [];
    ReadU16At(t + Be32(p.src) + Be32(p.seqNo) + hb, |p.entries|, []);
  }

  /** A big-endian 32-bit field reads back wherever it sits. */
  lemma ReadU32At(pre: seq<Byte>, x: U32, post: seq<Byte>)
    ensures ReadU32(pre + Be32(x) + post, |pre|) == x
  {
    var s := pre + Be32(x) + post;
    var b := Be32(x);
    assert s[|pre|] == b[0] && s[|pre| + 1] == b[1] && s[|pre| + 2] == b[2] && s[|pre| + 3] == b[3];
    Be32Inverse(x, []);
    assert b + [] == b;
  }

  /** A big-endian 16-bit field reads back wherever it sits. */
  lemma ReadU16At(pre: seq<Byte>, x: U16, post: seq<Byte>)
    ensures ReadU16(pre + Be16(x) + post, |pre|) == x
  {
    var s := pre + Be16(x) + post;
    var b := Be16(x);
    assert s[|pre|] == b[0] && s[|pre| + 1] == b[1];
    Be16Inverse(x, []);
    assert b + [] == b;
  }

  lemma {:induction false} DecodeEntriesEncode(es: seq<LspEntry>, seqNo: U32, rest: seq<Byte>)
    requires forall i :: 0 <= i < |es| ==> |es[i].neighbors| < 0x1_0000
    ensures DecodeEntries(EncodeEntries(es) + rest, |es|, seqNo) == Success((Stamp(es, seqNo), rest))
  {
    if es != [] {
      var e := es[0];
      var tail := EncodeEntries(es[1..]) + rest;
      var s := EncodeEntries(es) + rest;
      assert s == EncodeEntry(e) + tail;
      EntryFields(e, tail);
      DecodeAddrsEncode(e.neighbors, tail);
      DecodeEntriesEncode(es[1..], seqNo, rest);
      assert DecodeAddrs(s[EntryHeaderSize..], ReadU16(s, 4)) == Success((e.neighbors, tail));
      assert DecodeEntries(s, |es|, seqNo)
        == Success(([LspEntry(e.node, seqNo, e.neighbors)] + Stamp(es[1..], seqNo), rest));
      assert Stamp(es, seqNo) == [LspEntry(e.node, seqNo, e.neighbors)] + Stamp(es[1..], seqNo);
    } else {
      assert EncodeEntries(es) + rest == rest;
    }
  }

  /** Decoding an encoding, followed by any trailing bytes, restores every
      field; entry sequence numbers become the packet's. */
  lemma RoundTrip(p: Packet, rest: seq<Byte>)
    requires WellFormed(p)
    ensures Decode(Encode(p) + rest) == Success(Stamped(p))
  {
    HeaderFields(p, rest);
    DecodeEntriesEncode(p.entries, p.seqNo, rest);
  }

  /** A packet whose entries already carry its own sequence number (every
      packet this node generates) survives the wire unchanged. */
  lemma RoundTripExact(p: Packet)
    requires WellFormed(p)
    requires forall i :: 0 <= i < |p.entries| ==> p.entries[i].seqNo == p.seqNo
    ensures Decode(Encode(p)) == Success(p)
  {
    RoundTrip(p, []);
    assert Encode(p) + [] == Encode(p);
    assert Stamp(p.entries, p.seqNo) == p.entries;
  }

  lemma {:induction false} EncodeEntriesLength(es: seq<LspEntry>)
    requires forall i :: 0 <= i < |es| ==> |es[i].neighbors| < 0x1_0000
    ensures |EncodeEntries(es)| == EntriesWireSize(es)
  {
    if es != [] {
      assert es[0].neighbors[..|es[0].neighbors|] == es[0].neighbors;
      EncodeEntriesLength(es[1..]);
    }
  }

  /** The encoded length is 12 + sum over entries of (6 + 4 * neighbours). */
  lemma EncodedLength(p: Packet)
    requires WellFormed(p)
    ensures |Encode(p)| == HeaderSize + EntriesWireSize(p.entries)
  {
    assert p.entries[..|p.entries|] == p.entries;
    EncodeEntriesLength(p.entries);
  }

  // ---------------------------------------------------------------------
  // Robustness

  /** Reading `n` addresses fails exactly when fewer than `4 * n` bytes
      remain, and otherwise leaves the bytes after them. */
  lemma {:induction false} DecodeAddrsBounds(s: seq<Byte>, n: nat)
    ensures DecodeAddrs(s, n).Failure? <==> |s| < 4 * n
    ensures DecodeAddrs(s, n).Success? ==> DecodeAddrs(s, n).value.1 == s[4 * n..]
  {
    if n > 0 && |s| >= 4 {
      DecodeAddrsBounds(s[4..], n - 1);
      if |s| >= 4 * n {
        assert s[4..][4 * (n - 1)..] == s[4 * n..];
      }
    }
  }

  lemma {:induction false} DecodeEntriesPrefix(es: seq<LspEntry>, seqNo: U32, s: seq<Byte>)
    requires forall i :: 0 <= i < |es| ==> |es[i].neighbors| < 0x1_0000
    requires |s| < |EncodeEntries(es)| && s == EncodeEntries(es)[..|s|]
    ensures DecodeEntries(s, |es|, seqNo).Failure?
  {
    var e := es[0];
    var n := |e.neighbors|;
    var encTail := EncodeEntries(es[1..]);
    var enc := EncodeEntries(es);
    assert enc == EncodeEntry(e) + encTail;
    EntryFields(e, encTail);
    if |s| >= EntryHeaderSize {
      assert ReadU16(s, 4) == ReadU16(enc, 4);
      var addrs := EncodeAddrs(e.neighbors);
      var body := s[EntryHeaderSize..];
      assert body == (addrs + encTail)[..|body|];
      DecodeAddrsBounds(body, n);
      if |body| >= 4 * n {
        var tail := body[4 * n..];
        assert body == addrs + tail;
        assert tail == encTail[..|tail|];
        DecodeAddrsEncode(e.neighbors, tail);
        DecodeEntriesPrefix(es[1..], seqNo, tail);
      }
    }
  }

  /** Every strict prefix of a valid encoding is rejected. */
  lemma PrefixRejected(p: Packet, s: seq<Byte>)
    requires WellFormed(p)
    requires |s| < |Encode(p)| && s == Encode(p)[..|s|]
    ensures Decode(s).Failure?
  {
    if |s| >= HeaderSize {
      var enc := Encode(p);
      HeaderFields(p, []);
      assert enc + [] == enc;
      assert ReadU16(s, 10) == ReadU16(enc, 10);
      var body := s[HeaderSize..];
      var encEntries := EncodeEntries(p.entries);
      assert body == encEntries[..|body|];
      DecodeEntriesPrefix(p.entries, p.seqNo, body);
    }
  }

  lemma {:induction false} DecodeAddrsConsumes(s: seq<Byte>, n: nat)
    requires DecodeAddrs(s, n).Success?
    ensures s == EncodeAddrs(DecodeAddrs(s, n).value.0) + DecodeAddrs(s, n).value.1
  {
    if n > 0 {
      DecodeAddrsConsumes(s[4..], n - 1);
      ReadU32Inverse(s);
      var xs := DecodeAddrs(s, n).value.0;
      assert xs[1..] == DecodeAddrs(s[4..], n - 1).value.0;
      assert s == s[..4] + s[4..];
    }
  }

  /** The fixed part of an entry re-encodes to the bytes it was read from. */
  lemma EntryFixedInverse(s: seq<Byte>)
    requires EntryHeaderSize <= |s|
    ensures Be32(ReadU32(s, 0)) + Be16(ReadU16(s, 4)) == s[..EntryHeaderSize]
  {
    ReadU32Inverse(s);
    var s4 := s[4..];
    ReadU16Inverse(s4);
    assert ReadU16(s4, 0) == ReadU16(s, 4);
  }

  /** The fixed header re-encodes to the bytes it was read from. */
  lemma HeaderInverse(s: seq<Byte>)
    requires HeaderSize <= |s|
    ensures [s[0]] + Be32(ReadU32(s, 1)) + Be32(ReadU32(s, 5)) + [s[9]] + Be16(ReadU16(s, 10))
      == s[..HeaderSize]
  {
    var s1, s5, s10 := s[1..], s[5..], s[10..];
    ReadU32Inverse(s1);
    ReadU32Inverse(s5);
    ReadU16Inverse(s10);
    assert ReadU32(s1, 0) == ReadU32(s, 1);
    assert ReadU32(s5, 0) == ReadU32(s, 5);
    assert ReadU16(s10, 0) == ReadU16(s, 10);
  }

  lemma DecodeEntriesStep(s: seq<Byte>, n: nat, seqNo: U32)
    requires n > 0 && DecodeEntries(s, n, seqNo).Success?
    ensures |s| >= EntryHeaderSize
    ensures DecodeAddrs(s[EntryHeaderSize..], ReadU16(s, 4)).Success?
    ensures var nb := DecodeAddrs(s[EntryHeaderSize..], ReadU16(s, 4)).value;
      && DecodeEntries(nb.1, n - 1, seqNo).Success?
      && var later := DecodeEntries(nb.1, n - 1, seqNo).value;
      DecodeEntries(s, n, seqNo).value == ([LspEntry(ReadU32(s, 0), seqNo, nb.0)] + later.0, later.1)
  {
  }

  lemma {:induction false} DecodeEntriesConsumes(s: seq<Byte>, n: nat, seqNo: U32)
    requires DecodeEntries(s, n, seqNo).Success?
    ensures var r := DecodeEntries(s, n, seqNo).value;
      s == EncodeEntries(r.0) + r.1
    decreases n
  {
    if n > 0 {
      DecodeEntriesStep(s, n, seqNo);
      var count := ReadU16(s, 4);
      var nb := DecodeAddrs(s[EntryHeaderSize..], count).value;
      var later := DecodeEntries(nb.1, n - 1, seqNo).value;
      DecodeAddrsConsumes(s[EntryHeaderSize..], count);
      DecodeEntriesConsumes(nb.1, n - 1, seqNo);
      var e := LspEntry(ReadU32(s, 0), seqNo, nb.0);
      ConsumeStep(s, e, nb.1, later.0, later.1);
    } else {
      assert DecodeEntries(s, n, seqNo).value == ([], s);
    }
  }

  /** Decoded entries carry the packet-level sequence number and at most
      65535 neighbours each. */
  lemma {:induction false} DecodeEntriesShape(s: seq<Byte>, n: nat, seqNo: U32)
    requires DecodeEntries(s, n, seqNo).Success?
    ensures var es := DecodeEntries(s, n, seqNo).value.0;
      forall i :: 0 <= i < |es| ==> es[i].seqNo == seqNo && |es[i].neighbors| < 0x1_0000
    decreases n
  {
    if n > 0 {
      DecodeEntriesStep(s, n, seqNo);
      var count := ReadU16(s, 4);
      var nb := DecodeAddrs(s[EntryHeaderSize..], count).value;
      var later := DecodeEntries(nb.1, n - 1, seqNo).value;
      DecodeEntriesShape(nb.1, n - 1, seqNo);
      var es := DecodeEntries(s, n, seqNo).value.0;
      assert es == [LspEntry(ReadU32(s, 0), seqNo, nb.0)] + later.0;
      forall i | 0 <= i < |es|
        ensures es[i].seqNo == seqNo && |es[i].neighbors| < 0x1_0000
      {
        if i > 0 {
          assert es[i] == later.0[i - 1];
        }
      }
    }
  }

  lemma ConsumeStep(s: seq<Byte>, e: LspEntry, nbRest: seq<Byte>, laterEs: seq<LspEntry>, laterRest: seq<Byte>)
    requires |s| >= EntryHeaderSize
    requires e.node == ReadU32(s, 0) && |e.neighbors| == ReadU16(s, 4)
    requires s[EntryHeaderSize..] == EncodeAddrs(e.neighbors) + nbRest
    requires nbRest == EncodeEntries(laterEs) + laterRest
    ensures s == EncodeEntries([e] + laterEs) + laterRest
  {
    EntryBytes(s, e, nbRest);
    assert ([e] + laterEs)[1..] == laterEs;
  }

  /** Bytes whose fixed part reads as `e` and whose remainder starts with
      `e`'s neighbour addresses are `e`'s encoding. */
  lemma EntryBytes(s: seq<Byte>, e: LspEntry, t: seq<Byte>)
    requires |s| >= EntryHeaderSize
    requires e.node == ReadU32(s, 0) && |e.neighbors| == ReadU16(s, 4)
    requires s[EntryHeaderSize..] == EncodeAddrs(e.neighbors) + t
    ensures s == EncodeEntry(e) + t
  {
    EntryFixedInverse(s);
    var n := |e.neighbors|;
    assert e.neighbors[..n] == e.neighbors;
    assert s == s[..EntryHeaderSize] + s[EntryHeaderSize..];
  }

  /** A successful decode read exactly a well-formed encoding: the decoded
      packet re-encodes to a prefix of the input, so anything after that
      prefix was ignored. */
  lemma DecodeConsumes(s: seq<Byte>)
    requires Decode(s).Success?
    ensures var p := Decode(s).value;
      WellFormed(p) && Stamped(p) == p && Encode(p) <= s
  {
    var p := Decode(s).value;
    var count := ReadU16(s, 10);
    var r := DecodeEntries(s[HeaderSize..], count, p.seqNo).value;
    assert p.entries == r.0;
    DecodeEntriesConsumes(s[HeaderSize..], count, p.seqNo);
    DecodeEntriesShape(s[HeaderSize..], count, p.seqNo);
    assert WellFormed(p);
    assert Stamp(p.entries, p.seqNo) == p.entries;
    assert |s| >= HeaderSize;
    assert p.ptype == s[0] && p.hop == s[9];
    assert p.src == ReadU32(s, 1);
    assert p.seqNo == ReadU32(s, 5);
    assert |p.entries| == count;
    HeaderBytes(s, p);
    PacketBytes(s, p, r.1);
  }

  /** A header that encodes `p`'s followed by `p`'s encoded entries is `p`'s
      encoding. */
  lemma PacketBytes(s: seq<Byte>, p: Packet, t: seq<Byte>)
    requires |s| >= HeaderSize && |p.entries| < 0x1_0000
    requires EncodeHeader(p) == s[..HeaderSize]
    requires s[HeaderSize..] == EncodeEntries(p.entries) + t
    ensures s == Encode(p) + t
  {
    assert p.entries[..|p.entries| % 0x1_0000] == p.entries;
    assert s == s[..HeaderSize] + s[HeaderSize..];
  }

  /** A header whose fields read as `p`'s is `p`'s encoded header. */
  lemma HeaderBytes(s: seq<Byte>, p: Packet)
    requires |s| >= HeaderSize
    requires p.ptype == s[0] && p.hop == s[9]
    requires p.src == ReadU32(s, 1) && p.seqNo == ReadU32(s, 5)
    requires |p.entries| == ReadU16(s, 10)
    ensures EncodeHeader(p) == s[..HeaderSize]
  {
    HeaderInverse(s);
  }

  /** Trailing bytes after a decodable packet never change the result. */
  lemma TrailingIgnored(s: seq<Byte>, t: seq<Byte>)
    requires Decode(s).Success?
    ensures Decode(s + t) == Decode(s)
  {
    var p := Decode(s).value;
    DecodeConsumes(s);
    var rest := s[|Encode(p)|..];
    assert s == Encode(p) + rest;
    RoundTrip(p, rest);
    RoundTrip(p, rest + t);
    assert s + t == Encode(p) + (rest + t);
  }
}
