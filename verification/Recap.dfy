/** The pcap stream reader of edgesec-recap.c: a state machine over short reads that refines a parser of the whole
    stream. */
module Recap {
  import opened Bytes
  import opened Md5Spec

  const MAGIC := 0xa1b2_c3d4
  const FILE_HEADER := 24
  const PKT_HEADER := 16

  /** struct pcap_pkthdr32 */
  datatype PktHeader = PktHeader(sec: nat, usec: nat, caplen: nat, len: nat)

  datatype Record = Record(header: PktHeader, packet: seq<byte>)

  /** How many packets decoding a record gives; negative if it fails. */
  type Decoder = (nat, Record) -> int

  function Le32At(s: seq<byte>, at: nat): (r: nat)
    requires at + 4 <= |s|
  {
    var a, b, c, d: int := s[at], s[at + 1], s[at + 2], s[at + 3];
    a + 0x100 * b + 0x1_0000 * c + 0x100_0000 * d
  }

  function HeaderOf(s: seq<byte>): (r: PktHeader)
    requires |s| >= PKT_HEADER
  {
    PktHeader(Le32At(s, 0), Le32At(s, 4), Le32At(s, 8), Le32At(s, 12))
  }

  /** The records of a stream up to the first that is truncated (ended), or longer than its original, or not decoded
      (failed). */
  datatype Parsed = Parsed(records: seq<Record>, failed: bool)

  function Records(decode: Decoder, link: nat, s: seq<byte>): (r: Parsed)
    decreases |s|, 0
  {
    if |s| < PKT_HEADER then Parsed([], false)
    else
      var h := HeaderOf(s);
      if h.caplen > h.len then Parsed([], true) else Packet(decode, link, h, s[PKT_HEADER..])
  }

  function Packet(decode: Decoder, link: nat, h: PktHeader, s: seq<byte>): (r: Parsed)
    decreases |s|, 1
  {
    if |s| < h.caplen then Parsed([], false)
    else if decode(link, Record(h, s[..h.caplen])) < 0 then Parsed([], true)
    else
      var rest := Records(decode, link, s[h.caplen..]);
      Parsed([Record(h, s[..h.caplen])] + rest.records, rest.failed)
  }

  /** A whole stream. */
  function Parse(decode: Decoder, s: seq<byte>): (r: Parsed)
  {
    if |s| < FILE_HEADER then Parsed([], false)
    else if Le32At(s, 0) != MAGIC then Parsed([], true)
    else Records(decode, Le32At(s, 20), s[FILE_HEADER..])
  }

  /** enum PCAP_FILE_STATE */
  datatype State = Init | FileHeader | PacketHeader | ReadPacket | Fin

  /** What is still to come of a stream in a given state, from the buffered and the unread octets. */
  function Remaining(decode: Decoder, state: State, link: nat, h: PktHeader, s: seq<byte>): (r: Parsed)
  {
    match state
    case Init | FileHeader => Parse(decode, s)
    case PacketHeader => Records(decode, link, s)
    case ReadPacket => Packet(decode, link, h, s)
    case Fin => Parsed([], false)
  }

  /** The octets of complete records. */
  function Extent(rs: seq<Record>): (r: nat)
    decreases |rs|
  {
    if rs == [] then 0 else Extent(rs[..|rs| - 1]) + PKT_HEADER + rs[|rs| - 1].header.caplen
  }

  function Decoded(decode: Decoder, link: nat, rs: seq<Record>): (r: int)
    decreases |rs|
  {
    if rs == [] then 0 else Decoded(decode, link, rs[..|rs| - 1]) + decode(link, rs[|rs| - 1])
  }

  /** The octets of complete parts: the file header, the saved records, the header of the packet being read. */
  predicate Complete(base: nat, rs: seq<Record>)
  {
    || (base == 0 && rs == [])
    || base == FILE_HEADER + Extent(rs)
    || base == FILE_HEADER + Extent(rs) + PKT_HEADER
  }

  function Prepended(rs: seq<Record>, p: Parsed): Parsed { Parsed(rs + p.records, p.failed) }

  /** How many octets the current state collects. */
  function Need(state: State, h: PktHeader): (r: nat)
  {
    match state
    case FileHeader => FILE_HEADER
    case PacketHeader => PKT_HEADER
    case ReadPacket => h.caplen
    case Init | Fin => 0
  }

  /** Steps without reading go from a packet of no octets to the next header, or to an end. */
  function Rank(state: State): (r: nat)
  {
    match state
    case Init => 3
    case ReadPacket => 2
    case FileHeader | PacketHeader => 1
    case Fin => 0
  }

  lemma FileHeaderFull(decode: Decoder, link: nat, h: PktHeader, data: seq<byte>, rest: seq<byte>)
    requires |data| == FILE_HEADER
    ensures Remaining(decode, FileHeader, link, h, data + rest) ==
            if Le32At(data, 0) != MAGIC then Parsed([], true) else Records(decode, Le32At(data, 20), rest)
  {
  }

  lemma PacketHeaderFull(decode: Decoder, link: nat, h: PktHeader, data: seq<byte>, rest: seq<byte>)
    requires |data| == PKT_HEADER
    ensures Remaining(decode, PacketHeader, link, h, data + rest) ==
            var next := HeaderOf(data);
            if next.caplen > next.len then Parsed([], true) else Packet(decode, link, next, rest)
  {
  }

  lemma PacketFull(decode: Decoder, link: nat, h: PktHeader, data: seq<byte>, rest: seq<byte>)
    requires |data| == h.caplen
    ensures Remaining(decode, ReadPacket, link, h, data + rest) ==
            if decode(link, Record(h, data)) < 0 then Parsed([], true)
            else Prepended([Record(h, data)], Records(decode, link, rest))
  {
  }

  lemma Truncated(decode: Decoder, state: State, link: nat, h: PktHeader, data: seq<byte>)
    requires |data| < Need(state, h)
    ensures Remaining(decode, state, link, h, data + []) == Parsed([], false)
  {
  }

  lemma NoneYet(decode: Decoder, link: nat)
    ensures Extent([]) == 0 && Decoded(decode, link, []) == 0
  {
  }

  lemma OneMore(decode: Decoder, link: nat, rs: seq<Record>, r: Record)
    ensures Extent(rs + [r]) == Extent(rs) + PKT_HEADER + r.header.caplen
    ensures Decoded(decode, link, rs + [r]) == Decoded(decode, link, rs) + decode(link, r)
  {
  }

  /** struct recap_context: the unread stream, the octets collected so far, and what was saved. */
  class Reader {
    const decode: Decoder
    ghost const input: seq<byte>
    var stream: seq<byte>
    var data: seq<byte>
    var total: nat
    var npackets: int
    var state: State
    var link: nat
    var header: PktHeader
    var saved: seq<Record>
    ghost var base: nat

    /** Where the octets are: complete parts, the buffered remainder, the unread rest. */
    ghost predicate Placed()
      reads this
    {
      && total + |stream| == |input| && total == base + |data|
      && (state.FileHeader? ==> base == 0 && saved == [])
      && (state.PacketHeader? ==> base == FILE_HEADER + Extent(saved))
      && (state.ReadPacket? ==> base == FILE_HEADER + Extent(saved) + PKT_HEADER)
      && npackets == Decoded(decode, link, saved) && Complete(base, saved)
    }

    /** What was saved and what is still to come are the records of the whole stream. */
    ghost predicate OnTrack()
      reads this
    {
      Parse(decode, input) == Prepended(saved, Remaining(decode, state, link, header, data + stream))
    }

    ghost predicate Valid()
      reads this
    {
      if state.Init? then stream == input && saved == []
      else if state.Fin? then Placed() && stream == [] && Parse(decode, input) == Parsed(saved, false)
      else
        && Placed() && OnTrack()
        && (|data| < Need(state, header) || (state.ReadPacket? && data == [] && header.caplen == 0))
    }

    constructor (decode: Decoder, input: seq<byte>)
      ensures Valid() && state.Init? && this.input == input && this.decode == decode
    {
      this.decode, this.input, stream := decode, input, input;
      data, total, npackets, state, link, header, saved, base := [], 0, 0, Init, 0, PktHeader(0, 0, 0, 0), [], 0;
    }

    /** read_pcap: a read gives at least one octet while there are any, and however few more. */
    method Read(len: nat, most: nat) returns (n: nat)
      modifies this`stream, this`data, this`total
      ensures n <= len && n <= |old(stream)|
      ensures n == 0 <==> len == 0 || old(stream) == []
      ensures stream == old(stream)[n..] && data == old(data) + old(stream)[..n] && total == old(total) + n
    {
      n := if most == 0 then 1 else most;
      if n > len {
        n := len;
      }
      if n > |stream| {
        n := |stream|;
      }
      total := total + n;
      data, stream := data + stream[..n], stream[n..];
    }

    /** The length to ask for, and what a read leaves: never more than the state needs. */
    method Collect(most: nat) returns (n: nat)
      requires Valid() && !state.Init? && !state.Fin?
      modifies this`stream, this`data, this`total
      ensures Placed() && OnTrack() && |data| <= Need(state, header) && |stream| == |old(stream)| - n
      ensures n == 0 ==> data == old(data) && (stream == [] || (state.ReadPacket? && data == [] && header.caplen == 0))
      ensures |data| >= Need(state, header) && n == 0 ==> state.ReadPacket? && header.caplen == 0
    {
      hide Parse, Extent, Decoded, Remaining;
      var len := if Need(state, header) > |data| then Need(state, header) - |data| else 0;
      ghost var all := data + stream;
      n := Read(len, most);
      assert data + stream == all;
    }

    /** A step that succeeds keeps the invariant and comes closer to the end; one that fails has saved exactly the
        records before the failure. */
    twostate predicate Stepped(ret: int)
      reads this
    {
      if ret < 0 then
        && total + |stream| == |input| && total == base + |data| && Complete(base, saved) && saved == old(saved)
        && npackets == Decoded(decode, link, saved) && Parse(decode, input) == Parsed(saved, true)
      else
        && Valid() && !state.Init?
        && (|stream| < |old(stream)| || (|stream| == |old(stream)| && Rank(state) < Rank(old(state))))
    }

    /** process_file_header_state */
    method ProcessFileHeader(most: nat) returns (ret: int)
      requires Valid() && state.FileHeader?
      modifies this
      ensures Stepped(ret)
    {
      hide Parse, Extent, Decoded, Remaining, Records, Le32At;
      var n := Collect(most);
      if |data| >= FILE_HEADER {
        FileHeaderFull(decode, link, header, data, stream);
        NoneYet(decode, link);
        NoneYet(decode, Le32At(data, 20));
        var magic := Le32At(data, 0);
        link := Le32At(data, 20);
        base := FILE_HEADER;
        data := [];
        assert [] + stream == stream;
        if magic != MAGIC {
          return -1;
        }
        state := PacketHeader;
        AreRecords(decode, link, header, stream);
      } else if n == 0 {
        Truncated(decode, state, link, header, data);
        state := Fin;
      }
      ret := 0;
    }

    /** process_pkt_header_state */
    method ProcessPacketHeader(most: nat) returns (ret: int)
      requires Valid() && state.PacketHeader?
      modifies this
      ensures Stepped(ret)
    {
      hide Parse, Extent, Decoded, Remaining, Packet, HeaderOf;
      var n := Collect(most);
      if |data| >= PKT_HEADER {
        PacketHeaderFull(decode, link, header, data, stream);
        header := HeaderOf(data);
        if header.caplen > header.len {
          return -1;
        }
        base := base + PKT_HEADER;
        data := [];
        assert [] + stream == stream;
        state := ReadPacket;
        IsPacket(decode, link, header, stream);
      } else if n == 0 {
        Truncated(decode, state, link, header, data);
        state := Fin;
      }
      ret := 0;
    }

    /** process_pkt_read_state and save_raw_packet: a packet that cannot be decoded ends the run. */
    method ProcessPacket(most: nat) returns (ret: int)
      requires Valid() && state.ReadPacket?
      modifies this
      ensures Stepped(ret)
    {
      hide Parse, Extent, Decoded, Remaining, Records;
      var n := Collect(most);
      if |data| >= header.caplen {
        PacketFull(decode, link, header, data, stream);
        var r := Record(header, data);
        var count := decode(link, r);
        if count < 0 {
          return -1;
        }
        OneMore(decode, link, saved, r);
        npackets, saved := npackets + count, saved + [r];
        base := base + |data|;
        data := [];
        assert [] + stream == stream;
        state := PacketHeader;
        AreRecords(decode, link, header, stream);
      } else if n == 0 {
        Truncated(decode, state, link, header, data);
        state := Fin;
      }
      ret := 0;
    }

    /** process_file_stream_state */
    method Step(most: nat) returns (ret: int)
      requires Valid()
      modifies this
      ensures -1 <= ret <= 1 && (ret == 0 <==> old(state).Fin?)
      ensures ret != 0 ==> Stepped(ret)
      ensures ret == 0 ==> Valid() && saved == old(saved) && state.Fin?
    {
      hide Parse, Extent, Decoded;
      match state {
        case Init =>
          npackets, total, data, base := 0, 0, [], 0;
          state := FileHeader;
          NoneYet(decode, link);
          assert [] + stream == stream;
          ret := 1;
        case FileHeader =>
          ret := ProcessFileHeader(most);
          ret := if ret < 0 then -1 else 1;
        case PacketHeader =>
          ret := ProcessPacketHeader(most);
          ret := if ret < 0 then -1 else 1;
        case ReadPacket =>
          ret := ProcessPacket(most);
          ret := if ret < 0 then -1 else 1;
        case Fin =>
          ret := 0;
      }
    }

    /** process_file_stream, for every pattern of short reads: the saved packets are the records of the stream up to
        the first truncated, overlong or undecodable one. The comparison binds tighter than the assignment in the
        loop condition, so a failed step also ends the loop with 0, and the result tells the truth exactly of the
        streams that do not fail. */
    method ProcessStream(most: nat -> nat) returns (res: int)
      requires Valid() && state.Init?
      modifies this
      ensures res == 0 && saved == Parse(decode, input).records && npackets == Decoded(decode, link, saved)
      ensures (res < 0 <==> Parse(decode, input).failed) <==> !Parse(decode, input).failed
      ensures total + |stream| == |input| && total == base + |data| && Complete(base, saved)
      ensures Parse(decode, input).failed || (state.Fin? && stream == [])
    {
      hide Parse, Extent, Decoded, Reader.Valid, Remaining;
      var going, n := true, 0;
      while going
        invariant going ==> Valid()
        invariant !going ==> saved == Parse(decode, input).records
        invariant !going ==> total + |stream| == |input| && total == base + |data|
        invariant !going ==> Complete(base, saved) && npackets == Decoded(decode, link, saved)
        invariant !going ==> Parse(decode, input).failed || (state.Fin? && stream == [])
        decreases going, |stream|, Rank(state)
      {
        var ret := Step(most(n));
        n := n + 1;
        going := ret > 0;
        if ret == 0 {
          Finished();
        }
      }
      res := 0;
    }

    lemma Finished()
      requires Valid() && state.Fin?
      ensures Parse(decode, input) == Parsed(saved, false) && stream == []
      ensures total + |stream| == |input| && total == base + |data| && Complete(base, saved)
      ensures npackets == Decoded(decode, link, saved)
    {
    }
  }

  lemma IsPacket(decode: Decoder, link: nat, h: PktHeader, s: seq<byte>)
    ensures Remaining(decode, ReadPacket, link, h, s) == Packet(decode, link, h, s)
  {
  }

  lemma AreRecords(decode: Decoder, link: nat, h: PktHeader, s: seq<byte>)
    ensures Remaining(decode, PacketHeader, link, h, s) == Records(decode, link, s)
  {
  }

  predicate Proper(r: Record)
  {
    && r.header.sec < WORD && r.header.usec < WORD && r.header.len < WORD
    && r.header.caplen == |r.packet| <= r.header.len
  }

  function EncodeHeader(h: PktHeader): (r: seq<byte>)
    requires h.sec < WORD && h.usec < WORD && h.caplen < WORD && h.len < WORD
    ensures |r| == PKT_HEADER
  {
    Le32(h.sec) + Le32(h.usec) + Le32(h.caplen) + Le32(h.len)
  }

  function EncodeRecord(r: Record): (e: seq<byte>)
    requires Proper(r)
  {
    EncodeHeader(r.header) + r.packet
  }

  /** Records as a pcap file holds them. */
  function EncodeRecords(rs: seq<Record>): (r: seq<byte>)
    requires forall i :: 0 <= i < |rs| ==> Proper(rs[i])
    decreases |rs|
  {
    if rs == [] then []
    else
      assert Proper(rs[0]);
      EncodeRecord(rs[0]) + EncodeRecords(rs[1..])
  }

  lemma Le32Reads(w: word, rest: seq<byte>)
    ensures Le32At(Le32(w) + rest, 0) == w
  {
    FourDigits(w);
    var s := Le32(w) + rest;
    assert s[0] == w % 0x100 && s[1] == w / 0x100 % 0x100 && s[2] == w / 0x1_0000 % 0x100 && s[3] == w / 0x100_0000;
  }

  lemma Le32Skips(a: seq<byte>, b: seq<byte>, at: nat)
    requires at + 4 <= |b|
    ensures Le32At(a + b, |a| + at) == Le32At(b, at)
  {
  }

  lemma HeaderReads(h: PktHeader, rest: seq<byte>)
    requires h.sec < WORD && h.usec < WORD && h.caplen < WORD && h.len < WORD
    ensures HeaderOf(EncodeHeader(h) + rest) == h
  {
    hide Le32, Le32At;
    var a, b, c, d := Le32(h.sec), Le32(h.usec), Le32(h.caplen), Le32(h.len);
    var s := EncodeHeader(h) + rest;
    assert s == a + (b + (c + (d + rest)));
    Le32Reads(h.sec, b + (c + (d + rest)));
    Le32Reads(h.usec, c + (d + rest));
    Le32Reads(h.caplen, d + rest);
    Le32Reads(h.len, rest);
    Le32Skips(a, b + (c + (d + rest)), 0);
    Le32Skips(b, c + (d + rest), 0);
    Le32Skips(c, d + rest, 0);
    Le32Skips(a, b + (c + (d + rest)), 4);
    Le32Skips(a, b + (c + (d + rest)), 8);
    Le32Skips(b, c + (d + rest), 4);
  }

  /** The fields of a packet header, four octets each, low-order octet first: seconds, microseconds, captured length and
      length of the packet. */
  lemma HeaderIs(s: seq<byte>)
    requires |s| >= PKT_HEADER
    ensures HeaderOf(s) == PktHeader(LittleEndian(s[0..4]), LittleEndian(s[4..8]), LittleEndian(s[8..12]),
                                     LittleEndian(s[12..16]))
  {
    hide Le32At, LittleEndian;
    NumberIs(s, 0);
    NumberIs(s, 4);
    NumberIs(s, 8);
    NumberIs(s, 12);
  }

  lemma NumberIs(s: seq<byte>, at: nat)
    requires at + 4 <= |s|
    ensures Le32At(s, at) == LittleEndian(s[at..at + 4])
  {
    var t := s[at..at + 4];
    Le32Writes(s, at);
    WordOctets(Le32At(s, at), []);
    hide Le32, Le32At, LittleEndian;
    assert t + [] == t;
    NoOctets();
  }

  /** A file starts with the octets d4 c3 b2 a1, has its link type in octets 20 to 23, and its records behind. */
  lemma FileHeaderIs(decode: Decoder, s: seq<byte>)
    requires |s| >= 24
    ensures Parse(decode, s) ==
            if s[..4] == [0xd4, 0xc3, 0xb2, 0xa1] then Records(decode, LittleEndian(s[20..24]), s[24..])
            else Parsed([], true)
  {
    hide Records, LittleEndian;
    NumberIs(s, 20);
    Le32Writes(s, 0);
    assert Le32(MAGIC) == [0xd4, 0xc3, 0xb2, 0xa1];
    hide Le32, Le32At;
    assert s[0..4] == s[..4];
  }

  /** The header is that of the octets it was read from. */
  lemma HeaderWrites(s: seq<byte>)
    requires |s| >= PKT_HEADER
    ensures var h := HeaderOf(s);
            h.sec < WORD && h.usec < WORD && h.caplen < WORD && h.len < WORD && EncodeHeader(h) == s[..PKT_HEADER]
  {
    hide Le32, Le32At;
    Le32Writes(s, 0);
    Le32Writes(s, 4);
    Le32Writes(s, 8);
    Le32Writes(s, 12);
    assert s[..PKT_HEADER] == s[0..4] + s[4..8] + s[8..12] + s[12..16];
  }

  lemma Le32Writes(s: seq<byte>, at: nat)
    requires at + 4 <= |s|
    ensures Le32At(s, at) < WORD && Le32(Le32At(s, at)) == s[at..at + 4]
  {
    Digits(s[at], s[at + 1], s[at + 2], s[at + 3]);
  }

  lemma Digits(a: byte, b: byte, c: byte, d: byte)
    ensures var w: int := a + 0x100 * b + 0x1_0000 * c + 0x100_0000 * d;
            && 0 <= w < WORD && w % 0x100 == a && w / 0x100 % 0x100 == b && w / 0x1_0000 % 0x100 == c
            && w / 0x100_0000 == d
  {
    var w: int := a + 0x100 * b + 0x1_0000 * c + 0x100_0000 * d;
    Quarters(w);
    assert w / 0x100 == b + 0x100 * c + 0x1_0000 * d;
    assert w / 0x100 / 0x100 == c + 0x100 * d;
  }

  /** Records that are proper and can be decoded, in front of other octets. */
  ghost predicate Leads(decode: Decoder, link: nat, s: seq<byte>, rs: seq<Record>, rest: seq<byte>)
  {
    (forall i :: 0 <= i < |rs| ==> Proper(rs[i]) && decode(link, rs[i]) >= 0) && s == EncodeRecords(rs) + rest
  }

  /** Nothing but the beginning of a record: a header cut off, or a plausible header and a packet cut off. */
  predicate CutOff(s: seq<byte>)
  {
    |s| < PKT_HEADER || (var h := HeaderOf(s); h.caplen <= h.len && |s| < PKT_HEADER + h.caplen)
  }

  /** A header with more octets captured than the packet had, or a whole packet that cannot be decoded. */
  predicate Bad(decode: Decoder, link: nat, s: seq<byte>)
  {
    |s| >= PKT_HEADER &&
    var h := HeaderOf(s);
    h.caplen > h.len ||
    (|s| >= PKT_HEADER + h.caplen && decode(link, Record(h, s[PKT_HEADER..PKT_HEADER + h.caplen])) < 0)
  }

  lemma RecordReads(decode: Decoder, link: nat, r: Record, rest: seq<byte>)
    requires Proper(r) && decode(link, r) >= 0
    ensures Records(decode, link, EncodeRecord(r) + rest) == Prepended([r], Records(decode, link, rest))
  {
    hide EncodeHeader, HeaderOf;
    var s, body := EncodeRecord(r) + rest, r.packet + rest;
    assert s == EncodeHeader(r.header) + body;
    HeaderReads(r.header, body);
    assert s[PKT_HEADER..] == body && body[..r.header.caplen] == r.packet && body[r.header.caplen..] == rest;
  }

  lemma LeadsNext(decode: Decoder, link: nat, s: seq<byte>, r: Record, rs: seq<Record>, rest: seq<byte>)
    requires Proper(r) && decode(link, r) >= 0
    ensures Leads(decode, link, s, rs, rest) ==> Leads(decode, link, EncodeRecord(r) + s, [r] + rs, rest)
    ensures Leads(decode, link, s, [r] + rs, rest) ==>
              s[..|EncodeRecord(r)|] == EncodeRecord(r) && Leads(decode, link, s[|EncodeRecord(r)|..], rs, rest)
  {
    hide EncodeHeader;
    assert ([r] + rs)[1..] == rs;
    if Leads(decode, link, s, rs, rest) {
      assert EncodeRecord(r) + s == EncodeRecords([r] + rs) + rest;
    }
    if Leads(decode, link, s, [r] + rs, rest) {
      assert s == EncodeRecord(r) + (EncodeRecords(rs) + rest);
    }
  }

  /** Well-formed records are read back whole, in front of whatever follows. */
  lemma {:induction false} RecordsLead(decode: Decoder, link: nat, s: seq<byte>, rs: seq<Record>, rest: seq<byte>)
    requires Leads(decode, link, s, rs, rest)
    ensures Records(decode, link, s) == Prepended(rs, Records(decode, link, rest))
    decreases |rs|
  {
    hide EncodeRecord, Records;
    if rs == [] {
      assert s == rest;
    } else {
      var r, more := rs[0], s[|EncodeRecord(rs[0])|..];
      assert rs == [r] + rs[1..];
      LeadsNext(decode, link, s, r, rs[1..], rest);
      assert s == EncodeRecord(r) + more;
      RecordReads(decode, link, r, more);
      RecordsLead(decode, link, more, rs[1..], rest);
    }
  }

  lemma EndReads(decode: Decoder, link: nat, s: seq<byte>)
    ensures CutOff(s) ==> Records(decode, link, s) == Parsed([], false)
    ensures Bad(decode, link, s) ==> Records(decode, link, s) == Parsed([], true)
  {
    hide HeaderOf;
    if |s| >= PKT_HEADER {
      var h := HeaderOf(s);
      assert |s| >= PKT_HEADER + h.caplen ==> s[PKT_HEADER..][..h.caplen] == s[PKT_HEADER..PKT_HEADER + h.caplen];
    }
  }

  /** A well-formed file, a header with the magic number and records that can be decoded with its link type, is read
      back whole, and a cut-off record at its end is left out. */
  lemma FileReads(decode: Decoder, header: seq<byte>, rs: seq<Record>, tail: seq<byte>)
    requires |header| == FILE_HEADER && Le32At(header, 0) == MAGIC && CutOff(tail)
    requires forall i :: 0 <= i < |rs| ==> Proper(rs[i]) && decode(Le32At(header, 20), rs[i]) >= 0
    ensures Parse(decode, header + (EncodeRecords(rs) + tail)) == Parsed(rs, false)
  {
    hide EncodeRecords, CutOff, Records, Parse, Le32At;
    var link, body := Le32At(header, 20), EncodeRecords(rs) + tail;
    FileHeaderFull(decode, link, PktHeader(0, 0, 0, 0), header, body);
    RecordsLead(decode, link, body, rs, tail);
    EndReads(decode, link, tail);
  }

  /** A record that is neither cut off nor bad is a proper one. */
  lemma NextRecord(decode: Decoder, link: nat, s: seq<byte>) returns (r: Record, rest: seq<byte>)
    requires !CutOff(s) && !Bad(decode, link, s)
    ensures Proper(r) && decode(link, r) >= 0 && s == EncodeRecord(r) + rest && |rest| < |s|
  {
    HeaderWrites(s);
    hide HeaderOf, EncodeHeader;
    var h := HeaderOf(s);
    var at := PKT_HEADER + h.caplen;
    r, rest := Record(h, s[PKT_HEADER..at]), s[at..];
    assert s == s[..PKT_HEADER] + s[PKT_HEADER..at] + s[at..];
  }

  /** Every stream is well-formed records followed by a cut-off or a bad one. */
  lemma {:induction false} SplitStream(decode: Decoder, link: nat, s: seq<byte>)
    returns (rs: seq<Record>, rest: seq<byte>)
    ensures Leads(decode, link, s, rs, rest) && (CutOff(rest) || Bad(decode, link, rest))
    decreases |s|
  {
    hide EncodeRecord, CutOff, Bad;
    rs, rest := [], s;
    assert s == EncodeRecords([]) + s;
    hide Leads;
    if !CutOff(s) && !Bad(decode, link, s) {
      var r, more := NextRecord(decode, link, s);
      rs, rest := SplitStream(decode, link, more);
      LeadsNext(decode, link, more, r, rs, rest);
      rs := [r] + rs;
    }
  }

  /** A stream fails exactly if after some well-formed records comes a bad one. */
  lemma RecordsFailIff(decode: Decoder, link: nat, s: seq<byte>)
    ensures Records(decode, link, s).failed <==>
            exists rs, rest :: Leads(decode, link, s, rs, rest) && Bad(decode, link, rest)
  {
    hide Records, Leads, CutOff, Bad;
    var rs, rest := SplitStream(decode, link, s);
    RecordsLead(decode, link, s, rs, rest);
    EndReads(decode, link, rest);
    forall rs, rest | Leads(decode, link, s, rs, rest) && Bad(decode, link, rest)
      ensures Records(decode, link, s).failed
    {
      RecordsLead(decode, link, s, rs, rest);
      EndReads(decode, link, rest);
    }
  }

  /** A file fails exactly if its header is whole and the magic number is wrong, or a bad record comes after some
      well-formed ones. */
  lemma ParseFailsIff(decode: Decoder, s: seq<byte>)
    ensures Parse(decode, s).failed <==>
            && |s| >= FILE_HEADER
            && (Le32At(s, 0) != MAGIC ||
                exists rs, rest ::
                  Leads(decode, Le32At(s, 20), s[FILE_HEADER..], rs, rest) && Bad(decode, Le32At(s, 20), rest))
  {
    hide Records, Leads, Bad, Le32At;
    if |s| >= FILE_HEADER {
      RecordsFailIff(decode, Le32At(s, 20), s[FILE_HEADER..]);
    }
  }

  /** A file header of zeros fails, and process_file_stream does not report it. */
  lemma ZeroHeaderFails(decode: Decoder)
    ensures Parse(decode, Zeros(FILE_HEADER)).failed
  {
    assert Zeros(FILE_HEADER)[..4] == Zeros(4);
  }
}
