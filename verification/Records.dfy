/** Framed records and the scan that finds the end of a log (segment/segment.go:65-310). */
module Records {
  import opened Bytes
  import opened Keys
  import opened Fragments

  type u32 = n: nat | n < U32
  /** The checksum of a record body. Nothing below depends on which function it is. */
  type Checksum = seq<byte> -> u32

  const MAGIC: nat := 0x45534C50
  const VERSION: byte := 1
  const HEADER_SIZE: nat := 40
  const TRAILER_SIZE: nat := 4

  datatype Header = Header(inode: nat, stripe: nat, stamp: nat, off: int, length: nat)
  {
    predicate Valid() {
      inode < U64 && stripe < U32 && stamp < U64 && Int64(off) && length < U32
    }
  }

  datatype Record = Record(header: Header, payload: seq<byte>)
  {
    predicate Valid() { header.Valid() && header.length == |payload| }
    function FramedSize(): nat { HEADER_SIZE + |payload| + TRAILER_SIZE }
  }

  function HeaderBytes(h: Header): (r: seq<byte>)
    requires h.Valid()
    ensures |r| == HEADER_SIZE
  {
    LE(MAGIC, 4) + [VERSION, 0, 0, 0] + LE(h.inode, 8) + LE(h.stripe, 4) + LE(h.stamp, 8)
    + LE(AsUnsigned(h.off), 8) + LE(h.length, 4)
  }

  /** Header, payload, then the checksum of everything after the magic. */
  function Frame(crc: Checksum, r: Record): (b: seq<byte>)
    requires r.Valid()
    ensures |b| == r.FramedSize()
  {
    var body := HeaderBytes(r.header) + r.payload;
    body + LE(crc(body[4..]), 4)
  }

  predicate AllValid(rs: seq<Record>) {
    forall r :: r in rs ==> r.Valid()
  }

  /** The file after appending rs, in order. */
  ghost function Log(crc: Checksum, rs: seq<Record>): seq<byte>
    requires AllValid(rs)
  {
    if rs == [] then [] else Frame(crc, rs[0]) + Log(crc, rs[1..])
  }

  function DecodeHeader(b: seq<byte>): Header
    requires |b| >= HEADER_SIZE
  {
    Header(FromLE(b[8..16]), FromLE(b[16..20]), FromLE(b[20..28]), AsSigned(FromLE(b[28..36])), FromLE(b[36..40]))
  }

  /** The record at the front of b, when a whole and intact one is there. */
  function Parse(crc: Checksum, b: seq<byte>): (r: Option<Header>)
    ensures r.Some? ==> HEADER_SIZE + r.value.length + TRAILER_SIZE <= |b|
  {
    if |b| < HEADER_SIZE + TRAILER_SIZE then None
    else if FromLE(b[0..4]) != MAGIC then None
    else if b[4] != VERSION then None
    else
      var h := DecodeHeader(b);
      var crcOff := HEADER_SIZE + h.length;
      if crcOff + TRAILER_SIZE > |b| then None
      else if FromLE(b[crcOff..crcOff + 4]) != crc(b[4..crcOff]) then None
      else Some(h)
  }

  lemma HeaderFields(m: seq<byte>, v: seq<byte>, i: seq<byte>, s: seq<byte>, q: seq<byte>, o: seq<byte>, l: seq<byte>,
                     rest: seq<byte>)
    requires |m| == |v| == |s| == |l| == 4 && |i| == |q| == |o| == 8
    ensures var b := m + v + i + s + q + o + l + rest;
            b[0..4] == m && b[4] == v[0] && b[8..16] == i && b[16..20] == s && b[20..28] == q
            && b[28..36] == o && b[36..40] == l
  {
  }

  lemma HeaderRoundTrip(h: Header, rest: seq<byte>)
    requires h.Valid()
    ensures var b := HeaderBytes(h) + rest;
            FromLE(b[0..4]) == MAGIC && b[4] == VERSION && DecodeHeader(b) == h
  {
    Widths();
    var v: seq<byte> := [VERSION, 0, 0, 0];
    HeaderFields(LE(MAGIC, 4), v, LE(h.inode, 8), LE(h.stripe, 4), LE(h.stamp, 8),
                 LE(AsUnsigned(h.off), 8), LE(h.length, 4), rest);
    LERoundTrip(MAGIC, 4);
    LERoundTrip(h.inode, 8);
    LERoundTrip(h.stripe, 4);
    LERoundTrip(h.stamp, 8);
    LERoundTrip(AsUnsigned(h.off), 8);
    LERoundTrip(h.length, 4);
  }

  /** A whole frame parses back to its header, whatever follows it. */
  lemma ParseFrame(crc: Checksum, r: Record, rest: seq<byte>)
    requires r.Valid()
    ensures Parse(crc, Frame(crc, r) + rest) == Some(r.header)
  {
    var head, b := HeaderBytes(r.header), Frame(crc, r) + rest;
    var body := head + r.payload;
    var sum := LE(crc(body[4..]), 4);
    assert b == head + (r.payload + sum + rest);
    HeaderRoundTrip(r.header, r.payload + sum + rest);
    assert b == body + sum + rest;
    assert b[4..|body|] == body[4..] && b[|body|..|body| + 4] == sum;
    Widths();
    LERoundTrip(crc(body[4..]), 4);
  }

  /** A frame cut short does not parse: its header asks for more bytes than there are. */
  lemma ParseTorn(crc: Checksum, r: Record, tail: seq<byte>)
    requires r.Valid() && tail <= Frame(crc, r) && |tail| < r.FramedSize()
    ensures Parse(crc, tail) == None
  {
    if |tail| >= HEADER_SIZE + TRAILER_SIZE {
      var head := HeaderBytes(r.header);
      assert head == Frame(crc, r)[..HEADER_SIZE];
      assert tail == head + tail[HEADER_SIZE..];
      HeaderRoundTrip(r.header, tail[HEADER_SIZE..]);
    }
  }

  /** Where a frame keeps what: "PLSE" and the version, three zeros, then inode, stripe, sequence number, offset and
      length, little endian; the payload from 40 on; after it the checksum of everything from 4 on. */
  lemma FrameLayout(crc: Checksum, r: Record)
    requires r.Valid()
    ensures var b, h, n := Frame(crc, r), r.header, HEADER_SIZE + |r.payload|;
            && b[0..8] == [0x50, 0x4C, 0x53, 0x45, VERSION, 0, 0, 0] && b[HEADER_SIZE..n] == r.payload
            && b[8..16] == LE(h.inode, 8) && b[16..20] == LE(h.stripe, 4) && b[20..28] == LE(h.stamp, 8)
            && b[28..36] == LE(AsUnsigned(h.off), 8) && b[36..40] == LE(h.length, 4)
            && b[n..] == LE(crc(b[4..n]), 4)
  {
    var body := HeaderBytes(r.header) + r.payload;
    var b := Frame(crc, r);
    assert b == body + LE(crc(body[4..]), 4);
    assert b[4..|body|] == body[4..];
    MagicBytes();
    hide LE, Frame;
  }

  lemma MagicBytes()
    ensures LE(MAGIC, 4) == [0x50, 0x4C, 0x53, 0x45]
  {
    assert LE(0x45, 1) == [0x45];
    assert LE(0x4553, 2) == [0x53, 0x45];
    assert LE(0x45534C, 3) == [0x4C, 0x53, 0x45];
  }

  /** Bytes parse as a record of header h exactly if they start with the magic, the version and h, hold the whole
      payload and trailer, and the trailer is the checksum of what lies between. Nothing else about them matters. */
  lemma ParseIff(crc: Checksum, b: seq<byte>, h: Header)
    requires h.Valid()
    ensures Parse(crc, b) == Some(h) <==>
            && |b| >= HEADER_SIZE + h.length + TRAILER_SIZE
            && b[0..5] == [0x50, 0x4C, 0x53, 0x45, VERSION]
            && b[8..HEADER_SIZE] == HeaderBytes(h)[8..]
            && b[HEADER_SIZE + h.length..HEADER_SIZE + h.length + TRAILER_SIZE]
               == LE(crc(b[4..HEADER_SIZE + h.length]), 4)
  {
    if |b| >= HEADER_SIZE + TRAILER_SIZE {
      MagicBytes();
      SameDigits(b[0..4], MAGIC);
      DecodeIff(b, h);
      var n := HEADER_SIZE + h.length;
      if n + TRAILER_SIZE <= |b| {
        SameDigits(b[n..n + 4], crc(b[4..n]));
      }
      assert b[0..5] == b[0..4] + [b[4]];
      hide LE, FromLE, DecodeHeader, HeaderBytes;
    }
  }

  /** What parses has fields in range, so the lemma above speaks of every record found. */
  lemma ParsedValid(crc: Checksum, b: seq<byte>)
    ensures Parse(crc, b).Some? ==> Parse(crc, b).value.Valid()
  {
    if |b| >= HEADER_SIZE {
      Widths();
      FromLEInverse(b[8..16]);
      FromLEInverse(b[16..20]);
      FromLEInverse(b[20..28]);
      FromLEInverse(b[28..36]);
      FromLEInverse(b[36..40]);
      hide FromLE, LE;
    }
  }

  lemma SameDigits(b: seq<byte>, n: nat)
    requires n < Pow256(|b|)
    ensures FromLE(b) == n <==> b == LE(n, |b|)
  {
    FromLEInverse(b);
    LERoundTrip(n, |b|);
  }

  lemma SignIff(n: nat, x: int)
    requires n < U64 && Int64(x)
    ensures AsSigned(n) == x <==> n == AsUnsigned(x)
  {
  }

  lemma DecodeIff(b: seq<byte>, h: Header)
    requires |b| >= HEADER_SIZE && h.Valid()
    ensures DecodeHeader(b) == h <==> b[8..HEADER_SIZE] == HeaderBytes(h)[8..]
  {
    Widths();
    FromLEInverse(b[28..36]);
    hide LE, FromLE, Pow256;
    SameDigits(b[8..16], h.inode);
    SameDigits(b[16..20], h.stripe);
    SameDigits(b[20..28], h.stamp);
    SameDigits(b[28..36], AsUnsigned(h.off));
    SignIff(FromLE(b[28..36]), h.off);
    SameDigits(b[36..40], h.length);
    hide AsSigned, AsUnsigned;
    HeaderBlocks(b, h);
    FiveBlocks(b[8..16], b[16..20], b[20..28], b[28..36], b[36..40],
               LE(h.inode, 8), LE(h.stripe, 4), LE(h.stamp, 8), LE(AsUnsigned(h.off), 8), LE(h.length, 4));
    hide HeaderBytes;
  }

  lemma HeaderBlocks(b: seq<byte>, h: Header)
    requires |b| >= HEADER_SIZE && h.Valid()
    ensures b[8..HEADER_SIZE] == b[8..16] + b[16..20] + b[20..28] + b[28..36] + b[36..40]
    ensures HeaderBytes(h)[8..] == LE(h.inode, 8) + LE(h.stripe, 4) + LE(h.stamp, 8) + LE(AsUnsigned(h.off), 8)
                                   + LE(h.length, 4)
  {
    hide LE, AsUnsigned;
  }

  lemma FiveBlocks(a: seq<byte>, b: seq<byte>, c: seq<byte>, d: seq<byte>, e: seq<byte>,
                   p: seq<byte>, q: seq<byte>, r: seq<byte>, s: seq<byte>, t: seq<byte>)
    requires |a| == |p| == 8 && |b| == |q| == 4 && |c| == |r| == 8 && |d| == |s| == 8 && |e| == |t| == 4
    ensures a + b + c + d + e == p + q + r + s + t <==> a == p && b == q && c == r && d == s && e == t
  {
    var x, y := a + b + c + d + e, p + q + r + s + t;
    assert x[0..8] == a && x[8..12] == b && x[12..20] == c && x[20..28] == d && x[28..32] == e;
    assert y[0..8] == p && y[8..12] == q && y[12..20] == r && y[20..28] == s && y[28..32] == t;
  }

  /** A scan stops in front of bytes that do not start with a record. */
  lemma ScanStops(crc: Checksum, b: seq<byte>, pos: nat)
    ensures ScanFrom(crc, b, pos).visits == [] <==> Parse(crc, b) == None
    ensures ScanFrom(crc, b, pos).end == pos <==> Parse(crc, b) == None
  {
    hide Parse;
  }

  /** One visit of Scan: the header and the offset of the payload. */
  datatype Visit = Visit(header: Header, payloadOff: nat)

  datatype ScanResult = ScanResult(visits: seq<Visit>, end: nat)

  /** What Scan does with the bytes b that are left at position pos. */
  function ScanFrom(crc: Checksum, b: seq<byte>, pos: nat): (r: ScanResult)
    ensures pos <= r.end <= pos + |b|
    decreases |b|
  {
    match Parse(crc, b)
    case None => ScanResult([], pos)
    case Some(h) =>
      var size := HEADER_SIZE + h.length + TRAILER_SIZE;
      var rest := ScanFrom(crc, b[size..], pos + size);
      ScanResult([Visit(h, pos + HEADER_SIZE)] + rest.visits, rest.end)
  }

  /** What follows a whole record does not matter to parsing it. */
  lemma ParsePrefix(crc: Checksum, b: seq<byte>, n: nat)
    requires n <= |b| && Parse(crc, b).Some? && HEADER_SIZE + Parse(crc, b).value.length + TRAILER_SIZE <= n
    ensures Parse(crc, b[..n]) == Parse(crc, b)
  {
    var a := b[..n];
    var crcOff := HEADER_SIZE + Parse(crc, b).value.length;
    assert a[0..4] == b[0..4] && a[8..16] == b[8..16] && a[16..20] == b[16..20] && a[20..28] == b[20..28];
    assert a[28..36] == b[28..36] && a[36..40] == b[36..40];
    assert a[crcOff..crcOff + 4] == b[crcOff..crcOff + 4] && a[4..crcOff] == b[4..crcOff];
  }

  /** Scanning just what a scan accepted accepts all of it. */
  lemma {:induction false} ScanOfScanned(crc: Checksum, b: seq<byte>, pos: nat)
    ensures var end := ScanFrom(crc, b, pos).end; ScanFrom(crc, b[..end - pos], pos).end == end
    decreases |b|
  {
    hide Parse;
    match Parse(crc, b)
    case None =>
      ParseNothing(crc);
      assert b[..0] == [];
    case Some(h) =>
      var size := HEADER_SIZE + h.length + TRAILER_SIZE;
      var end := ScanFrom(crc, b, pos).end;
      ScanOfScanned(crc, b[size..], pos + size);
      ParsePrefix(crc, b, end - pos);
      assert b[..end - pos][size..] == b[size..][..end - pos - size];
  }

  lemma ParseNothing(crc: Checksum)
    ensures Parse(crc, []) == None
  {
  }

  /** The visits a scan owes for rs when their log starts at pos. */
  ghost function VisitsOf(rs: seq<Record>, pos: nat): seq<Visit> {
    if rs == [] then []
    else [Visit(rs[0].header, pos + HEADER_SIZE)] + VisitsOf(rs[1..], pos + rs[0].FramedSize())
  }

  lemma ScanOne(crc: Checksum, r: Record, rest: seq<byte>, pos: nat)
    requires r.Valid()
    ensures var after := ScanFrom(crc, rest, pos + r.FramedSize());
            ScanFrom(crc, Frame(crc, r) + rest, pos)
            == ScanResult([Visit(r.header, pos + HEADER_SIZE)] + after.visits, after.end)
  {
    hide Parse, Frame;
    ParseFrame(crc, r, rest);
    assert (Frame(crc, r) + rest)[r.FramedSize()..] == rest;
  }

  /** Scanning a log delivers its records in order, then goes on at its end. */
  lemma {:induction false} ScanThroughLog(crc: Checksum, rs: seq<Record>, rest: seq<byte>, pos: nat)
    requires AllValid(rs)
    ensures var after := ScanFrom(crc, rest, pos + |Log(crc, rs)|);
            ScanFrom(crc, Log(crc, rs) + rest, pos)
            == ScanResult(VisitsOf(rs, pos) + after.visits, after.end)
    decreases |rs|
  {
    hide ScanFrom, Parse, Frame, HeaderBytes;
    if rs == [] {
      assert Log(crc, rs) + rest == rest;
    } else {
      var f, more, next := Frame(crc, rs[0]), Log(crc, rs[1..]) + rest, pos + rs[0].FramedSize();
      ScanThroughLog(crc, rs[1..], rest, next);
      ScanOne(crc, rs[0], more, pos);
      assert Log(crc, rs) == f + Log(crc, rs[1..]);
      assert Log(crc, rs) + rest == f + more;
      var v, after := Visit(rs[0].header, pos + HEADER_SIZE), ScanFrom(crc, rest, pos + |Log(crc, rs)|);
      assert VisitsOf(rs, pos) == [v] + VisitsOf(rs[1..], next);
      assert [v] + (VisitsOf(rs[1..], next) + after.visits) == VisitsOf(rs, pos) + after.visits;
    }
  }

  /** Torn-tail recovery: whole records followed by part of one more are scanned to the end of the whole ones. */
  lemma TornTailRecovery(crc: Checksum, rs: seq<Record>, torn: Record, tail: seq<byte>)
    requires AllValid(rs) && torn.Valid() && tail <= Frame(crc, torn) && |tail| < torn.FramedSize()
    ensures ScanFrom(crc, Log(crc, rs) + tail, 0) == ScanResult(VisitsOf(rs, 0), |Log(crc, rs)|)
  {
    hide Parse, Frame, HeaderBytes, Log, VisitsOf;
    ScanThroughLog(crc, rs, tail, 0);
    ParseTorn(crc, torn, tail);
    var end := |Log(crc, rs)|;
    assert ScanFrom(crc, tail, end) == ScanResult([], end);
    assert VisitsOf(rs, 0) + [] == VisitsOf(rs, 0);
  }

  lemma {:induction false} LogAppend(crc: Checksum, rs: seq<Record>, r: Record)
    requires AllValid(rs) && r.Valid()
    ensures Log(crc, rs + [r]) == Log(crc, rs) + Frame(crc, r)
    decreases |rs|
  {
    if rs == [] {
      assert rs + [r] == [r];
      assert Log(crc, [r]) == Frame(crc, r) + Log(crc, []);
    } else {
      LogAppend(crc, rs[1..], r);
      assert (rs + [r])[1..] == rs[1..] + [r];
      assert Log(crc, rs + [r]) == Frame(crc, rs[0]) + Log(crc, rs[1..] + [r]);
    }
  }

  /** data is a sequence of whole, intact records. */
  ghost predicate IsLog(crc: Checksum, data: seq<byte>) {
    exists rs :: AllValid(rs) && data == Log(crc, rs)
  }

  lemma IsLogEmpty(crc: Checksum)
    ensures IsLog(crc, [])
  {
    assert AllValid([]) && Log(crc, []) == [];
  }

  lemma IsLogAppend(crc: Checksum, data: seq<byte>, r: Record)
    requires IsLog(crc, data) && r.Valid()
    ensures IsLog(crc, data + Frame(crc, r))
  {
    var rs :| AllValid(rs) && data == Log(crc, rs);
    LogAppend(crc, rs, r);
    assert AllValid(rs + [r]);
  }

  /** Every cut of a log is a shorter log and part of one more record. */
  lemma {:induction false} CutLog(crc: Checksum, rs: seq<Record>, n: nat, pos: nat) returns (whole: seq<Record>)
    requires AllValid(rs) && n <= |Log(crc, rs)|
    ensures AllValid(whole) && Log(crc, whole) <= Log(crc, rs)[..n]
    ensures ScanFrom(crc, Log(crc, rs)[..n], pos).end == pos + |Log(crc, whole)|
    decreases |rs|
  {
    hide Parse, Frame, HeaderBytes;
    var log := Log(crc, rs);
    if rs == [] {
      whole := [];
      assert log[..n] == [];
    } else {
      var f, rest := Frame(crc, rs[0]), Log(crc, rs[1..]);
      if n < |f| {
        whole := [];
        assert log[..n] == f[..n];
        ParseTorn(crc, rs[0], f[..n]);
      } else {
        var tail := CutLog(crc, rs[1..], n - |f|, pos + |f|);
        whole := [rs[0]] + tail;
        assert whole[1..] == tail;
        assert Log(crc, whole) == f + Log(crc, tail);
        assert log[..n] == f + rest[..n - |f|];
        ScanOne(crc, rs[0], rest[..n - |f|], pos);
      }
    }
  }

  /** A crash may cut a log anywhere past its synced prefix; the scan then stops at a record boundary and keeps all of
      that prefix. */
  lemma ScanAfterCut(crc: Checksum, data: seq<byte>, synced: nat, n: nat)
    requires synced <= n <= |data| && IsLog(crc, data) && IsLog(crc, data[..synced])
    ensures var end := ScanFrom(crc, data[..n], 0).end;
            synced <= end <= n && IsLog(crc, data[..end])
  {
    hide ScanFrom, Frame;
    var rs :| AllValid(rs) && data == Log(crc, rs);
    var whole := CutLog(crc, rs, n, 0);
    assert Log(crc, whole) == data[..|Log(crc, whole)|];
    ScanKeepsLog(crc, data[..synced], data[synced..n]);
    assert data[..synced] + data[synced..n] == data[..n];
  }

  lemma ScanKeepsLog(crc: Checksum, log: seq<byte>, rest: seq<byte>)
    requires IsLog(crc, log)
    ensures |log| <= ScanFrom(crc, log + rest, 0).end
  {
    hide Parse, Frame, HeaderBytes;
    var rs :| AllValid(rs) && log == Log(crc, rs);
    ScanThroughLog(crc, rs, rest, 0);
  }

  /** The tests Scan makes, in its order, on the bytes at pos. */
  lemma ParseAt(crc: Checksum, data: seq<byte>, pos: nat)
    requires pos <= |data|
    ensures |data| - pos < HEADER_SIZE + TRAILER_SIZE ==> Parse(crc, data[pos..]) == None
    ensures |data| - pos >= HEADER_SIZE + TRAILER_SIZE ==>
      var h := DecodeHeader(data[pos..]);
      var crcOff := pos + HEADER_SIZE + h.length;
      Parse(crc, data[pos..]) ==
        if FromLE(data[pos..pos + 4]) == MAGIC && data[pos + 4] == VERSION && crcOff + TRAILER_SIZE <= |data|
           && FromLE(data[crcOff..crcOff + 4]) == crc(data[pos + 4..crcOff])
        then Some(h) else None
  {
    hide FromLE;
    var b := data[pos..];
    if |b| >= HEADER_SIZE + TRAILER_SIZE {
      var crcOff := HEADER_SIZE + DecodeHeader(b).length;
      assert b[0..4] == data[pos..pos + 4];
      if crcOff + TRAILER_SIZE <= |b| {
        assert b[crcOff..crcOff + 4] == data[pos + crcOff..pos + crcOff + 4];
        assert b[4..crcOff] == data[pos + 4..pos + crcOff];
      }
    }
  }

  lemma ScanStep(crc: Checksum, data: seq<byte>, pos: nat, h: Header)
    requires pos <= |data| && Parse(crc, data[pos..]) == Some(h)
    ensures var next := pos + HEADER_SIZE + h.length + TRAILER_SIZE;
            next <= |data|
            && var after := ScanFrom(crc, data[next..], next);
               ScanFrom(crc, data[pos..], pos) == ScanResult([Visit(h, pos + HEADER_SIZE)] + after.visits, after.end)
  {
    hide Parse;
    var next := pos + HEADER_SIZE + h.length + TRAILER_SIZE;
    assert data[pos..][next - pos..] == data[next..];
  }

  /** Segment.Scan: a loop that advances a position over the file's bytes. */
  method Scan(crc: Checksum, data: seq<byte>) returns (visits: seq<Visit>, truncateAt: nat)
    ensures ScanResult(visits, truncateAt) == ScanFrom(crc, data, 0)
  {
    hide Parse, DecodeHeader, FromLE;
    var pos := 0;
    visits := [];
    assert data[0..] == data;
    while pos < |data|
      invariant pos <= |data|
      invariant var after := ScanFrom(crc, data[pos..], pos);
                ScanFrom(crc, data, 0) == ScanResult(visits + after.visits, after.end)
    {
      ParseAt(crc, data, pos);
      if |data| - pos < HEADER_SIZE + TRAILER_SIZE {
        return visits, pos;
      }
      if FromLE(data[pos..pos + 4]) != MAGIC {
        return visits, pos;
      }
      if data[pos + 4] != VERSION {
        return visits, pos;
      }
      var h := DecodeHeader(data[pos..]);
      var recordEnd := pos + HEADER_SIZE + h.length + TRAILER_SIZE;
      if recordEnd > |data| {
        return visits, pos;
      }
      var crcOff := pos + HEADER_SIZE + h.length;
      var want := FromLE(data[crcOff..crcOff + 4]);
      var got := crc(data[pos + 4..crcOff]);
      if got != want {
        return visits, pos;
      }
      ScanStep(crc, data, pos, h);
      visits := visits + [Visit(h, pos + HEADER_SIZE)];
      pos := recordEnd;
    }
    assert data[pos..] == [];
    truncateAt := pos;
  }
}
