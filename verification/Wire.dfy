/** The JLP wire format: frames, DP batches and work assignments, written by one side and read by the other. */
module Wire {
  import opened Arith
  import opened Digits
  import opened BigEndian
  import opened Limbs
  import opened FieldPow
  import opened ByteCodec
  import opened Results

  type U32 = x: int | 0 <= x < 0x1_0000_0000

  const DP_BATCH_V2: Byte := 0x24
  const WORK_ASN: Byte := 0x11
  const MAGIC: seq<Byte> := [75, 65, 78, 71]
  const HEADER_SIZE := 8
  const MAX_PAYLOAD := 65000
  const MAX_BATCH := 10000
  const DP_V2_SIZE := 78
  const WORK_ASN_SIZE := 109

  // ---- Little-endian integers ----

  function Le(n: nat, k: nat): (s: seq<Byte>)
    ensures |s| == k
  {
    if k == 0 then [] else [n % 256] + Le(n / 256, k - 1)
  }

  function LeNumber(s: seq<Byte>): nat {
    if s == [] then 0 else s[0] + 256 * LeNumber(s[1..])
  }

  lemma {:induction false} LeRead(n: nat, k: nat)
    requires n < Pow(256, k)
    ensures LeNumber(Le(n, k)) == n
  {
    if k > 0 {
      DivBelow(n, 256, Pow(256, k - 1));
      LeRead(n / 256, k - 1);
      assert Le(n, k)[1..] == Le(n / 256, k - 1);
    }
  }

  lemma {:induction false} LeWrite(s: seq<Byte>)
    ensures LeNumber(s) < Pow(256, |s|) && Le(LeNumber(s), |s|) == s
  {
    if s != [] {
      LeWrite(s[1..]);
      DivModUnique(LeNumber(s), 256, LeNumber(s[1..]), s[0]);
    }
  }

  /** The next byte up is a shift away. */
  lemma {:induction false} LeSnoc(n: nat, k: nat)
    ensures Pow(256, k) > 0 && Le(n, k + 1) == Le(n, k) + [n / Pow(256, k) % 256]
    decreases k
  {
    PowPositive(256, k);
    if k > 0 {
      PowPositive(256, k - 1);
      LeSnoc(n / 256, k - 1);
      DivDiv(n, 256, Pow(256, k - 1));
    }
  }

  lemma LeNone(n: nat)
    ensures Le(n, 0) == []
  {}

  lemma LePowers()
    ensures Pow(256, 1) == 256 && Pow(256, 2) == 0x1_0000 && Pow(256, 4) == 0x1_0000_0000 && Pow(256, 8) == B
  {
    assert Pow(256, 1) == 256 * Pow(256, 0);
    PowAdd(256, 2, 2);
    PowAdd(256, 4, 4);
  }

  // ---- Distinguished points ----

  /** A point as the solver submits it. */
  datatype Submitted = Submitted(x: Bytes32, d: Bytes32, kind: Byte, dpBits: U64)

  /** A point tagged for the wire. */
  datatype Tagged = Tagged(workId: U64, sequence: U32, x: Bytes32, d: Bytes32, kind: Byte, dpBits: Byte)

  function Tag(workId: U64, sequence: U32, p: Submitted): Tagged {
    Tagged(workId, sequence, p.x, p.d, p.kind, p.dpBits % 256)
  }

  /** The packed 78-byte entry. */
  function Entry(t: Tagged): (s: seq<Byte>)
    ensures |s| == DP_V2_SIZE
  {
    Le(t.workId, 8) + Le(t.sequence, 4) + t.x + t.d + [t.kind, t.dpBits]
  }

  function ParseEntry(s: seq<Byte>): Tagged
    requires |s| == DP_V2_SIZE
  {
    LeWrite(s[0..8]);
    LeWrite(s[8..12]);
    LePowers();
    Tagged(LeNumber(s[0..8]), LeNumber(s[8..12]), s[12..44], s[44..76], s[76], s[77])
  }

  lemma EntryRoundTrip(t: Tagged)
    ensures ParseEntry(Entry(t)) == t
  {
    hide Le, LeNumber;
    var s := Entry(t);
    LePowers();
    LeRead(t.workId, 8);
    LeRead(t.sequence, 4);
    assert s[0..8] == Le(t.workId, 8) && s[8..12] == Le(t.sequence, 4) && s[12..44] == t.x && s[44..76] == t.d;
  }

  lemma EntryRoundTripBytes(s: seq<Byte>)
    requires |s| == DP_V2_SIZE
    ensures Entry(ParseEntry(s)) == s
  {
    hide Le, LeNumber;
    LeWrite(s[0..8]);
    LeWrite(s[8..12]);
    assert s == s[0..8] + s[8..12] + s[12..44] + s[44..76] + [s[76], s[77]];
  }

  /** Where the fields of a point lie. */
  lemma EntryLayout(t: Tagged)
    ensures var s := Entry(t);
      && LeNumber(s[0..8]) == t.workId && LeNumber(s[8..12]) == t.sequence && s[12..44] == t.x && s[44..76] == t.d
      && s[76] == t.kind && s[77] == t.dpBits
  {
    hide Le, LeNumber;
    LePowers();
    LeRead(t.workId, 8);
    LeRead(t.sequence, 4);
    assert Entry(t)[0..8] == Le(t.workId, 8) && Entry(t)[8..12] == Le(t.sequence, 4);
  }

  function Entries(batch: seq<Tagged>): (s: seq<Byte>)
    ensures |s| == DP_V2_SIZE * |batch|
  {
    if batch == [] then [] else Entries(batch[..|batch| - 1]) + Entry(batch[|batch| - 1])
  }

  /** Where entry i lies. */
  lemma {:induction false} EntryAt(batch: seq<Tagged>, i: nat)
    requires i < |batch|
    ensures Entries(batch)[DP_V2_SIZE * i..DP_V2_SIZE * i + DP_V2_SIZE] == Entry(batch[i])
    decreases |batch|
  {
    var front := batch[..|batch| - 1];
    if i < |front| { EntryAt(front, i); }
  }

  // ---- DP batches ----

  /** The client's payload: a little-endian count, then the entries. */
  function Payload(batch: seq<Tagged>): (s: seq<Byte>)
    ensures |s| == 4 + DP_V2_SIZE * |batch|
  {
    Le(|batch| % 0x1_0000_0000, 4) + Entries(batch)
  }

  /** The bytes of a payload. */
  lemma PayloadLayout(batch: seq<Tagged>, i: nat)
    requires i < |batch| < 0x1_0000_0000
    ensures LeNumber(Payload(batch)[0..4]) == |batch| && Payload(batch)[4 + 78 * i..4 + 78 * i + 78] == Entry(batch[i])
  {
    hide Le, LeNumber, Entry, Entries;
    LePowers();
    LeRead(|batch|, 4);
    EntryAt(batch, i);
    var p := Payload(batch);
    assert p[0..4] == Le(|batch|, 4) && p[4..] == Entries(batch);
    assert p[4 + 78 * i..4 + 78 * i + 78] == p[4..][78 * i..78 * i + 78];
  }

  /** The bytes of entry i of a payload. */
  function EntryBytes(data: seq<Byte>, i: nat): (s: seq<Byte>)
    requires 4 + DP_V2_SIZE * (i + 1) <= |data|
    ensures |s| == DP_V2_SIZE
  {
    data[4 + DP_V2_SIZE * i..4 + DP_V2_SIZE * i + DP_V2_SIZE]
  }

  function ParsedEntries(data: seq<Byte>, count: nat): (dps: seq<Tagged>)
    requires 4 + DP_V2_SIZE * count <= |data|
    ensures |dps| == count && forall i :: 0 <= i < count ==> dps[i] == ParseEntry(EntryBytes(data, i))
  {
    seq(count, i requires 0 <= i < count => ParseEntry(EntryBytes(data, i)))
  }

  function ParsedBatch(data: seq<Byte>): Result<seq<Tagged>> {
    if |data| < 4 then Err("DP_BATCH_V2 payload too short") else
      var count := LeNumber(data[..4]);
      if count > MAX_BATCH then Err("Batch count exceeds max")
      else if |data| < 4 + count * DP_V2_SIZE then Err("DP_BATCH_V2 truncated")
      else Ok(ParsedEntries(data, count))
  }

  method ParseDpBatchV2(data: seq<Byte>) returns (r: Result<seq<Tagged>>)
    ensures r == ParsedBatch(data)
  {
    hide LeNumber, ParseEntry;
    if |data| < 4 { return Err("DP_BATCH_V2 payload too short"); }
    var count := LeNumber(data[..4]);
    if count > MAX_BATCH { return Err("Batch count exceeds max"); }
    var expected := 4 + count * DP_V2_SIZE;
    if |data| < expected { return Err("DP_BATCH_V2 truncated"); }
    var dps: seq<Tagged> := [];
    var offset := 4;
    for n := 0 to count
      invariant offset == 4 + DP_V2_SIZE * n && |dps| == n
      invariant forall i :: 0 <= i < n ==> dps[i] == ParseEntry(EntryBytes(data, i))
    {
      dps := dps + [ParseEntry(data[offset..offset + DP_V2_SIZE])];
      offset := offset + DP_V2_SIZE;
    }
    assert dps == ParsedEntries(data, count);
    return Ok(dps);
  }

  /** What the server parses from a client payload, whatever bytes follow it, is the batch. */
  lemma BatchRoundTrip(batch: seq<Tagged>, rest: seq<Byte>)
    ensures |batch| <= MAX_BATCH ==> ParsedBatch(Payload(batch) + rest) == Ok(batch)
    ensures MAX_BATCH < |batch| < 0x1_0000_0000 ==> ParsedBatch(Payload(batch) + rest).Err?
  {
    hide Le, LeNumber, ParseEntry, Entry, Entries;
    var data := Payload(batch) + rest;
    var n := |batch| % 0x1_0000_0000;
    LePowers();
    LeRead(n, 4);
    assert data[..4] == Le(n, 4);
    if |batch| <= MAX_BATCH {
      forall i | 0 <= i < |batch| ensures ParseEntry(EntryBytes(data, i)) == batch[i] {
        EntryAt(batch, i);
        EntryRoundTrip(batch[i]);
        assert EntryBytes(data, i) == Entries(batch)[DP_V2_SIZE * i..DP_V2_SIZE * i + DP_V2_SIZE];
      }
      assert ParsedEntries(data, |batch|) == batch;
    }
  }

  /** Whatever the server accepts is, byte for byte, a client payload of the batch it parsed. */
  lemma AcceptedIsPayload(data: seq<Byte>)
    requires ParsedBatch(data).Ok?
    ensures Payload(ParsedBatch(data).value) <= data
  {
    hide Le, LeNumber, ParseEntry, Entry;
    var batch := ParsedBatch(data).value;
    LeWrite(data[..4]);
    forall i | 0 <= i < |batch| ensures data[4..][DP_V2_SIZE * i..DP_V2_SIZE * i + DP_V2_SIZE] == EntryBytes(data, i) {}
    EntriesFrom(batch, data[4..]);
  }

  lemma {:induction false} EntriesFrom(batch: seq<Tagged>, s: seq<Byte>)
    requires |s| >= DP_V2_SIZE * |batch|
    requires forall i :: 0 <= i < |batch| ==> batch[i] == ParseEntry(s[DP_V2_SIZE * i..DP_V2_SIZE * i + DP_V2_SIZE])
    ensures Entries(batch) == s[..DP_V2_SIZE * |batch|]
    decreases |batch|
  {
    hide ParseEntry, Entry;
    if batch != [] {
      var k := |batch| - 1;
      EntriesFrom(batch[..k], s);
      EntryRoundTripBytes(s[DP_V2_SIZE * k..DP_V2_SIZE * k + DP_V2_SIZE]);
    }
  }

  // ---- Frames ----

  /** The client's header; the length is truncated to 16 bits. */
  function Header(kind: Byte, size: nat): (s: seq<Byte>)
    ensures |s| == HEADER_SIZE
  {
    MAGIC + [kind, 0] + Le(size % 0x1_0000, 2)
  }

  datatype HeaderFields = HeaderFields(kind: Byte, flags: Byte, size: nat)

  function ParseHeader(data: seq<Byte>): Result<HeaderFields> {
    if |data| < HEADER_SIZE then Err("Header too short")
    else if data[..4] != MAGIC then Err("Bad magic")
    else Ok(HeaderFields(data[4], data[5], LeNumber(data[6..8])))
  }

  lemma HeaderRoundTrip(kind: Byte, size: nat)
    ensures ParseHeader(Header(kind, size)) == Ok(HeaderFields(kind, 0, size % 0x1_0000))
  {
    hide Le, LeNumber;
    LePowers();
    LeRead(size % 0x1_0000, 2);
    var h := Header(kind, size);
    assert h[..4] == MAGIC && h[6..8] == Le(size % 0x1_0000, 2);
  }

  /** The bytes of a frame. */
  lemma FrameLayout(m: Message)
    ensures var s := Frame(m);
      && |s| == 8 + |m.payload| && s[..4] == [0x4b, 0x41, 0x4e, 0x47] && s[4] == m.kind && s[5] == 0
      && LeNumber(s[6..8]) == |m.payload| % 0x1_0000 && s[8..] == m.payload
  {
    hide Le, LeNumber;
    LePowers();
    LeRead(|m.payload| % 0x1_0000, 2);
    assert Frame(m)[6..8] == Le(|m.payload| % 0x1_0000, 2);
  }

  datatype Message = Message(kind: Byte, payload: seq<Byte>)

  /** What one side puts on the stream for a message. */
  function Frame(m: Message): seq<Byte> {
    Header(m.kind, |m.payload|) + m.payload
  }

  /** One message off the front of the stream, and what is left; an error where the reader gives up. */
  function ReadFrame(stream: seq<Byte>): Result<(Message, seq<Byte>)> {
    if |stream| < HEADER_SIZE then Err("Incomplete read") else
      match ParseHeader(stream[..HEADER_SIZE])
      case Err(e) => Err(e)
      case Ok(h) =>
        if h.size > MAX_PAYLOAD then Err("Payload too large")
        else if |stream| < HEADER_SIZE + h.size then Err("Incomplete read")
        else Ok((Message(h.kind, stream[HEADER_SIZE..HEADER_SIZE + h.size]), stream[HEADER_SIZE + h.size..]))
  }

  /** Everything a reader gets from a stream before it ends or goes wrong. */
  function ReadAll(stream: seq<Byte>): seq<Message>
    decreases |stream|
  {
    match ReadFrame(stream)
    case Err(_) => []
    case Ok((m, rest)) => [m] + ReadAll(rest)
  }

  function Stream(messages: seq<Message>): seq<Byte> {
    if messages == [] then [] else Frame(messages[0]) + Stream(messages[1..])
  }

  lemma FrameRoundTrip(m: Message, rest: seq<Byte>)
    requires |m.payload| <= MAX_PAYLOAD
    ensures ReadFrame(Frame(m) + rest) == Ok((m, rest))
  {
    hide Header, ParseHeader;
    HeaderRoundTrip(m.kind, |m.payload|);
    assert (Frame(m) + rest)[..HEADER_SIZE] == Header(m.kind, |m.payload|);
  }

  /** A reader gets back exactly the messages written to the stream, in order. */
  lemma {:induction false} StreamRoundTrip(messages: seq<Message>)
    requires forall i :: 0 <= i < |messages| ==> |messages[i].payload| <= MAX_PAYLOAD
    ensures ReadAll(Stream(messages)) == messages
  {
    hide ReadFrame, Frame;
    if messages == [] {
      StreamEnd();
    } else {
      FrameRoundTrip(messages[0], Stream(messages[1..]));
      StreamRoundTrip(messages[1..]);
    }
  }

  lemma StreamEnd()
    ensures ReadFrame([]).Err?
  {}

  /** The 16-bit length holds a batch of at most 840 points, and no larger one. */
  lemma BatchFitsIff(batch: seq<Tagged>)
    ensures ParseHeader(Header(DP_BATCH_V2, |Payload(batch)|))
         == Ok(HeaderFields(DP_BATCH_V2, 0, |Payload(batch)| % 0x1_0000))
    ensures |Payload(batch)| % 0x1_0000 == |Payload(batch)| <==> |batch| <= 840
  {
    hide Payload, Header, ParseHeader;
    HeaderRoundTrip(DP_BATCH_V2, |Payload(batch)|);
  }

  // ---- The sender's batches, end to end ----

  /** The points of one batch, tagged with one work id and consecutive 32-bit sequence numbers. */
  function TagAll(workId: U64, start: U32, dps: seq<Submitted>): (batch: seq<Tagged>)
    ensures |batch| == |dps|
    ensures forall i :: 0 <= i < |dps| ==> batch[i] == Tag(workId, (start + i) % 0x1_0000_0000, dps[i])
  {
    seq(|dps|, i requires 0 <= i < |dps| => Tag(workId, (start + i) % 0x1_0000_0000, dps[i]))
  }

  /** A batch of at most 100 points arrives as sent: framed, read back and parsed. */
  lemma BatchArrives(workId: U64, start: U32, dps: seq<Submitted>, rest: seq<Byte>)
    requires |dps| <= 100
    ensures var batch := TagAll(workId, start, dps);
            var read := ReadFrame(Frame(Message(DP_BATCH_V2, Payload(batch))) + rest);
            && |Payload(batch)| <= 7804
            && read == Ok((Message(DP_BATCH_V2, Payload(batch)), rest))
            && ParsedBatch(read.value.0.payload) == Ok(batch)
  {
    hide ReadFrame, Frame, Payload, TagAll, ParsedBatch;
    var batch := TagAll(workId, start, dps);
    FrameRoundTrip(Message(DP_BATCH_V2, Payload(batch)), rest);
    BatchRoundTrip(batch, []);
    assert Payload(batch) + [] == Payload(batch);
  }

  // ---- Work assignments ----

  datatype Work = Work(publicKey: seq<Byte>, rangeStart: Bytes32, rangeEnd: Bytes32, dpBits: U32, workId: U64)

  /** The server's payload. */
  function PackWork(w: Work): (s: seq<Byte>)
    requires |w.publicKey| == 33
    ensures |s| == WORK_ASN_SIZE
  {
    w.publicKey + w.rangeStart + w.rangeEnd + Le(w.dpBits, 4) + Le(w.workId, 8)
  }

  /** What the client copies out of the payload; shorter payloads are ignored. */
  function ParseWork(s: seq<Byte>): Option<Work> {
    if |s| < WORK_ASN_SIZE then None else
      LeWrite(s[97..101]);
      LeWrite(s[101..109]);
      LePowers();
      Some(Work(s[0..33], s[33..65], s[65..97], LeNumber(s[97..101]), LeNumber(s[101..109])))
  }

  lemma FiveSlices<T>(a: seq<T>, b: seq<T>, c: seq<T>, d: seq<T>, e: seq<T>)
    requires |a| == 33 && |b| == |c| == 32 && |d| == 4 && |e| == 8
    ensures var s := a + b + c + d + e;
            s[0..33] == a && s[33..65] == b && s[65..97] == c && s[97..101] == d && s[101..109] == e
  {}

  /** Where the fields of an assignment lie. */
  lemma WorkLayout(w: Work)
    requires |w.publicKey| == 33
    ensures var s := PackWork(w);
      && s[0..33] == w.publicKey && s[33..65] == w.rangeStart && s[65..97] == w.rangeEnd
      && LeNumber(s[97..101]) == w.dpBits && LeNumber(s[101..109]) == w.workId
  {
    hide Le, LeNumber;
    LePowers();
    LeRead(w.dpBits, 4);
    LeRead(w.workId, 8);
    FiveSlices(w.publicKey, w.rangeStart, w.rangeEnd, Le(w.dpBits, 4), Le(w.workId, 8));
  }

  lemma WorkRoundTrip(w: Work)
    requires |w.publicKey| == 33
    ensures ParseWork(PackWork(w)) == Some(w)
  {
    hide Le, LeNumber;
    var s := PackWork(w);
    LePowers();
    LeRead(w.dpBits, 4);
    LeRead(w.workId, 8);
    FiveSlices(w.publicKey, w.rangeStart, w.rangeEnd, Le(w.dpBits, 4), Le(w.workId, 8));
  }
}
