/** The b2log framing that every reader of an access log shares: a 24-byte little-endian header
    (magic, version, payload length, compressed length, timestamp) followed by the payload.

    `Parse` is the specification of `b2log.BuffParse`: it takes whole frames off the front of a
    buffer, drops one byte at a time while the header is not acceptable (so it resumes at the
    next good header), and keeps an incomplete frame for the next call. */
module B2log {
  import opened Framing

  const HEADER_SIZE: nat := 24
  const MAX_RECORD_SIZE: nat := 102400
  const MAGIC: nat := 0xB0AEBEA7

  /** The 32-bit little-endian word that starts at position i. */
  function Word(b: Bytes, i: nat): (w: nat)
    requires i + 4 <= |b|
  {
    var b0: int, b1: int, b2: int, b3: int := b[i], b[i + 1], b[i + 2], b[i + 3];
    b0 + 256 * b1 + 65536 * b2 + 16777216 * b3
  }

  predicate MagicAt(b: Bytes, i: nat) {
    i + 4 <= |b| && Word(b, i) == MAGIC
  }

  /** A header the decoder accepts: right magic, and lengths within the limit for one record. */
  predicate ValidHeader(b: Bytes) {
    && |b| >= HEADER_SIZE
    && MagicAt(b, 0)
    && Word(b, 8) <= MAX_RECORD_SIZE
    && Word(b, 12) <= MAX_RECORD_SIZE
  }

  predicate Compressed(b: Bytes)
    requires ValidHeader(b)
  {
    Word(b, 12) != 0
  }

  /** Header and body together, as announced by the header. */
  function FrameSize(b: Bytes): (n: nat)
    requires ValidHeader(b)
    ensures HEADER_SIZE <= n <= HEADER_SIZE + MAX_RECORD_SIZE
  {
    HEADER_SIZE + if Compressed(b) then Word(b, 12) else Word(b, 8)
  }

  /** What the parser does with the front of its buffer. */
  datatype Action =
    | Wait                          // the buffer may be the start of a frame: keep all of it
    | Skip(n: nat)                  // a dirty byte, or a whole compressed record
    | Frame(n: nat, payload: Bytes) // one record

  function Next(buf: Bytes): (a: Action)
    ensures a.Skip? || a.Frame? ==> 0 < a.n <= |buf|
    ensures a.Frame? ==> a.n >= HEADER_SIZE
  {
    if |buf| < HEADER_SIZE then Wait
    else if !ValidHeader(buf) then Skip(1)
    else if |buf| < FrameSize(buf) then Wait
    else if Compressed(buf) then Skip(FrameSize(buf))
    else Frame(FrameSize(buf), buf[HEADER_SIZE..FrameSize(buf)])
  }

  function Parse(buf: Bytes): Parsed
    decreases |buf|
  {
    match Next(buf)
    case Wait => Parsed([], buf)
    case Skip(n) => Parse(buf[n..])
    case Frame(n, payload) =>
      var tail := Parse(buf[n..]);
      Parsed([payload] + tail.frames, tail.rest)
  }

  function Frames(buf: Bytes): seq<Bytes> {
    Parse(buf).frames
  }

  function Rest(buf: Bytes): Bytes {
    Parse(buf).rest
  }

  // ---------------------------------------------------------------- parsing in pieces

  /** Once the parser acts on a buffer, more bytes behind it do not change the action. */
  lemma NextIsStable(a: Bytes, b: Bytes)
    requires Next(a) != Wait
    ensures Next(a + b) == Next(a)
  {
    assert forall i :: 0 <= i < |a| ==> (a + b)[i] == a[i];
    if ValidHeader(a) {
      assert ValidHeader(a + b) && FrameSize(a + b) == FrameSize(a);
      assert (a + b)[HEADER_SIZE..FrameSize(a)] == a[HEADER_SIZE..FrameSize(a)];
    }
  }

  /** The law of the parser: parsing `a + b` is parsing `a`, then parsing what was left
      followed by `b`. */
  lemma {:induction false} ParseAppend(a: Bytes, b: Bytes)
    ensures Frames(a + b) == Frames(a) + Frames(Rest(a) + b)
    ensures Rest(a + b) == Rest(Rest(a) + b)
    decreases |a|
  {
    if Next(a) != Wait {
      var n := Next(a).n;
      NextIsStable(a, b);
      assert (a + b)[n..] == a[n..] + b;
      ParseAppend(a[n..], b);
    }
  }

  /** What is left over is a suffix of the buffer, cannot be parsed further, is shorter than one
      record of maximal size, and every frame has used up at least a header. */
  lemma {:induction false} RestIsIdle(buf: Bytes)
    ensures Next(Rest(buf)) == Wait
    ensures Frames(Rest(buf)) == [] && Rest(Rest(buf)) == Rest(buf)
    ensures |Rest(buf)| < HEADER_SIZE + MAX_RECORD_SIZE
    ensures |Rest(buf)| + HEADER_SIZE * |Frames(buf)| <= |buf|
    ensures Rest(buf) == buf[|buf| - |Rest(buf)|..]
    decreases |buf|
  {
    if Next(buf) != Wait {
      var n := Next(buf).n;
      RestIsIdle(buf[n..]);
      assert buf[n..][|buf[n..]| - |Rest(buf)|..] == buf[|buf| - |Rest(buf)|..];
    }
  }

  /** The framer the readers are given. */
  const B2LOG := Framer(b => Parse(b))

  lemma B2logIsLawful()
    ensures B2LOG.Lawful()
  {
    forall a: Bytes, b: Bytes
      ensures B2LOG.SplitsAt(a, b)
    {
      ParseAppend(a, b);
    }
    forall b: Bytes
      ensures B2LOG.KeepsTail(b)
    {
      RestIsIdle(b);
    }
  }

  // ---------------------------------------------------------------- writing and resync

  function WordBytes(w: nat): (b: Bytes)
    requires w < 0x1_0000_0000
    ensures |b| == 4 && Word(b, 0) == w
  {
    var q1 := w / 256;
    var q2 := q1 / 256;
    [w % 256, q1 % 256, q2 % 256, q2 / 256]
  }

  /** A header that announces a payload of `length` bytes, compressed to `packed` bytes if that is
      not 0. */
  function Header(version: Bytes, length: nat, packed: nat, stamp: Bytes): (b: Bytes)
    requires |version| == 4 && |stamp| == 8 && length <= MAX_RECORD_SIZE && packed <= MAX_RECORD_SIZE
    ensures |b| == HEADER_SIZE
  {
    WordBytes(MAGIC) + version + WordBytes(length) + WordBytes(packed) + stamp
  }

  /** A record as the log writer puts it in the file. */
  function Encode(version: Bytes, stamp: Bytes, payload: Bytes): (b: Bytes)
    requires |version| == 4 && |stamp| == 8 && |payload| <= MAX_RECORD_SIZE
    ensures |b| == HEADER_SIZE + |payload|
  {
    Header(version, |payload|, 0, stamp) + payload
  }

  lemma WordAt(before: Bytes, w: nat, after: Bytes)
    requires w < 0x1_0000_0000
    ensures Word(before + WordBytes(w) + after, |before|) == w
  {
    var b := before + WordBytes(w) + after;
    assert forall j :: 0 <= j < 4 ==> b[|before| + j] == WordBytes(w)[j];
  }

  lemma HeaderReadsBack(version: Bytes, length: nat, packed: nat, stamp: Bytes, body: Bytes)
    requires |version| == 4 && |stamp| == 8 && length <= MAX_RECORD_SIZE && packed <= MAX_RECORD_SIZE
    ensures var b := Header(version, length, packed, stamp) + body;
      ValidHeader(b) && Word(b, 8) == length && Word(b, 12) == packed
  {
    var b := Header(version, length, packed, stamp) + body;
    var m, n, z := WordBytes(MAGIC), WordBytes(length), WordBytes(packed);
    assert b == [] + m + (version + n + z + stamp + body);
    WordAt([], MAGIC, version + n + z + stamp + body);
    assert b == (m + version) + n + (z + stamp + body);
    WordAt(m + version, length, z + stamp + body);
    assert b == (m + version + n) + z + (stamp + body);
    WordAt(m + version + n, packed, stamp + body);
  }

  lemma EncodeIsOneFrame(version: Bytes, stamp: Bytes, payload: Bytes, tail: Bytes)
    requires |version| == 4 && |stamp| == 8 && |payload| <= 102400
    ensures Next(Encode(version, stamp, payload) + tail) == Frame(HEADER_SIZE + |payload|, payload)
    ensures Parse(Encode(version, stamp, payload) + tail)
         == Parsed([payload] + Frames(tail), Rest(tail))
  {
    var head := Header(version, |payload|, 0, stamp);
    var b := head + payload + tail;
    assert b == head + (payload + tail);
    HeaderReadsBack(version, |payload|, 0, stamp, payload + tail);
    assert b[HEADER_SIZE..HEADER_SIZE + |payload|] == payload;
    assert b[HEADER_SIZE + |payload|..] == tail;
  }

  /** What the bytes of a record are: the magic number, 4 bytes of version, the length and a zero as
      little-endian words, 8 bytes of timestamp, and up to 100 KB of payload. */
  ghost predicate IsRecord(b: Bytes, payload: Bytes) {
    && |b| == 24 + |payload| && |payload| <= 102400 && b[24..] == payload
    && b[0] == 0xA7 && b[1] == 0xBE && b[2] == 0xAE && b[3] == 0xB0
    && b[8] as int + 256 * b[9] as int + 65536 * b[10] as int + 16777216 * b[11] as int == |payload|
    && b[12] == 0 && b[13] == 0 && b[14] == 0 && b[15] == 0
  }

  /** Any such bytes are one frame, whatever follows them. */
  lemma RecordIsOneFrame(b: Bytes, payload: Bytes, tail: Bytes)
    requires IsRecord(b, payload)
    ensures Parse(b + tail) == Parsed([payload] + Frames(tail), Rest(tail))
  {
    var buf := b + tail;
    assert forall i :: 0 <= i < 24 ==> buf[i] == b[i];
    assert buf[24..24 + |payload|] == payload;
    assert Next(buf) == Frame(24 + |payload|, payload);
    assert buf[24 + |payload|..] == tail;
  }

  /** A compressed record is dropped whole, and nothing behind it is. */
  lemma CompressedRecordIsSkipped(version: Bytes, length: nat, stamp: Bytes, body: Bytes, tail: Bytes)
    requires |version| == 4 && |stamp| == 8 && length <= MAX_RECORD_SIZE
    requires 0 < |body| <= MAX_RECORD_SIZE
    ensures Parse(Header(version, length, |body|, stamp) + body + tail) == Parse(tail)
  {
    var head := Header(version, length, |body|, stamp);
    var b := head + body + tail;
    assert b == head + (body + tail);
    HeaderReadsBack(version, length, |body|, stamp, body + tail);
    assert Next(b) == Skip(HEADER_SIZE + |body|);
    assert b[HEADER_SIZE + |body|..] == tail;
  }

  /** However much of a record has been read, as long as something is missing all of it is kept. */
  lemma UnfinishedRecordIsKept(version: Bytes, stamp: Bytes, payload: Bytes, n: nat)
    requires |version| == 4 && |stamp| == 8 && |payload| <= 102400
    requires n < 24 + |payload|
    ensures Parse(Encode(version, stamp, payload)[..n]) == Parsed([], Encode(version, stamp, payload)[..n])
  {
    var part := Encode(version, stamp, payload)[..n];
    if n >= HEADER_SIZE {
      var body := payload[..n - HEADER_SIZE];
      assert part == Header(version, |payload|, 0, stamp) + body;
      HeaderReadsBack(version, |payload|, 0, stamp, body);
      assert Next(part) == Wait;
    }
  }

  datatype Stamped = Stamped(version: Bytes, stamp: Bytes, payload: Bytes) {
    predicate Valid() {
      |version| == 4 && |stamp| == 8 && |payload| <= 102400
    }
  }

  function EncodeAll(rs: seq<Stamped>): Bytes
    requires forall i :: 0 <= i < |rs| ==> rs[i].Valid()
  {
    if rs == [] then []
    else
      assert rs[0].Valid();
      Encode(rs[0].version, rs[0].stamp, rs[0].payload) + EncodeAll(rs[1..])
  }

  function Payloads(rs: seq<Stamped>): seq<Bytes> {
    seq(|rs|, i requires 0 <= i < |rs| => rs[i].payload)
  }

  /** Reading back what was written: every record comes out once, in order, nothing is left. */
  lemma {:induction false} WrittenRecordsParseBack(rs: seq<Stamped>)
    requires forall i :: 0 <= i < |rs| ==> rs[i].Valid()
    ensures Parse(EncodeAll(rs)) == Parsed(Payloads(rs), [])
  {
    if rs != [] {
      assert rs[0].Valid();
      WrittenRecordsParseBack(rs[1..]);
      EncodeIsOneFrame(rs[0].version, rs[0].stamp, rs[0].payload, EncodeAll(rs[1..]));
      assert Payloads(rs) == [rs[0].payload] + Payloads(rs[1..]);
    }
  }

  /** Resync: bytes among which no acceptable header starts are dropped, and nothing behind them
      is. */
  lemma {:induction false} DirtIsSkipped(dirt: Bytes, s: Bytes)
    requires |s| >= HEADER_SIZE
    requires forall i :: 0 <= i < |dirt| ==> !ValidHeader((dirt + s)[i..])
    ensures Parse(dirt + s) == Parse(s)
  {
    if dirt == [] {
      assert dirt + s == s;
    } else {
      assert (dirt + s)[0..] == dirt + s;
      assert (dirt + s)[1..] == dirt[1..] + s;
      forall i | 0 <= i < |dirt[1..]|
        ensures !ValidHeader((dirt[1..] + s)[i..])
      {
        assert (dirt[1..] + s)[i..] == (dirt + s)[i + 1..];
      }
      DirtIsSkipped(dirt[1..], s);
    }
  }

  function Zeros(k: nat): (b: Bytes)
    ensures |b| == k
  {
    seq(k, _ => 0)
  }

  lemma MagicFirstByte(b: Bytes)
    requires MagicAt(b, 0)
    ensures b[0] == 0xA7
  {
    assert Word(b, 0) % 256 == b[0];
  }

  lemma ZerosAreSkipped(k: nat, s: Bytes)
    requires |s| >= HEADER_SIZE
    ensures Parse(Zeros(k) + s) == Parse(s)
  {
    var b := Zeros(k) + s;
    forall i | 0 <= i < k
      ensures !ValidHeader(b[i..])
    {
      assert b[i..][0] == 0;
      if ValidHeader(b[i..]) {
        MagicFirstByte(b[i..]);
      }
    }
    DirtIsSkipped(Zeros(k), s);
  }

  /** A record with version and timestamp zero. */
  function Plain(payload: Bytes): (b: Bytes)
    requires |payload| <= MAX_RECORD_SIZE
    ensures |b| == HEADER_SIZE + |payload|
  {
    Encode(Zeros(4), Zeros(8), payload)
  }

  lemma PlainParses(payload: Bytes, tail: Bytes)
    requires |payload| <= MAX_RECORD_SIZE
    ensures Parse(Plain(payload) + tail) == Parsed([payload] + Frames(tail), Rest(tail))
  {
    EncodeIsOneFrame(Zeros(4), Zeros(8), payload, tail);
  }

  // ---------------------------------------------------------------- cutting a stream in two

  /** The header of an empty record. */
  function EmptyRecord(): (b: Bytes)
    ensures |b| == HEADER_SIZE
    ensures b == WordBytes(MAGIC) + Zeros(20)
  {
    Plain([])
  }

  /** These bytes can be the beginning of a frame. */
  predicate Completable(l: Bytes) {
    l != [] && (|l| < HEADER_SIZE ==> ValidHeader(l + EmptyRecord()[|l|..]))
  }

  /** No frame can begin in what a parse of `c` leaves over. */
  predicate CleanSeam(c: Bytes) {
    forall i :: 0 <= i < |Rest(c)| ==> !Completable(Rest(c)[i..])
  }

  lemma HeaderCompletes(l: Bytes, d: Bytes)
    requires 0 < |l| < HEADER_SIZE
    requires ValidHeader(l + d)
    ensures Completable(l)
  {
    var x, y := l + d, l + EmptyRecord()[|l|..];
    var e := EmptyRecord();
    assert e[0] == 0xA7 && e[1] == 0xBE && e[2] == 0xAE && e[3] == 0xB0;
    assert x[0] == 0xA7 && x[1] == 0xBE && x[2] == 0xAE && x[3] == 0xB0;
    assert forall i :: 0 <= i < |l| ==> y[i] == x[i];
    assert forall i :: |l| <= i < HEADER_SIZE ==> y[i] == e[i];
    assert forall i :: 4 <= i < HEADER_SIZE ==> y[i] <= x[i];
  }

  /** A front that cannot begin a frame is dropped as soon as enough bytes follow it. */
  lemma HopelessByteIsDropped(l: Bytes, d: Bytes)
    requires 0 < |l| < HEADER_SIZE && !Completable(l)
    ensures Frames(l + d) == Frames(l[1..] + d)
  {
    assert (l + d)[1..] == l[1..] + d;
    if |l + d| >= HEADER_SIZE && ValidHeader(l + d) {
      HeaderCompletes(l, d);
    }
  }

  lemma {:induction false} HopelessRestAddsNothing(l: Bytes, d: Bytes)
    requires |l| < HEADER_SIZE
    requires forall i :: 0 <= i < |l| ==> !Completable(l[i..])
    ensures Frames(l + d) == Frames(d)
  {
    if l == [] {
      assert l + d == d;
    } else {
      assert l == l[0..];
      HopelessByteIsDropped(l, d);
      forall i | 0 <= i < |l[1..]|
        ensures !Completable(l[1..][i..])
      {
        assert l[1..][i..] == l[i + 1..];
      }
      HopelessRestAddsNothing(l[1..], d);
    }
  }

  lemma EmptyRecordParses()
    ensures ValidHeader(EmptyRecord())
    ensures Parse(EmptyRecord()) == Parsed([[]], [])
  {
    PlainParses([], []);
    assert EmptyRecord() + [] == EmptyRecord();
  }

  /** An empty record that follows an unfinished one is swallowed by it. */
  lemma UnfinishedFrameSwallows(l: Bytes)
    requires |l| >= HEADER_SIZE && Next(l) == Wait
    ensures Frames(l + EmptyRecord()) != [[]]
  {
    var x := l + EmptyRecord();
    assert forall i :: 0 <= i < |l| ==> x[i] == l[i];
    assert ValidHeader(x) && FrameSize(x) == FrameSize(l);
    var n := FrameSize(x);
    if |x| >= n {
      var tail := x[n..];
      assert |tail| < HEADER_SIZE;
      assert Parse(tail) == Parsed([], tail);
      if !Compressed(x) {
        var payload := x[HEADER_SIZE..n];
        assert Frames(x) == [payload] && |payload| > 0;
        assert Frames(x)[0] != [];
      }
    }
  }

  /** A record of which `k` bytes are missing takes them from whatever follows. */
  lemma UnfinishedRecordTakes(l: Bytes, k: nat, d: Bytes)
    requires ValidHeader(l) && !Compressed(l) && |l| + k == FrameSize(l) && 0 < k <= |d|
    ensures Frames(l + d) == [l[HEADER_SIZE..] + d[..k]] + Frames(d[k..])
  {
    var b := l + d;
    assert forall i :: 0 <= i < |l| ==> b[i] == l[i];
    assert Word(b, 0) == Word(l, 0) && Word(b, 8) == Word(l, 8) && Word(b, 12) == Word(l, 12);
    assert b[HEADER_SIZE..|l| + k] == l[HEADER_SIZE..] + d[..k];
    assert Next(b) == Frame(|l| + k, l[HEADER_SIZE..] + d[..k]);
    assert b[|l| + k..] == d[k..];
  }

  /** The last bytes of an empty header hold no magic, so the record behind them is found. */
  lemma TailOfHeaderIsDirt(k: nat)
    requires 4 <= k < HEADER_SIZE
    ensures Frames(EmptyRecord()[k..] + EmptyRecord()) == [[]]
  {
    assert EmptyRecord()[k..] == Zeros(HEADER_SIZE - k);
    ZerosAreSkipped(HEADER_SIZE - k, EmptyRecord());
    EmptyRecordParses();
  }

  lemma HeaderWithZeros(l: Bytes)
    requires 0 < |l| <= 8
    requires ValidHeader(l + EmptyRecord()[|l|..])
    ensures Next(l + EmptyRecord()[|l|..]) == Frame(HEADER_SIZE, [])
  {
    var h := l + EmptyRecord()[|l|..];
    assert forall i :: 8 <= i < 16 ==> h[i] == EmptyRecord()[i] == 0;
    assert h[HEADER_SIZE..HEADER_SIZE] == [];
  }

  lemma CompletableRestCanLose(l: Bytes) returns (d: Bytes)
    requires Next(l) == Wait && Completable(l)
    ensures Frames(l + d) != Frames(d)
  {
    var e := EmptyRecord();
    EmptyRecordParses();
    if |l| >= HEADER_SIZE {
      UnfinishedFrameSwallows(l);
      return e;
    }
    var h := l + e[|l|..];
    if FrameSize(h) > HEADER_SIZE {
      // The part of the header already read announces a body: only zeros are missing from it.
      if |l| <= 8 {
        HeaderWithZeros(l);
      }
      d := e[|l|..] + e;
      assert l + d == h + e;
      UnfinishedFrameSwallows(h);
      TailOfHeaderIsDirt(|l|);
    } else {
      d := e[|l|..];
      assert Frames(d) == [];
      assert h[HEADER_SIZE..] == [];
      assert |Frames(h)| == 1;
    }
  }

  lemma {:induction false} UncleanSeamCanLose(l: Bytes) returns (d: Bytes)
    requires Next(l) == Wait
    requires exists i :: 0 <= i < |l| && Completable(l[i..])
    ensures Frames(l + d) != Frames(d)
    decreases |l|
  {
    assert l[0..] == l;
    if Completable(l) {
      d := CompletableRestCanLose(l);
    } else {
      var i :| 0 <= i < |l| && Completable(l[i..]);
      assert l[1..][i - 1..] == l[i..];
      d := UncleanSeamCanLose(l[1..]);
      HopelessByteIsDropped(l, d);
    }
  }

  lemma CancelPrefix<T>(a: seq<T>, b: seq<T>, c: seq<T>)
    requires b != c
    ensures a + b != a + c
  {
    assert (a + b)[|a|..] == b && (a + c)[|a|..] == c;
  }

  /** Handing a stream over at the end of `c` to a parser that starts empty is lossless for
      every continuation exactly when no frame can begin in what was left over there. */
  lemma SeamIsLosslessIffClean(c: Bytes)
    ensures B2LOG.SeamlessAt(c) <==> CleanSeam(c)
  {
    var l := Rest(c);
    RestIsIdle(c);
    if CleanSeam(c) {
      forall d: Bytes
        ensures B2LOG.Frames(c + d) == B2LOG.Frames(c) + B2LOG.Frames(d)
      {
        CleanRestAddsNothing(c, d);
        ParseAppend(c, d);
      }
    } else {
      var d := UncleanSeamCanLose(l);
      ParseAppend(c, d);
      CancelPrefix(Frames(c), Frames(l + d), Frames(d));
      assert B2LOG.Frames(c + d) != B2LOG.Frames(c) + B2LOG.Frames(d);
    }
  }

  lemma CleanRestAddsNothing(c: Bytes, d: Bytes)
    requires CleanSeam(c)
    ensures Frames(Rest(c) + d) == Frames(d)
  {
    var l := Rest(c);
    RestIsIdle(c);
    if l != [] {
      assert l[0..] == l && !Completable(l[0..]);
    }
    HopelessRestAddsNothing(l, d);
  }
}
