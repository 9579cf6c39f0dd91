/** tailLastN of cmd/bfe-pblog-tool/tail/pb_tail.go: the last n records of a log. */
module Tail {
  import opened Sequences
  import opened Framing
  import opened PbParse
  import B2log

  const DEFAULT_TAIL_N: nat := 10
  const MAX_TAIL_RECORDS: nat := 100000
  const INITIAL_CHUNK: nat := 8388608
  const MAX_CHUNK: nat := 67108864

  // ---------------------------------------------------------------- the last n records

  /** The loop of tailLastN: going backwards, each window is put in front of the leftover of the
      last parse and of everything read before, and the result is parsed as a whole. */
  function TailRecords<R>(f: Framer, decode: Bytes -> Option<R>, content: Bytes, n: nat,
                          offset: nat, chunkSize: nat, buffer: Bytes, leftover: Bytes, parsed: seq<R>): seq<R>
    requires offset <= |content| && chunkSize > 0
    decreases offset
  {
    if offset == 0 || |parsed| >= n then parsed
    else
      var size := if chunkSize > offset then offset else chunkSize;
      var whole := content[offset - size..offset] + leftover + buffer;
      TailRecords(f, decode, content, n, offset - size, if 2 * size > MAX_CHUNK then MAX_CHUNK else 2 * size,
                  whole, f.Rest(whole), parsed + Records(f, decode, whole))
  }

  function TailResult<R>(f: Framer, decode: Bytes -> Option<R>, content: Bytes, n: nat): seq<R> {
    LastN(TailRecords(f, decode, content, n, |content|, INITIAL_CHUNK, [], [], []), n)
  }

  /** Parses a buffer until nothing more comes out: one pass finds everything. */
  method ParseRepeatedly<R>(f: Framer, decode: Bytes -> Option<R>, buffer: Bytes, n: nat, parsed0: seq<R>,
                            leftover0: Bytes)
      returns (parsed: seq<R>, leftover: Bytes)
    requires f.Lawful() && buffer != [] && |parsed0| < n
    ensures parsed == parsed0 + Records(f, decode, buffer)
    ensures leftover == f.Rest(buffer)
  {
    parsed, leftover := parsed0, leftover0;
    var loopBuf := buffer;
    ghost var first := true;
    f.RestIsIdle(buffer);
    while |loopBuf| > 0 && |parsed| < n
      invariant first ==> loopBuf == buffer && parsed == parsed0
      invariant !first ==> loopBuf == leftover == f.Rest(buffer) && parsed == parsed0 + Records(f, decode, buffer)
      decreases |loopBuf|, first
    {
      var records, rem, _ := PbBuffParse(f, decode, loopBuf);
      assert f.KeepsTail(loopBuf);
      if |records| == 0 && |rem| == |loopBuf| {
        assert rem == loopBuf;
        leftover := rem;
        assert first ==> parsed == parsed0 + Records(f, decode, buffer);
        break;
      }
      parsed := parsed + records;
      loopBuf := rem;
      leftover := rem;
      first := false;
    }
  }

  /** One round of the loop. */
  lemma OneRound<R>(f: Framer, decode: Bytes -> Option<R>, content: Bytes, n: nat, offset: nat, size: nat,
                    chunkSize: nat, buffer: Bytes, leftover: Bytes, parsed: seq<R>, whole: Bytes)
    requires 0 < offset <= |content| && |parsed| < n && 0 < chunkSize
    requires size == if chunkSize > offset then offset else chunkSize
    requires whole == content[offset - size..offset] + leftover + buffer
    ensures TailRecords(f, decode, content, n, offset, chunkSize, buffer, leftover, parsed)
         == TailRecords(f, decode, content, n, offset - size, if 2 * size > MAX_CHUNK then MAX_CHUNK else 2 * size,
                        whole, f.Rest(whole), parsed + Records(f, decode, whole))
  {
  }

  /** The body of the loop: the next older chunk is read and everything is parsed once more. */
  method ReadBackwards<R>(f: Framer, decode: Bytes -> Option<R>, content: Bytes, n: nat, offset0: nat,
                          chunkSize0: nat, buffer0: Bytes, leftover0: Bytes, parsed0: seq<R>)
      returns (offset: nat, chunkSize: nat, buffer: Bytes, leftover: Bytes, parsed: seq<R>)
    requires f.Lawful() && 0 < offset0 <= |content| && |parsed0| < n && 0 < chunkSize0
    ensures offset < offset0 && 0 < chunkSize
    ensures TailRecords(f, decode, content, n, offset, chunkSize, buffer, leftover, parsed)
         == TailRecords(f, decode, content, n, offset0, chunkSize0, buffer0, leftover0, parsed0)
  {
    chunkSize := if chunkSize0 > offset0 then offset0 else chunkSize0;
    offset := offset0 - chunkSize;
    buffer := content[offset..offset + chunkSize] + leftover0 + buffer0;
    OneRound(f, decode, content, n, offset0, chunkSize, chunkSize0, buffer0, leftover0, parsed0, buffer);
    parsed, leftover := ParseRepeatedly(f, decode, buffer, n, parsed0, leftover0);
    chunkSize := 2 * chunkSize;
    if chunkSize > MAX_CHUNK {
      chunkSize := MAX_CHUNK;
    }
  }

  /** tailLastN on the first |content| bytes of the file, which is what it saw when it asked for
      the size; n <= 0 is refused. The second result is where following would continue. */
  method TailLastN<R>(f: Framer, decode: Bytes -> Option<R>, content: Bytes, n: int)
      returns (emitted: Option<seq<R>>, endOffset: nat)
    requires f.Lawful()
    ensures n <= 0 ==> emitted == None
    ensures n > 0 ==> emitted == Some(TailResult(f, decode, content, n)) && endOffset == |content|
  {
    if n <= 0 {
      return None, 0;
    }
    if |content| == 0 {
      return Some([]), 0;
    }
    var offset, chunkSize := |content|, INITIAL_CHUNK;
    var buffer, leftover := [], [];
    var parsed: seq<R> := [];
    while offset > 0 && |parsed| < n
      invariant 0 <= offset <= |content| && 0 < chunkSize
      invariant TailRecords(f, decode, content, n, offset, chunkSize, buffer, leftover, parsed)
             == TailRecords(f, decode, content, n, |content|, INITIAL_CHUNK, [], [], [])
      decreases offset
    {
      offset, chunkSize, buffer, leftover, parsed :=
        ReadBackwards(f, decode, content, n, offset, chunkSize, buffer, leftover, parsed);
    }
    return Some(LastN(parsed, n)), |content|;
  }

  /** A file of at most one window: the tail is the last n records of the file, all of them if
      there are fewer. */
  lemma OneWindowTailIsTheTail<R>(f: Framer, decode: Bytes -> Option<R>, content: Bytes, n: nat)
    requires f.Lawful() && n > 0 && |content| <= INITIAL_CHUNK
    ensures TailResult(f, decode, content, n) == LastN(Records(f, decode, content), n)
  {
    var empty: Bytes := [];
    var none: seq<R> := [];
    var all := Records(f, decode, content);
    if content == [] {
      f.NothingToParse();
    } else {
      assert content[0..|content|] + empty + empty == content;
      assert none + all == all;
      assert TailRecords(f, decode, content, n, |content|, INITIAL_CHUNK, empty, empty, none)
          == TailRecords(f, decode, content, n, 0, 2 * |content|, content, f.Rest(content), all);
    }
  }

  lemma NothingAround<T>(a: seq<T>, none: seq<T>, b: seq<T>)
    requires none == []
    ensures a + none + b == a + b && a + none == a && none + b == b
  {
  }

  lemma Suffix<T>(s: seq<T>, cut: nat)
    requires cut <= |s|
    ensures s[cut..|s|] == s[cut..] && s[0..cut] == s[..cut]
  {
  }

  lemma FirstWindow<R>(f: Framer, decode: Bytes -> Option<R>, content: Bytes, n: nat, cut: nat, window: Bytes)
    requires n > 0 && INITIAL_CHUNK < |content| && cut == |content| - INITIAL_CHUNK && window == content[cut..]
    ensures TailResult(f, decode, content, n)
      == LastN(TailRecords(f, decode, content, n, cut, 2 * INITIAL_CHUNK, window, f.Rest(window),
                           Records(f, decode, window)), n)
  {
    Suffix(content, cut);
    NothingAround(window, [], []);
    NothingAround([], [], Records(f, decode, window));
    OneRound(f, decode, content, n, |content|, INITIAL_CHUNK, INITIAL_CHUNK, [], [], [], window);
  }

  lemma LastWindowOf<R>(f: Framer, decode: Bytes -> Option<R>, content: Bytes, n: nat, cut: nat,
                        buffer: Bytes, leftover: Bytes, parsed: seq<R>, older: Bytes)
    requires 0 < cut <= |content| && cut <= 2 * INITIAL_CHUNK && older == content[..cut] && |parsed| < n
    ensures TailRecords(f, decode, content, n, cut, 2 * INITIAL_CHUNK, buffer, leftover, parsed)
         == parsed + Records(f, decode, older + leftover + buffer)
  {
    Suffix(content, cut);
    OneRound(f, decode, content, n, cut, cut, 2 * INITIAL_CHUNK, buffer, leftover, parsed, older + leftover + buffer);
  }

  lemma TwoWindows<R>(f: Framer, decode: Bytes -> Option<R>, content: Bytes, n: nat, older: Bytes, window: Bytes)
    requires n > 0 && INITIAL_CHUNK < |content| <= 3 * INITIAL_CHUNK
    requires content == older + window && |window| == INITIAL_CHUNK
    ensures var tail := Records(f, decode, window);
      TailResult(f, decode, content, n)
      == if |tail| >= n then LastN(tail, n)
         else LastN(tail + Records(f, decode, older + f.Rest(window) + window), n)
  {
    var tail := Records(f, decode, window);
    FirstWindow(f, decode, content, n, |older|, window);
    if |tail| < n {
      LastWindowOf(f, decode, content, n, |older|, window, f.Rest(window), tail, older);
    }
  }

  lemma LastNOfAppend<T>(a: seq<T>, b: seq<T>, n: nat)
    ensures LastN(a + b, n) == LastN(b, n) <==> n <= |b| || a == []
  {
    if n <= |b| {
      assert (a + b)[|a + b| - n..] == b[|b| - n..];
    } else if a == [] {
      assert a + b == b;
    }
  }

  /** The leftover of the last window, which the second parse has in front of the window, makes no
      difference there. */
  ghost predicate Inert(f: Framer, older: Bytes, window: Bytes) {
    f.Frames(older + f.Rest(window) + window) == f.Frames(older + window)
  }

  lemma NoLeftoverIsInert(f: Framer, older: Bytes, window: Bytes)
    requires f.Rest(window) == []
    ensures Inert(f, older, window)
  {
    NothingAround(older, f.Rest(window), window);
  }

  /** In a b2log it makes none if no frame can begin in what is left over at the end of the older
      part, nor in what is left over at the end of the log. */
  lemma CleanSeamsAreInert(older: Bytes, window: Bytes)
    requires B2log.CleanSeam(older) && B2log.CleanSeam(window)
    ensures Inert(B2log.B2LOG, older, window)
  {
    var f := B2log.B2LOG;
    B2log.SeamIsLosslessIffClean(older);
    B2log.CleanRestAddsNothing(window, window);
    assert older + f.Rest(window) + window == older + (f.Rest(window) + window);
    assert f.Frames(older + (f.Rest(window) + window)) == f.Frames(older) + f.Frames(f.Rest(window) + window);
    assert f.Frames(older + window) == f.Frames(older) + f.Frames(window);
  }

  /** A log of two windows, of which the last holds fewer than n records and leaves nothing over
      that makes a difference: the answer is right exactly if the whole log has at least n records,
      or the last window has none. Otherwise the records of that window come out twice. */
  lemma TwoWindowTailIsRightIff<R>(f: Framer, decode: Bytes -> Option<R>, older: Bytes, window: Bytes, n: nat)
    requires 0 < |older| <= 2 * INITIAL_CHUNK && |window| == INITIAL_CHUNK
    requires Inert(f, older, window) && |Records(f, decode, window)| < n
    ensures TailResult(f, decode, older + window, n) == LastN(Records(f, decode, older + window), n)
       <==> n <= |Records(f, decode, older + window)| || Records(f, decode, window) == []
  {
    TwoWindows(f, decode, older + window, n, older, window);
    LastNOfAppend(Records(f, decode, window), Records(f, decode, older + window), n);
  }

  /** If the last window holds n records, they are the tail, provided that a frame which the window
      cuts ends in it after `cut` bytes, and that no frame is found in these by mistake. */
  lemma FullWindowTailIsTheTail<R>(f: Framer, decode: Bytes -> Option<R>, older: Bytes, cut: Bytes, w: Bytes, n: nat)
    requires f.Lawful() && n > 0 && 0 < |older| && |cut + w| == INITIAL_CHUNK
    requires f.SeamlessAt(older + cut) && f.Frames(cut + w) == f.Frames(w)
    requires |Records(f, decode, w)| >= n
    ensures TailResult(f, decode, older + cut + w, n) == LastN(Records(f, decode, older + cut + w), n)
  {
    assert older + cut + w == older + (cut + w);
    FirstWindow(f, decode, older + (cut + w), n, |older|, cut + w);
    assert f.Frames(older + cut + w) == f.Frames(older + cut) + f.Frames(w);
    FilterMapAppend(decode, f.Frames(older + cut), f.Frames(w));
    LastNOfAppend(Records(f, decode, older + cut), Records(f, decode, w), n);
  }

  /** For a b2log: the log is at the end of a frame after `cut`, and no acceptable header starts in
      the bytes of that frame which the window holds. */
  lemma WindowMayStartInsideAFrame<R>(decode: Bytes -> Option<R>, older: Bytes, cut: Bytes, w: Bytes, n: nat)
    requires n > 0 && 0 < |older| && |cut + w| == INITIAL_CHUNK && |w| >= B2log.HEADER_SIZE
    requires B2log.Rest(older + cut) == []
    requires forall i :: 0 <= i < |cut| ==> !B2log.ValidHeader((cut + w)[i..])
    requires |Records(B2log.B2LOG, decode, w)| >= n
    ensures TailResult(B2log.B2LOG, decode, older + cut + w, n)
         == LastN(Records(B2log.B2LOG, decode, older + cut + w), n)
  {
    B2log.B2logIsLawful();
    B2log.B2LOG.BoundaryIsSeamless(older + cut);
    B2log.DirtIsSkipped(cut, w);
    FullWindowTailIsTheTail(B2log.B2LOG, decode, older, cut, w, n);
  }

  // ---------------------------------------------------------------- any number of windows

  /** How many bytes before the end the k-th window begins: the windows have 8, 16, 32 and 64 MiB,
      and all further ones 64 MiB. */
  function Reach(k: nat): nat {
    if k == 0 then 0 else if k == 1 then 8388608 else if k == 2 then 25165824 else if k == 3 then 58720256
    else 125829120 + 67108864 * (k - 4)
  }

  /** Where the k-th window begins, if the log goes back that far. */
  function Cut(content: Bytes, k: nat): (c: nat)
    ensures c <= |content|
  {
    if Reach(k) < |content| then |content| - Reach(k) else 0
  }

  /** What is parsed in the k-th round, if nothing is left over before. */
  function Seen(content: Bytes, k: nat): Bytes {
    content[Cut(content, k)..]
  }

  /** What k rounds find: each parses again all that the rounds before it have parsed. */
  function Collected<R>(f: Framer, decode: Bytes -> Option<R>, content: Bytes, k: nat): seq<R> {
    if k == 0 then [] else Collected(f, decode, content, k - 1) + Records(f, decode, Seen(content, k))
  }

  /** There are so many rounds, and more to come; none has left anything over. */
  ghost predicate GoesOn<R>(f: Framer, decode: Bytes -> Option<R>, content: Bytes, n: nat, k: nat) {
    forall i :: 1 <= i <= k ==>
      Reach(i) < |content| && f.Rest(Seen(content, i)) == [] && |Collected(f, decode, content, i)| < n
  }

  /** What the loop still makes of the log after k rounds. */
  function Ahead<R>(f: Framer, decode: Bytes -> Option<R>, content: Bytes, n: nat, k: nat): seq<R>
    requires Reach(k) < |content|
  {
    TailRecords(f, decode, content, n, |content| - Reach(k), Reach(k + 1) - Reach(k), Seen(content, k), [],
                Collected(f, decode, content, k))
  }

  /** The size of the window that follows one of `size` bytes. */
  function NextChunk(size: nat): nat {
    if 2 * size > MAX_CHUNK then MAX_CHUNK else 2 * size
  }

  lemma WindowSizes(content: Bytes, k: nat) returns (size: nat)
    requires Reach(k) < |content|
    ensures var offset, chunk := |content| - Reach(k), Reach(k + 1) - Reach(k);
      && 0 < size && 0 < chunk && size == (if chunk > offset then offset else chunk)
      && offset - size == Cut(content, k + 1)
    ensures Reach(k + 1) < |content| ==> NextChunk(size) == Reach(k + 2) - Reach(k + 1)
  {
    size := if Reach(k + 1) > |content| then |content| - Reach(k) else Reach(k + 1) - Reach(k);
  }

  lemma OneWindowOn<R>(f: Framer, decode: Bytes -> Option<R>, content: Bytes, n: nat, k: nat) returns (size: nat)
    requires Reach(k) < |content| && |Collected(f, decode, content, k)| < n
    ensures 0 < size && (Reach(k + 1) < |content| ==> NextChunk(size) == Reach(k + 2) - Reach(k + 1))
    ensures Ahead(f, decode, content, n, k)
         == TailRecords(f, decode, content, n, Cut(content, k + 1), NextChunk(size), Seen(content, k + 1),
                        f.Rest(Seen(content, k + 1)), Collected(f, decode, content, k + 1))
  {
    var offset, chunk := |content| - Reach(k), Reach(k + 1) - Reach(k);
    size := WindowSizes(content, k);
    WindowsJoin(content, offset - size, offset);
    OneRound(f, decode, content, n, offset, size, chunk, Seen(content, k), [], Collected(f, decode, content, k),
             Seen(content, k + 1));
  }

  lemma WindowsJoin(content: Bytes, a: nat, b: nat)
    requires a <= b <= |content|
    ensures content[a..] == content[a..b] + [] + content[b..]
  {
  }

  lemma NotTheLastWindow<R>(f: Framer, decode: Bytes -> Option<R>, content: Bytes, n: nat, k: nat)
    requires Reach(k + 1) < |content| && |Collected(f, decode, content, k)| < n
    requires f.Rest(Seen(content, k + 1)) == []
    ensures Ahead(f, decode, content, n, k) == Ahead(f, decode, content, n, k + 1)
  {
    var _ := OneWindowOn(f, decode, content, n, k);
  }

  lemma TheLastWindow<R>(f: Framer, decode: Bytes -> Option<R>, content: Bytes, n: nat, k: nat)
    requires Reach(k) < |content| && |Collected(f, decode, content, k)| < n
    requires |content| <= Reach(k + 1) || n <= |Collected(f, decode, content, k + 1)|
    ensures Ahead(f, decode, content, n, k) == Collected(f, decode, content, k + 1)
  {
    var _ := OneWindowOn(f, decode, content, n, k);
  }

  lemma BeforeAnyWindow<R>(f: Framer, decode: Bytes -> Option<R>, content: Bytes, n: nat)
    requires content != []
    ensures TailRecords(f, decode, content, n, |content|, INITIAL_CHUNK, [], [], []) == Ahead(f, decode, content, n, 0)
  {
    assert Seen(content, 0) == [];
  }

  lemma {:induction false} AfterRounds<R>(f: Framer, decode: Bytes -> Option<R>, content: Bytes, n: nat, k: nat)
    requires n > 0 && content != [] && GoesOn(f, decode, content, n, k)
    ensures Reach(k) < |content| && |Collected(f, decode, content, k)| < n
    ensures Ahead(f, decode, content, n, 0) == Ahead(f, decode, content, n, k)
  {
    if k > 0 {
      AfterRounds(f, decode, content, n, k - 1);
      NotTheLastWindow(f, decode, content, n, k - 1);
    }
  }

  /** The loop goes on for k - 1 rounds and ends after the next. */
  ghost predicate EndsAfter<R>(f: Framer, decode: Bytes -> Option<R>, content: Bytes, n: nat, k: nat) {
    && k > 0 && content != [] && GoesOn(f, decode, content, n, k - 1)
    && (|content| <= Reach(k) || n <= |Collected(f, decode, content, k)|)
  }

  /** A log of any size: as long as no window leaves anything over, what is shown is the last n of
      what the windows yield, one after the other. */
  lemma ManyWindowsAddUp<R>(f: Framer, decode: Bytes -> Option<R>, content: Bytes, n: nat, k: nat)
    requires n > 0 && EndsAfter(f, decode, content, n, k)
    ensures TailResult(f, decode, content, n) == LastN(Collected(f, decode, content, k), n)
  {
    BeforeAnyWindow(f, decode, content, n);
    AfterRounds(f, decode, content, n, k - 1);
    TheLastWindow(f, decode, content, n, k - 1);
  }

  /** So the answer is right if the last window, the largest, holds n records itself. If the search
      went back to the beginning of the log, it is right exactly if the log has n records at all or
      none was found before; otherwise records come out more than once. */
  lemma ManyWindowTailIsRightIff<R>(f: Framer, decode: Bytes -> Option<R>, content: Bytes, n: nat, k: nat)
    requires f.Lawful() && n > 0 && EndsAfter(f, decode, content, n, k)
    requires f.SeamlessAt(content[..Cut(content, k)])
    ensures n <= |Records(f, decode, Seen(content, k))| ==>
      TailResult(f, decode, content, n) == LastN(Records(f, decode, content), n)
    ensures |content| <= Reach(k) ==>
      (TailResult(f, decode, content, n) == LastN(Records(f, decode, content), n)
       <==> n <= |Records(f, decode, content)| || Collected(f, decode, content, k - 1) == [])
  {
    var older, window := content[..Cut(content, k)], Seen(content, k);
    ManyWindowsAddUp(f, decode, content, n, k);
    assert content == older + window;
    assert f.Frames(older + window) == f.Frames(older) + f.Frames(window);
    FilterMapAppend(decode, f.Frames(older), f.Frames(window));
    LastNOfAppend(Records(f, decode, older), Records(f, decode, window), n);
    LastNOfAppend(Collected(f, decode, content, k - 1), Records(f, decode, window), n);
    if |content| <= Reach(k) {
      assert window == content;
    }
  }

  // ---------------------------------------------------------------- a record that is still being written

  /** Where the last window of a b2log ends in a record whose header is there and whose payload is
      not: the header and what there is of the payload. */
  predicate EndsInARecord(window: Bytes) {
    B2log.ValidHeader(B2log.Rest(window)) && !B2log.Compressed(B2log.Rest(window))
  }

  /** How many bytes of that record are missing. */
  function Missing(window: Bytes): (k: nat)
    requires EndsInARecord(window)
    ensures 0 < k <= B2log.MAX_RECORD_SIZE
  {
    B2log.RestIsIdle(window);
    var l := B2log.Rest(window);
    B2log.FrameSize(l) - |l|
  }

  /** What is taken for its payload when the window is put behind it. */
  function Garbage(window: Bytes): Bytes
    requires EndsInARecord(window) && |window| == INITIAL_CHUNK
  {
    B2log.Rest(window)[B2log.HEADER_SIZE..] + window[..Missing(window)]
  }

  lemma UnfinishedRecordSwallows(window: Bytes)
    requires EndsInARecord(window) && |window| == INITIAL_CHUNK
    ensures B2log.Frames(B2log.Rest(window) + window)
         == [Garbage(window)] + B2log.Frames(window[Missing(window)..])
  {
    B2log.UnfinishedRecordTakes(B2log.Rest(window), Missing(window), window);
  }

  /** What comes out then: the records of the window, those of the older part, one record that was
      never written, and what is found in the window behind its first bytes. */
  lemma UnfinishedRecordIsShown<R>(decode: Bytes -> Option<R>, older: Bytes, window: Bytes, n: nat)
    requires 0 < |older| <= 2 * INITIAL_CHUNK && |window| == INITIAL_CHUNK
    requires B2log.CleanSeam(older) && EndsInARecord(window)
    requires |Records(B2log.B2LOG, decode, window)| < n
    ensures var f := B2log.B2LOG;
      TailResult(f, decode, older + window, n)
      == LastN(Records(f, decode, window) + Records(f, decode, older) + Listed(decode(Garbage(window)))
               + Records(f, decode, window[Missing(window)..]), n)
    ensures Records(B2log.B2LOG, decode, older + window)
         == Records(B2log.B2LOG, decode, older) + Records(B2log.B2LOG, decode, window)
  {
    var f, l, rest := B2log.B2LOG, B2log.Rest(window), window[Missing(window)..];
    TwoWindows(f, decode, older + window, n, older, window);
    B2log.SeamIsLosslessIffClean(older);
    assert older + l + window == older + (l + window);
    assert f.Frames(older + (l + window)) == f.Frames(older) + f.Frames(l + window);
    UnfinishedRecordSwallows(window);
    FilterMapAppend(decode, f.Frames(older), f.Frames(l + window));
    FilterMapAppend(decode, [Garbage(window)], f.Frames(rest));
    OneDecoded(decode, Garbage(window));
    Regroup(Records(f, decode, window), Records(f, decode, older), Listed(decode(Garbage(window))),
            Records(f, decode, rest));
    assert f.Frames(older + window) == f.Frames(older) + f.Frames(window);
    FilterMapAppend(decode, f.Frames(older), f.Frames(window));
  }

  lemma Regroup<T>(a: seq<T>, b: seq<T>, c: seq<T>, d: seq<T>)
    ensures a + (b + (c + d)) == a + b + c + d
  {
  }

  /** If that makes a record, the answer is wrong whenever more records are asked for than the log
      has, and also whenever what it makes is no record of the log and fewer than n records are
      found behind it. */
  lemma UnfinishedRecordSpoilsTheTail<R>(decode: Bytes -> Option<R>, older: Bytes, window: Bytes, n: nat)
    requires 0 < |older| <= 2 * INITIAL_CHUNK && |window| == INITIAL_CHUNK
    requires B2log.CleanSeam(older) && EndsInARecord(window)
    requires |Records(B2log.B2LOG, decode, window)| < n
    requires decode(Garbage(window)).Some?
    requires var all := Records(B2log.B2LOG, decode, older + window);
      || |all| < n
      || (decode(Garbage(window)).value !in all && |Records(B2log.B2LOG, decode, window[Missing(window)..])| < n)
    ensures TailResult(B2log.B2LOG, decode, older + window, n)
         != LastN(Records(B2log.B2LOG, decode, older + window), n)
  {
    var f, r := B2log.B2LOG, decode(Garbage(window)).value;
    UnfinishedRecordIsShown(decode, older, window, n);
    Spoils(Records(f, decode, window), Records(f, decode, older), r, Records(f, decode, window[Missing(window)..]), n);
  }

  lemma Spoils<T>(tail: seq<T>, older: seq<T>, r: T, rest: seq<T>, n: nat)
    requires |older + tail| < n || (r !in older + tail && |rest| < n)
    ensures LastN(tail + older + [r] + rest, n) != LastN(older + tail, n)
  {
    var shown, all := tail + older + [r] + rest, older + tail;
    if |all| >= n {
      assert shown[|all|] == r;
      assert LastN(shown, n)[|all| - (|shown| - n)] == r;
      forall i | 0 <= i < n
        ensures LastN(all, n)[i] != r
      {
        assert LastN(all, n)[i] == all[|all| - n + i];
      }
    }
  }

  // ---------------------------------------------------------------- a window that starts inside a record

  /** The older part of the log ends in a record that the window cuts: what comes out then. The
      first bytes of that record's rest are pushed back by what the window leaves over, so that the
      leftover is taken for a part of its payload, and its own end is parsed as something new. */
  lemma CutRecordTakesTheLeftover<R>(decode: Bytes -> Option<R>, older: Bytes, window: Bytes, n: nat)
    requires 0 < |older| <= 2 * INITIAL_CHUNK && |window| == INITIAL_CHUNK && EndsInARecord(older)
    requires |Records(B2log.B2LOG, decode, window)| < n
    ensures var f, k, pushed := B2log.B2LOG, Missing(older), B2log.Rest(window) + window;
      TailResult(f, decode, older + window, n)
      == LastN(Records(f, decode, window) + (Records(f, decode, older)
               + (Listed(decode(Payload(older, pushed))) + Records(f, decode, pushed[k..]))), n)
    ensures Records(B2log.B2LOG, decode, older + window)
         == Records(B2log.B2LOG, decode, older)
            + (Listed(decode(Payload(older, window))) + Records(B2log.B2LOG, decode, window[Missing(older)..]))
  {
    TwoParses(B2log.B2LOG, decode, older, window, n);
    CutRecord(decode, older, B2log.Rest(window) + window);
    CutRecord(decode, older, window);
  }

  lemma TwoParses<R>(f: Framer, decode: Bytes -> Option<R>, older: Bytes, window: Bytes, n: nat)
    requires 0 < |older| <= 2 * INITIAL_CHUNK && |window| == INITIAL_CHUNK
    requires |Records(f, decode, window)| < n
    ensures TailResult(f, decode, older + window, n)
         == LastN(Records(f, decode, window) + Records(f, decode, older + (f.Rest(window) + window)), n)
  {
    TwoWindows(f, decode, older + window, n, older, window);
    Reassociate(older, f.Rest(window), window);
  }

  /** The payload of the record in which `older` ends, if `next` follows. */
  function Payload(older: Bytes, next: Bytes): Bytes
    requires EndsInARecord(older) && |next| >= INITIAL_CHUNK
  {
    B2log.Rest(older)[B2log.HEADER_SIZE..] + next[..Missing(older)]
  }

  lemma CutRecord<R>(decode: Bytes -> Option<R>, older: Bytes, next: Bytes)
    requires EndsInARecord(older) && |next| >= INITIAL_CHUNK
    ensures var f := B2log.B2LOG;
      Records(f, decode, older + next)
      == Records(f, decode, older) + (Listed(decode(Payload(older, next))) + Records(f, decode, next[Missing(older)..]))
  {
    var f := B2log.B2LOG;
    B2log.B2logIsLawful();
    f.Append(older, next);
    B2log.UnfinishedRecordTakes(B2log.Rest(older), Missing(older), next);
    FilterMapAppend(decode, f.Frames(older), f.Frames(f.Rest(older) + next));
    FilterMapAppend(decode, [Payload(older, next)], f.Frames(next[Missing(older)..]));
    OneDecoded(decode, Payload(older, next));
  }

  /** If that makes a record that is none of the log, and fewer than n are found behind it, the
      answer is wrong. */
  lemma CutRecordSpoilsTheTail<R>(decode: Bytes -> Option<R>, older: Bytes, window: Bytes, n: nat)
    requires 0 < |older| <= 2 * INITIAL_CHUNK && |window| == INITIAL_CHUNK && EndsInARecord(older)
    requires |Records(B2log.B2LOG, decode, window)| < n
    requires var pushed := B2log.Rest(window) + window;
      && decode(Payload(older, pushed)).Some?
      && decode(Payload(older, pushed)).value !in Records(B2log.B2LOG, decode, older + window)
      && |Records(B2log.B2LOG, decode, pushed[Missing(older)..])| < n
    ensures TailResult(B2log.B2LOG, decode, older + window, n)
         != LastN(Records(B2log.B2LOG, decode, older + window), n)
  {
    var f, pushed := B2log.B2LOG, B2log.Rest(window) + window;
    CutRecordTakesTheLeftover(decode, older, window, n);
    Regroup(Records(f, decode, window), Records(f, decode, older), Listed(decode(Payload(older, pushed))),
            Records(f, decode, pushed[Missing(older)..]));
    Intrudes(Records(f, decode, window) + Records(f, decode, older), decode(Payload(older, pushed)).value,
             Records(f, decode, pushed[Missing(older)..]), Records(f, decode, older + window), n);
  }

  lemma Intrudes<T>(front: seq<T>, r: T, rest: seq<T>, all: seq<T>, n: nat)
    requires r !in all && |rest| < n
    ensures LastN(front + [r] + rest, n) != LastN(all, n)
  {
    var shown := front + [r] + rest;
    assert shown[|front|] == r;
    assert r in LastN(shown, n) by {
      var k := |shown| - |LastN(shown, n)|;
      assert LastN(shown, n)[|front| - k] == r;
    }
    forall i | 0 <= i < |LastN(all, n)|
      ensures LastN(all, n)[i] != r
    {
      assert LastN(all, n)[i] == all[|all| - |LastN(all, n)| + i];
    }
  }

  /** Every payload is a record. */
  function AsIs(payload: Bytes): Option<Bytes> {
    Some(payload)
  }

  /** A log of two records with dirt between them, the second one at the end of the last window. */
  function TwoRecordLog(x: Bytes, y: Bytes): Bytes
    requires |x| <= B2log.MAX_RECORD_SIZE && |y| <= B2log.MAX_RECORD_SIZE
  {
    B2log.Plain(x) + LastWindow(y)
  }

  function LastWindow(y: Bytes): (b: Bytes)
    requires |y| <= B2log.MAX_RECORD_SIZE
    ensures |b| == INITIAL_CHUNK
  {
    B2log.Zeros(INITIAL_CHUNK - |B2log.Plain(y)|) + B2log.Plain(y)
  }

  /** Asking for the default ten records of such a log gives its last record twice. */
  lemma SecondWindowRepeatsRecords(x: Bytes, y: Bytes)
    requires |x| <= B2log.MAX_RECORD_SIZE && |y| <= B2log.MAX_RECORD_SIZE
    ensures Records(B2log.B2LOG, AsIs, TwoRecordLog(x, y)) == [x, y]
    ensures TailResult(B2log.B2LOG, AsIs, TwoRecordLog(x, y), DEFAULT_TAIL_N) == [y, x, y]
  {
    var f := B2log.B2LOG;
    var content, older, window := TwoRecordLog(x, y), B2log.Plain(x), LastWindow(y);
    TwoRecordLogParses(x, y);
    TwoWindows(f, AsIs, content, DEFAULT_TAIL_N, older, window);
    NothingAround(older, f.Rest(window), window);
  }

  lemma TwoRecordLogParses(x: Bytes, y: Bytes)
    requires |x| <= B2log.MAX_RECORD_SIZE && |y| <= B2log.MAX_RECORD_SIZE
    ensures Records(B2log.B2LOG, AsIs, LastWindow(y)) == [y] && B2log.Rest(LastWindow(y)) == []
    ensures Records(B2log.B2LOG, AsIs, TwoRecordLog(x, y)) == [x, y]
  {
    LastWindowParses(y);
    B2log.PlainParses(x, LastWindow(y));
    OneDecoded(AsIs, y);
    FilterMapAppend(AsIs, [x], [y]);
    OneDecoded(AsIs, x);
  }

  lemma LastWindowParses(y: Bytes)
    requires |y| <= B2log.MAX_RECORD_SIZE
    ensures B2log.Parse(LastWindow(y)) == Parsed([y], [])
  {
    B2log.PlainParses(y, []);
    assert B2log.Plain(y) + [] == B2log.Plain(y);
    B2log.ZerosAreSkipped(INITIAL_CHUNK - |B2log.Plain(y)|, B2log.Plain(y));
  }

  /** The header of a record of one byte that has not been written yet. */
  function HeaderOfOneByte(): (b: Bytes)
    ensures |b| == B2log.HEADER_SIZE
  {
    B2log.Header(B2log.Zeros(4), 1, 0, B2log.Zeros(8))
  }

  /** A window of dirt, one record, and the header of another. */
  function BusyWindow(y: Bytes): (b: Bytes)
    requires |y| <= B2log.MAX_RECORD_SIZE
    ensures |b| == INITIAL_CHUNK
  {
    B2log.Zeros(INITIAL_CHUNK - |B2log.Plain(y)| - B2log.HEADER_SIZE) + (B2log.Plain(y) + HeaderOfOneByte())
  }

  lemma HeaderOfOneByteWaits()
    ensures B2log.Parse(HeaderOfOneByte()) == Parsed([], HeaderOfOneByte())
    ensures B2log.ValidHeader(HeaderOfOneByte()) && !B2log.Compressed(HeaderOfOneByte())
    ensures B2log.FrameSize(HeaderOfOneByte()) == B2log.HEADER_SIZE + 1
  {
    B2log.HeaderReadsBack(B2log.Zeros(4), 1, 0, B2log.Zeros(8), []);
    assert HeaderOfOneByte() + [] == HeaderOfOneByte();
  }

  lemma DirtRecordHeader(k: nat, y: Bytes)
    requires |y| <= B2log.MAX_RECORD_SIZE
    ensures B2log.Parse(B2log.Zeros(k) + (B2log.Plain(y) + HeaderOfOneByte())) == Parsed([y], HeaderOfOneByte())
  {
    HeaderOfOneByteWaits();
    B2log.PlainParses(y, HeaderOfOneByte());
    B2log.ZerosAreSkipped(k, B2log.Plain(y) + HeaderOfOneByte());
  }

  lemma FirstZero(k: nat, s: Bytes)
    requires k > 0
    ensures (B2log.Zeros(k) + s)[..1] == [0]
    ensures (B2log.Zeros(k) + s)[1..] == B2log.Zeros(k - 1) + s
  {
  }

  lemma BusyWindowParses(y: Bytes)
    requires |y| <= B2log.MAX_RECORD_SIZE
    ensures B2log.Parse(BusyWindow(y)) == Parsed([y], HeaderOfOneByte())
    ensures B2log.Parse(BusyWindow(y)[1..]) == Parsed([y], HeaderOfOneByte())
    ensures BusyWindow(y)[..1] == [0]
  {
    var k := INITIAL_CHUNK - |B2log.Plain(y)| - B2log.HEADER_SIZE;
    DirtRecordHeader(k, y);
    DirtRecordHeader(k - 1, y);
    FirstZero(k, B2log.Plain(y) + HeaderOfOneByte());
  }

  lemma BusyRecords(x: Bytes, y: Bytes)
    requires |x| <= B2log.MAX_RECORD_SIZE && |y| <= B2log.MAX_RECORD_SIZE
    ensures Records(B2log.B2LOG, AsIs, B2log.Plain(x)) == [x]
    ensures Records(B2log.B2LOG, AsIs, BusyWindow(y)) == Records(B2log.B2LOG, AsIs, BusyWindow(y)[1..]) == [y]
    ensures B2log.CleanSeam(B2log.Plain(x))
  {
    BusyWindowParses(y);
    OneRecord(x);
    B2log.SeamIsLosslessIffClean(B2log.Plain(x));
    OneDecoded(AsIs, x);
    OneDecoded(AsIs, y);
  }

  lemma LastTwo<T>(x: T, y: T, z: T)
    ensures LastN([y] + [x] + [z] + [y], 2) == [z, y]
  {
    assert [y] + [x] + [z] + [y] == [y, x, z, y];
  }

  /** Asking for two records of such a log, which has two, gives one that was never written. */
  lemma UnfinishedRecordShowsGarbage(x: Bytes, y: Bytes)
    requires |x| <= B2log.MAX_RECORD_SIZE && |y| <= B2log.MAX_RECORD_SIZE
    ensures Records(B2log.B2LOG, AsIs, B2log.Plain(x) + BusyWindow(y)) == [x, y]
    ensures TailResult(B2log.B2LOG, AsIs, B2log.Plain(x) + BusyWindow(y), 2) == [[0], y]
  {
    BusyWindowGarbage(y);
    BusyRecords(x, y);
    UnfinishedRecordIsShown(AsIs, B2log.Plain(x), BusyWindow(y), 2);
    LastTwo(x, y, [0]);
  }

  lemma OneDecoded<R>(decode: Bytes -> Option<R>, x: Bytes)
    ensures FilterMap(decode, [x]) == Listed(decode(x))
  {
    assert FilterMap(decode, [x]) == Listed(decode(x)) + FilterMap(decode, []);
  }

  lemma BusyWindowGarbage(y: Bytes)
    requires |y| <= B2log.MAX_RECORD_SIZE
    ensures EndsInARecord(BusyWindow(y)) && Missing(BusyWindow(y)) == 1 && Garbage(BusyWindow(y)) == [0]
  {
    BusyWindowParses(y);
    HeaderOfOneByteWaits();
  }

  lemma OneRecord(x: Bytes)
    requires |x| <= B2log.MAX_RECORD_SIZE
    ensures B2log.Parse(B2log.Plain(x)) == Parsed([x], []) && B2log.B2LOG.SeamlessAt(B2log.Plain(x))
  {
    B2log.PlainParses(x, []);
    assert B2log.Plain(x) + [] == B2log.Plain(x);
    B2log.B2logIsLawful();
    B2log.B2LOG.BoundaryIsSeamless(B2log.Plain(x));
  }
}
