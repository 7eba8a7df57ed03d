/** Which source positions the audio pump really plays, and exactly when they are the right ones. */
module AudioAhead {
  import opened Numbers
  import opened AudioModel

  // ---------------------------------------------------------------- streaming through the read-ahead buffer

  /** Where a stream stands: the next output frame, the bytes used up, and the bytes read. */
  datatype Ahead = Ahead(cursor: nat, used: nat, filePos: nat)

  const START: Ahead := Ahead(0, 0, 0)

  predicate WellFormed(size: nat, s: Ahead) {
    s.used <= s.filePos <= size && s.filePos - s.used <= READ_AHEAD
  }

  /** The output frames of the next chunk. */
  function ChunkSize(out: nat, cursor: nat): (n: nat)
    requires cursor < out
    ensures 0 < n <= DMA_FRAMES && cursor + n <= out
  {
    if out - cursor < DMA_FRAMES then out - cursor else DMA_FRAMES
  }

  /** How far the source moves in i output frames. */
  function Offset(rate: nat, cursor: nat, i: nat): nat {
    IndexGrows(cursor, i, rate);
    SourceIndex(cursor + i, rate) - SourceIndex(cursor, rate)
  }

  function NeededBytes(f: Format, cursor: nat, n: nat): nat
    requires Supported(f) && n > 0
  {
    Times(Offset(f.rate, cursor, n - 1) + 1, FrameBytes(f))
  }

  /** The bytes of the next chunk fit the read-ahead buffer; otherwise the pump gives up. */
  predicate Fits(f: Format, out: nat, cursor: nat)
    requires Supported(f) && cursor < out
  {
    NeededBytes(f, cursor, ChunkSize(out, cursor)) <= READ_AHEAD
  }

  /** How far the file is read when the next chunk is converted. */
  function Refilled(f: Format, size: nat, out: nat, s: Ahead): (pos: nat)
    requires Supported(f) && s.cursor < out && WellFormed(size, s)
    ensures s.filePos <= pos <= size && pos - s.used <= READ_AHEAD
  {
    if s.filePos - s.used >= NeededBytes(f, s.cursor, ChunkSize(out, s.cursor)) then s.filePos
    else if s.used + READ_AHEAD < size then s.used + READ_AHEAD else size
  }

  function BytesStepped(f: Format, out: nat, cursor: nat): nat
    requires Supported(f) && cursor < out
  {
    Times(Offset(f.rate, cursor, ChunkSize(out, cursor)), FrameBytes(f))
  }

  /** The state after the device takes the next chunk; no more can be used up than was read. */
  function After(f: Format, size: nat, out: nat, s: Ahead): (r: Ahead)
    requires Supported(f) && s.cursor < out && WellFormed(size, s)
    ensures WellFormed(size, r)
  {
    var pos := Refilled(f, size, out, s);
    var step := BytesStepped(f, out, s.cursor);
    Ahead(s.cursor + ChunkSize(out, s.cursor), s.used + if step > pos - s.used then pos - s.used else step, pos)
  }

  /** The byte positions that the next n output frames are taken from. */
  function Places(f: Format, s: Ahead, n: nat): (r: seq<nat>)
    requires Supported(f)
    ensures |r| == n
  {
    seq(n, i requires i >= 0 => s.used + Times(Offset(f.rate, s.cursor, i), FrameBytes(f)))
  }

  /** The byte positions of everything a stream plays. */
  function Played(f: Format, size: nat, out: nat, s: Ahead): (r: seq<nat>)
    requires Supported(f) && WellFormed(size, s)
    ensures |r| <= if s.cursor < out then out - s.cursor else 0
    decreases out - s.cursor
  {
    if s.cursor >= out || !Fits(f, out, s.cursor) then []
    else Places(f, s, ChunkSize(out, s.cursor)) + Played(f, size, out, After(f, size, out, s))
  }

  lemma PlayedNext(f: Format, size: nat, out: nat, s: Ahead)
    requires Supported(f) && WellFormed(size, s) && s.cursor < out && Fits(f, out, s.cursor)
    ensures Played(f, size, out, s)
      == Places(f, s, ChunkSize(out, s.cursor)) + Played(f, size, out, After(f, size, out, s))
  {
    hide Fits, After;
  }

  /** Reading ahead for a chunk that is then not taken changes nothing. */
  lemma RefilledTwice(f: Format, size: nat, out: nat, s: Ahead)
    requires Supported(f) && WellFormed(size, s) && s.cursor < out && Fits(f, out, s.cursor)
    ensures var t := s.(filePos := Refilled(f, size, out, s));
            && WellFormed(size, t) && Refilled(f, size, out, t) == t.filePos
            && After(f, size, out, t) == After(f, size, out, s)
            && Played(f, size, out, t) == Played(f, size, out, s)
  {
    hide Times, SourceIndex, FrameBytes;
    var t := s.(filePos := Refilled(f, size, out, s));
    assert Places(f, t, ChunkSize(out, s.cursor)) == Places(f, s, ChunkSize(out, s.cursor));
  }

  /** Past the end of the output nothing is played, wherever the stream stands. */
  lemma NowPlays(f: Format, size: nat, out: nat, s: Ahead, t: Ahead)
    requires Supported(f) && WellFormed(size, s) && WellFormed(size, t) && s.cursor == t.cursor
    requires s.cursor < out ==> s == t
    ensures Played(f, size, out, s) == Played(f, size, out, t)
  {}

  /** The stream stands where its output does. */
  predicate InStep(f: Format, size: nat, used: nat, cursor: nat)
    requires Supported(f)
  {
    SameSound(f, size, used, Times(SourceIndex(cursor, f.rate), FrameBytes(f)))
  }

  /** All the bytes that the next chunk steps over have been read, or no whole frame is left to read. */
  predicate Guard(f: Format, size: nat, out: nat, s: Ahead)
    requires Supported(f) && s.cursor < out && WellFormed(size, s)
  {
    var pos := Refilled(f, size, out, s);
    BytesStepped(f, out, s.cursor) <= pos - s.used || pos + FrameBytes(f) > size
  }

  /** The guard holds at every chunk but the last; it depends on the rate, the frame size and the file size. */
  predicate KeepsUp(f: Format, size: nat, out: nat, s: Ahead)
    requires Supported(f) && WellFormed(size, s)
    decreases out - s.cursor
  {
    s.cursor >= out ||
    (Fits(f, out, s.cursor)
     && (s.cursor + ChunkSize(out, s.cursor) == out || Guard(f, size, out, s))
     && KeepsUp(f, size, out, After(f, size, out, s)))
  }

  /** A chunk that starts in step is taken from the right places. */
  lemma ChunkIsRight(f: Format, size: nat, s: Ahead, n: nat)
    requires Supported(f) && InStep(f, size, s.used, s.cursor)
    ensures RightPlaces(f, size, s.cursor, Places(f, s, n))
  {
    hide Times, SourceIndex, FrameBytes;
    forall i | 0 <= i < n
      ensures SameSound(f, size, Places(f, s, n)[i], Times(SourceIndex(s.cursor + i, f.rate), FrameBytes(f)))
    {
      PlaceIsRight(f, size, s, i);
    }
  }

  lemma PlaceIsRight(f: Format, size: nat, s: Ahead, i: nat)
    requires Supported(f) && InStep(f, size, s.used, s.cursor)
    ensures SameSound(f, size, s.used + Times(Offset(f.rate, s.cursor, i), FrameBytes(f)),
              Times(SourceIndex(s.cursor + i, f.rate), FrameBytes(f)))
  {
    hide Times, SourceIndex, FrameBytes;
    IndexGrows(s.cursor, i, f.rate);
    TimesAdd(SourceIndex(s.cursor, f.rate), Offset(f.rate, s.cursor, i), FrameBytes(f));
  }

  /** The bytes a stream steps over from one place to a later one. */
  lemma StepIff(f: Format, size: nat, used: nat, cursor: nat, n: nat, pos: nat)
    requires Supported(f) && InStep(f, size, used, cursor) && used <= pos <= size
    ensures var step := Times(Offset(f.rate, cursor, n), FrameBytes(f));
            InStep(f, size, used + (if step > pos - used then pos - used else step), cursor + n)
            <==> step <= pos - used || pos + FrameBytes(f) > size
  {
    hide Times, SourceIndex, FrameBytes;
    IndexGrows(cursor, n, f.rate);
    TimesAdd(SourceIndex(cursor, f.rate), Offset(f.rate, cursor, n), FrameBytes(f));
  }

  /** After a chunk that started in step the stream is in step exactly when the guard held. */
  lemma AfterIff(f: Format, size: nat, out: nat, s: Ahead)
    requires Supported(f) && s.cursor < out && WellFormed(size, s) && InStep(f, size, s.used, s.cursor)
    ensures InStep(f, size, After(f, size, out, s).used, After(f, size, out, s).cursor) <==> Guard(f, size, out, s)
  {
    hide NeededBytes, Times, SourceIndex, InStep, FrameBytes;
    StepIff(f, size, s.used, s.cursor, ChunkSize(out, s.cursor), Refilled(f, size, out, s));
  }

  lemma RightJoin(f: Format, size: nat, cursor: nat, a: seq<nat>, b: seq<nat>)
    requires Supported(f)
    ensures RightPlaces(f, size, cursor, a + b) <==>
      RightPlaces(f, size, cursor, a) && RightPlaces(f, size, cursor + |a|, b)
  {
    hide SameSound, Times, SourceIndex, FrameBytes;
    if RightPlaces(f, size, cursor, a + b) {
      assert forall i :: 0 <= i < |a| ==> a[i] == (a + b)[i];
      forall i | 0 <= i < |b|
        ensures SameSound(f, size, b[i], Times(SourceIndex(cursor + |a| + i, f.rate), FrameBytes(f)))
      {
        assert b[i] == (a + b)[|a| + i];
        assert cursor + |a| + i == cursor + (|a| + i);
      }
    } else if RightPlaces(f, size, cursor, a) && RightPlaces(f, size, cursor + |a|, b) {
      forall i | 0 <= i < |a + b|
        ensures SameSound(f, size, (a + b)[i], Times(SourceIndex(cursor + i, f.rate), FrameBytes(f)))
      {
        if i >= |a| {
          assert (a + b)[i] == b[i - |a|];
          assert cursor + |a| + (i - |a|) == cursor + i;
        }
      }
    }
  }

  /** A stream that is out of step with output left plays its next frame from the wrong place, or none. */
  lemma OutOfStepIsWrong(f: Format, size: nat, out: nat, s: Ahead)
    requires Supported(f) && WellFormed(size, s) && s.cursor < out && !InStep(f, size, s.used, s.cursor)
    ensures |Played(f, size, out, s)| < out - s.cursor || !RightPlaces(f, size, s.cursor, Played(f, size, out, s))
  {
    hide Times, SourceIndex, FrameBytes, Fits, After;
    if Fits(f, out, s.cursor) {
      FirstPlace(f, s, ChunkSize(out, s.cursor));
      var p := Played(f, size, out, s);
      assert p[0] == s.used;
      assert SameSound(f, size, p[0], Times(SourceIndex(s.cursor + 0, f.rate), FrameBytes(f)))
        <==> InStep(f, size, s.used, s.cursor);
    }
  }

  lemma FirstPlace(f: Format, s: Ahead, n: nat)
    requires Supported(f) && n > 0
    ensures Places(f, s, n)[0] == s.used
  {
    TimesZero(FrameBytes(f));
  }

  /** A stream plays all its output from the right places exactly when it keeps up. */
  lemma {:induction false} KeepsUpIff(f: Format, size: nat, out: nat, s: Ahead)
    requires Supported(f) && WellFormed(size, s) && s.cursor <= out && InStep(f, size, s.used, s.cursor)
    ensures KeepsUp(f, size, out, s) <==>
      |Played(f, size, out, s)| == out - s.cursor && RightPlaces(f, size, s.cursor, Played(f, size, out, s))
    decreases out - s.cursor
  {
    hide Times, SourceIndex, FrameBytes, NeededBytes, Refilled, BytesStepped, Places, SameSound, Guard, Fits, InStep;
    if s.cursor < out && Fits(f, out, s.cursor) {
      var n, next := ChunkSize(out, s.cursor), After(f, size, out, s);
      var rest := Played(f, size, out, next);
      ChunkIsRight(f, size, s, n);
      RightJoin(f, size, s.cursor, Places(f, s, n), rest);
      AfterIff(f, size, out, s);
      if next.cursor < out {
        if Guard(f, size, out, s) {
          KeepsUpIff(f, size, out, next);
        } else {
          OutOfStepIsWrong(f, size, out, next);
        }
      }
    }
  }

  lemma StartsInStep(f: Format, size: nat)
    requires Supported(f)
    ensures InStep(f, size, 0, 0)
  {
    TimesZero(f.rate);
    TimesZero(FrameBytes(f));
  }

  /** A stream sounds right for every file of its size exactly when it keeps up. */
  lemma KeepsUpExactly(f: Format, size: nat, out: nat)
    requires Supported(f)
    ensures KeepsUp(f, size, out, START) <==>
      forall data: seq<nat> | |data| == size :: SoundsRight(f, data, out, Played(f, size, out, START))
  {
    hide KeepsUp, Played, RightPlaces, SoundsRight, InStep;
    StartsInStep(f, size);
    KeepsUpIff(f, size, out, START);
    SoundsRightExactly(f, size, out, Played(f, size, out, START));
  }

  // ---------------------------------------------------------------- rates that keep up, and one that does not

  /** The device's rate and below always keep up. */
  lemma {:induction false} SlowKeepsUp(f: Format, size: nat, out: nat, s: Ahead)
    requires Supported(f) && f.rate <= AC97_RATE && WellFormed(size, s)
    ensures KeepsUp(f, size, out, s)
    decreases out - s.cursor
  {
    if s.cursor < out {
      SlowChunk(f, size, out, s);
      SlowKeepsUp(f, size, out, After(f, size, out, s));
    }
  }

  lemma SlowChunk(f: Format, size: nat, out: nat, s: Ahead)
    requires Supported(f) && f.rate <= AC97_RATE && WellFormed(size, s) && s.cursor < out
    ensures Fits(f, out, s.cursor) && Guard(f, size, out, s)
  {
    hide Times, SourceIndex, FrameBytes;
    var n := ChunkSize(out, s.cursor);
    IndexStep(s.cursor, n - 1, f.rate);
    IndexStep(s.cursor + (n - 1), 1, f.rate);
    assert s.cursor + (n - 1) + 1 == s.cursor + n;
    TimesAtMost(Offset(f.rate, s.cursor, n), Offset(f.rate, s.cursor, n - 1) + 1, FrameBytes(f));
    SmallBytes(f, Offset(f.rate, s.cursor, n - 1) + 1);
  }

  lemma SmallBytes(f: Format, n: nat)
    requires Supported(f) && n <= DMA_FRAMES
    ensures Times(n, FrameBytes(f)) <= READ_AHEAD
  {}

  /** At m times the device's rate, each output frame steps over m whole source frames. */
  lemma MultipleOffset(m: nat, cursor: nat, i: nat)
    ensures Offset(m * AC97_RATE, cursor, i) == Times(i, m)
  {
    MultipleIndex(m, cursor);
    MultipleIndex(m, cursor + i);
    TimesAdd(cursor, i, m);
    IndexGrows(cursor, i, m * AC97_RATE);
  }

  lemma MultipleIndex(m: nat, i: nat)
    ensures SourceIndex(i, m * AC97_RATE) == Times(i, m)
  {
    assert i * (m * AC97_RATE) == (i * m) * AC97_RATE;
  }

  lemma Regroup(n: nat, m: nat, k: nat)
    ensures Times(Times(n, m), k) == Times(n, m * k)
  {
    assert (n * m) * k == n * (m * k);
  }

  /** The bytes of a chunk at m times the device's rate, where u bytes go with each output frame. */
  lemma MultipleBytes(f: Format, m: nat, u: nat, cursor: nat, n: nat)
    requires Supported(f) && f.rate == m * AC97_RATE && u == m * FrameBytes(f)
    ensures Times(Offset(f.rate, cursor, n), FrameBytes(f)) == Times(n, u)
    ensures n > 0 ==> NeededBytes(f, cursor, n) == Times(n - 1, u) + FrameBytes(f)
  {
    hide Times, FrameBytes, SourceIndex;
    MultipleOffset(m, cursor, n);
    Regroup(n, m, FrameBytes(f));
    if n > 0 {
      MultipleOffset(m, cursor, n - 1);
      Regroup(n - 1, m, FrameBytes(f));
      TimesNext(Times(n - 1, m), FrameBytes(f));
    }
  }

  /** A whole multiple of the device's rate keeps up as long as a chunk fits the read-ahead buffer. */
  lemma {:induction false} MultiplesKeepUp(f: Format, m: nat, size: nat, out: nat, s: Ahead)
    requires Supported(f) && f.rate == m * AC97_RATE && m * FrameBytes(f) <= 32 && WellFormed(size, s)
    requires (s.filePos - s.used) % DMA_FRAMES == 0 || s.filePos == size
    ensures KeepsUp(f, size, out, s)
    decreases out - s.cursor
  {
    hide Times, SourceIndex, FrameBytes;
    if s.cursor < out {
      var n, u := ChunkSize(out, s.cursor), m * FrameBytes(f);
      MultipleBytes(f, m, u, s.cursor, n);
      TimesAtMost(n - 1, DMA_FRAMES - 1, u);
      WholeChunk(u);
      if n == DMA_FRAMES {
        WholeLeft(Refilled(f, size, out, s) - s.used, u, FrameBytes(f), Refilled(f, size, out, s) == size);
        MultiplesKeepUp(f, m, size, out, After(f, size, out, s));
      }
    }
  }

  lemma WholeChunk(u: nat)
    ensures Times(DMA_FRAMES, u) == DMA_FRAMES * u && Times(DMA_FRAMES - 1, u) == (DMA_FRAMES - 1) * u
  {}

  /** Whole kibibytes that cover a chunk's needs cover its step, and whole kibibytes are left. */
  lemma WholeLeft(left: nat, u: nat, frame: nat, end: bool)
    requires (left % DMA_FRAMES == 0 && left >= (DMA_FRAMES - 1) * u + frame) || end
    requires u <= 32 && frame > 0
    ensures left >= DMA_FRAMES * u || end
    ensures !end ==> (left - DMA_FRAMES * u) % DMA_FRAMES == 0
  {}

  const ODD: Format := Format(192001, 1, 8)

  /** Where an 8-bit mono stream at 192001 Hz stands after k chunks. */
  function OddState(k: nat): Ahead {
    Ahead(DMA_FRAMES * k, 4096 * k, READ_AHEAD * ((k + 7) / 8))
  }

  lemma OddIndex(i: nat)
    ensures SourceIndex(i, 192001) == 4 * i + i / 48000
  {}

  lemma OddStep(size: nat, out: nat, k: nat)
    requires size > 196608 && out > 49152 && k < 46
    ensures After(ODD, size, out, OddState(k)) == OddState(k + 1)
  {
    hide SourceIndex;
    OddIndex(DMA_FRAMES * k);
    OddIndex(DMA_FRAMES * k + 1023);
    OddIndex(DMA_FRAMES * k + 1024);
  }

  lemma {:induction false} OddKeepsUpBackTo(size: nat, out: nat, k: nat)
    requires size > 196608 && out > 49152 && k <= 46
    ensures KeepsUp(ODD, size, out, START) ==> KeepsUp(ODD, size, out, OddState(k))
  {
    hide After, Guard, Fits;
    if k > 0 {
      OddKeepsUpBackTo(size, out, k - 1);
      OddStep(size, out, k - 1);
    }
  }

  /** A rate that does not keep up: of an 8-bit mono file at 192001 Hz a frame is lost after 48 chunks. */
  lemma OddRateLosesAFrame(size: nat, out: nat)
    requires size > 196608 && out > 49152
    ensures !KeepsUp(ODD, size, out, START)
  {
    hide SourceIndex;
    OddKeepsUpBackTo(size, out, 46);
    OddIndex(47104);
    OddIndex(48127);
    OddIndex(48128);
    OddIndex(49151);
    OddIndex(49152);
    var s := OddState(46);
    assert After(ODD, size, out, s) == Ahead(48128, 192513, 196608);
    assert !Guard(ODD, size, out, Ahead(48128, 192513, 196608));
  }

  // ---------------------------------------------------------------- playing from memory

  /** The source index and the error term of the loop over a chunk that starts at cursor, in 32 bits. */
  function Running(rate: nat, cursor: nat, i: nat): (nat, nat) {
    if i == 0 then (SourceIndex(cursor, rate), Times(cursor, rate) % AC97_RATE)
    else
      var (index, error) := Running(rate, cursor, i - 1);
      (index + Advance(error, rate).0, Advance(error, rate).1)
  }

  /** The source frame that playback from memory really takes at output frame i. */
  function MemoryIndex(rate: nat, i: nat): nat {
    Running(rate, i - i % DMA_FRAMES, i % DMA_FRAMES).0
  }

  /** The step from output frame i to the next fits in 32 bits. */
  predicate StepFits(rate: nat, i: nat) {
    Times(i, rate) % AC97_RATE + rate < TWO_TO_32
  }

  predicate StepsFit(rate: nat, cursor: nat, i: nat) {
    forall j :: cursor <= j < cursor + i ==> StepFits(rate, j)
  }

  /** How far the running sum is behind; it is exact or at least 2^32 behind. */
  lemma {:induction false} RunningBehind(rate: nat, cursor: nat, i: nat)
    requires rate < TWO_TO_32
    ensures var (index, error) := Running(rate, cursor, i);
            var behind := Times(cursor + i, rate) - (index * AC97_RATE + error);
            && error < AC97_RATE && (behind == 0 || behind >= TWO_TO_32)
            && (behind == 0 <==> StepsFit(rate, cursor, i))
  {
    hide Times;
    if i == 0 {
      StartError(cursor, rate);
    } else {
      RunningBehind(rate, cursor, i - 1);
      var (index, error) := Running(rate, cursor, i - 1);
      TimesNext(cursor + (i - 1), rate);
      assert cursor + (i - 1) + 1 == cursor + i;
      AdvanceBy(error, rate);
      ExactError(rate, cursor + (i - 1), index, error);
      assert StepsFit(rate, cursor, i) <==> StepsFit(rate, cursor, i - 1) && StepFits(rate, cursor + (i - 1));
    }
  }

  lemma AdvanceBy(error: nat, rate: nat)
    requires error < AC97_RATE && rate < TWO_TO_32
    ensures Advance(error, rate).1 < AC97_RATE
    ensures Advance(error, rate).0 * AC97_RATE + Advance(error, rate).1
            == error + rate - if error + rate < TWO_TO_32 then 0 else TWO_TO_32
  {}

  lemma ExactError(rate: nat, i: nat, index: nat, error: nat)
    requires error < AC97_RATE
    ensures index * AC97_RATE + error == Times(i, rate) ==> error == Times(i, rate) % AC97_RATE
  {}

  /** An index of a chunk is right exactly when every step before it in the chunk fits in 32 bits; it is never
      too large. */
  lemma RunningIff(rate: nat, cursor: nat, i: nat)
    requires rate < TWO_TO_32
    ensures Running(rate, cursor, i).0 == SourceIndex(cursor + i, rate) <==> StepsFit(rate, cursor, i)
    ensures Running(rate, cursor, i).0 <= SourceIndex(cursor + i, rate)
  {
    hide Times;
    RunningBehind(rate, cursor, i);
    StartError(cursor + i, rate);
  }

  /** The source indices of a chunk of n output frames. */
  function ChunkIndices(rate: nat, cursor: nat, n: nat): (r: seq<nat>)
    ensures |r| == n
  {
    seq(n, i requires i >= 0 => Running(rate, cursor, i).0)
  }

  predicate IndicesRight(rate: nat, cursor: nat, indices: seq<nat>) {
    forall i :: 0 <= i < |indices| ==> indices[i] == SourceIndex(cursor + i, rate)
  }

  /** A chunk from memory is right exactly when every step that it uses fits in 32 bits. */
  lemma ChunkIndicesIff(rate: nat, cursor: nat, n: nat)
    requires rate < TWO_TO_32 && n > 0
    ensures IndicesRight(rate, cursor, ChunkIndices(rate, cursor, n)) <==> StepsFit(rate, cursor, n - 1)
  {
    hide SourceIndex, Running, StepFits;
    var indices := ChunkIndices(rate, cursor, n);
    forall i | 0 <= i < n ensures indices[i] == SourceIndex(cursor + i, rate) <==> StepsFit(rate, cursor, i) {
      RunningIff(rate, cursor, i);
    }
    assert indices[n - 1] == SourceIndex(cursor + (n - 1), rate) <==> StepsFit(rate, cursor, n - 1);
  }

  /** Every step that playback of so many output frames uses fits in 32 bits. */
  predicate MemoryFits(rate: nat, out: nat) {
    forall i :: 0 <= i && i + 1 < out && (i + 1) % DMA_FRAMES != 0 ==> StepFits(rate, i)
  }

  lemma MemoryIndexIff(rate: nat, i: nat)
    requires rate < TWO_TO_32
    ensures MemoryIndex(rate, i) == SourceIndex(i, rate) <==> StepsFit(rate, i - i % DMA_FRAMES, i % DMA_FRAMES)
    ensures MemoryIndex(rate, i) <= SourceIndex(i, rate)
  {
    RunningIff(rate, i - i % DMA_FRAMES, i % DMA_FRAMES);
  }

  lemma MemoryFitsIff(rate: nat, out: nat)
    requires rate < TWO_TO_32
    ensures MemoryFits(rate, out) <==> forall i :: 0 <= i < out ==> MemoryIndex(rate, i) == SourceIndex(i, rate)
  {
    hide StepFits, MemoryIndex, SourceIndex;
    forall i | 0 <= i < out
      ensures MemoryIndex(rate, i) == SourceIndex(i, rate) <==> StepsFit(rate, i - i % DMA_FRAMES, i % DMA_FRAMES)
    {
      MemoryIndexIff(rate, i);
    }
    if MemoryFits(rate, out) {
      forall i | 0 <= i < out ensures StepsFit(rate, i - i % DMA_FRAMES, i % DMA_FRAMES) {
        UsedSteps(rate, out, i);
      }
    } else {
      var i :| 0 <= i && i + 1 < out && (i + 1) % DMA_FRAMES != 0 && !StepFits(rate, i);
      SameChunk(i);
      var next := i + 1;
      assert !StepsFit(rate, next - next % DMA_FRAMES, next % DMA_FRAMES);
      assert MemoryIndex(rate, next) != SourceIndex(next, rate);
    }
  }

  lemma SameChunk(i: nat)
    requires (i + 1) % DMA_FRAMES != 0
    ensures i + 1 - (i + 1) % DMA_FRAMES <= i
  {}

  lemma UsedSteps(rate: nat, out: nat, i: nat)
    requires MemoryFits(rate, out) && i < out
    ensures StepsFit(rate, i - i % DMA_FRAMES, i % DMA_FRAMES)
  {
    hide StepFits;
    forall j | i - i % DMA_FRAMES <= j < i ensures StepFits(rate, j) {
      assert (j + 1) % DMA_FRAMES != 0;
    }
  }

  function MemoryPlaces(f: Format, out: nat): (r: seq<nat>)
    requires Supported(f)
    ensures |r| == out
  {
    seq(out, i requires i >= 0 => Times(MemoryIndex(f.rate, i), FrameBytes(f)))
  }

  lemma TimesIsInjective(a: nat, b: nat, m: nat)
    requires m > 0
    ensures Times(a, m) == Times(b, m) <==> a == b
  {
    if a < b {
      TimesAtMost(a + 1, b, m);
      TimesNext(a, m);
    } else if b < a {
      TimesAtMost(b + 1, a, m);
      TimesNext(b, m);
    }
  }

  lemma MemoryPlaceIff(f: Format, frames: nat, i: nat)
    requires Supported(f) && i < OutFrames(frames, f.rate)
    ensures SameSound(f, Times(frames, FrameBytes(f)), Times(MemoryIndex(f.rate, i), FrameBytes(f)),
              Times(SourceIndex(i, f.rate), FrameBytes(f)))
            <==> MemoryIndex(f.rate, i) == SourceIndex(i, f.rate)
  {
    hide Times, MemoryIndex, SourceIndex, FrameBytes, OutFrames;
    IndexInRange(i, frames, f.rate);
    MemoryIndexIff(f.rate, i);
    var a, b := MemoryIndex(f.rate, i), SourceIndex(i, f.rate);
    TimesIsInjective(a, b, FrameBytes(f));
    TimesAtMost(b + 1, frames, FrameBytes(f));
    TimesNext(b, FrameBytes(f));
  }

  /** Playback from memory sounds right for every file exactly when every step it uses fits in 32 bits. */
  lemma MemoryExactly(f: Format, frames: nat)
    requires Supported(f)
    ensures var out := OutFrames(frames, f.rate);
            MemoryFits(f.rate, out) <==>
              forall data: seq<nat> | |data| == Times(frames, FrameBytes(f)) ::
                SoundsRight(f, data, out, MemoryPlaces(f, out))
  {
    hide Times, MemoryIndex, SourceIndex, FrameBytes, OutFrames, MemoryFits, SoundsRight, SameSound;
    var out, size := OutFrames(frames, f.rate), Times(frames, FrameBytes(f));
    var places := MemoryPlaces(f, out);
    SoundsRightExactly(f, size, out, places);
    MemoryFitsIff(f.rate, out);
    forall i | 0 <= i < out
      ensures SameSound(f, size, places[i], Times(SourceIndex(0 + i, f.rate), FrameBytes(f)))
        <==> MemoryIndex(f.rate, i) == SourceIndex(i, f.rate)
    {
      MemoryPlaceIff(f, frames, i);
    }
  }

  /** Up to 2^32 - 48000 Hz every step fits. */
  lemma OrdinaryRateFits(rate: nat, out: nat)
    requires rate <= TWO_TO_32 - AC97_RATE
    ensures MemoryFits(rate, out)
  {}

  /** A file that playback from memory plays wrongly: output frame 2 should be source frame 178956. */
  lemma HighestRateIsWrong()
    ensures var rate := 4294967295;
            && OutFrames(178957, rate) == 3 && !MemoryFits(rate, 3)
            && SourceIndex(2, rate) == 178956 && MemoryIndex(rate, 2) == 89478
  {
    var rate := 4294967295;
    assert Running(rate, 0, 1) == (89478, 23295);
    assert Running(rate, 0, 2) == (89478, 23294);
    assert !StepFits(rate, 1);
  }
}
