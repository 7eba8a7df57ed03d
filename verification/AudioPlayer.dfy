/** The audio pump in place: streaming through a read-ahead buffer, or from memory. */
module AudioPlayer {
  import opened Numbers
  import opened AudioModel
  import opened AudioAhead

  /** The frames at some places of a file, at some volume. */
  ghost predicate Sounds(f: Format, data: seq<nat>, places: seq<nat>, percent: nat, chunk: seq<Frame>)
    requires Supported(f)
  {
    |chunk| == |places| && forall i :: 0 <= i < |chunk| ==> chunk[i] == Scaled(FrameAt(f, data, places[i]), percent)
  }

  class Player {
    const fmt: Format
    /** The sound data of the file; all of it is in memory unless it is streamed. */
    const data: seq<nat>
    const streamed: bool
    const sourceFrames: nat
    const outFrames: nat
    const raBuf: array<nat>
    var filePos: nat
    var raLen: nat
    var raPos: nat
    var raError: nat
    var cursor: nat
    var volume: nat
    /** What the device has taken. */
    var sent: seq<Frame>
    /** Where in the file each frame was taken from, and how loud it was. */
    ghost var places: seq<nat>
    ghost var volumes: seq<nat>

    /** Bytes of the file already used up. */
    ghost function Used(): int
      reads this
    {
      filePos - (raLen - raPos)
    }

    /** The read-ahead buffer holds the file's next bytes. */
    ghost predicate Buffered()
      reads this, raBuf
    {
      && raBuf.Length == READ_AHEAD
      && raPos <= raLen <= READ_AHEAD && raLen - raPos <= filePos <= |data|
      && forall k :: raPos <= k < raLen ==> raBuf[k] == data[k + (filePos - raLen)]
    }

    ghost function Now(): (s: Ahead)
      requires Buffered()
      reads this, raBuf
      ensures WellFormed(|data|, s)
    {
      Ahead(cursor, Used(), filePos)
    }

    ghost predicate SentAsTaken()
      requires Supported(fmt)
      reads this
    {
      && |sent| == |places| == |volumes| == cursor <= outFrames
      && forall i :: 0 <= i < cursor ==> sent[i] == Scaled(FrameAt(fmt, data, places[i]), volumes[i])
    }

    /** A stream in the device's own format is always in step; another plays what its read-ahead determines. */
    ghost predicate StreamPlaces()
      requires Supported(fmt) && Buffered()
      reads this, raBuf
    {
      if Native(fmt) then InStep(fmt, |data|, Used(), cursor) && RightPlaces(fmt, |data|, 0, places)
      else places + Played(fmt, |data|, outFrames, Now()) == Played(fmt, |data|, outFrames, START)
    }

    ghost predicate Valid()
      reads this, raBuf
    {
      && Supported(fmt) && outFrames == OutFrames(sourceFrames, fmt.rate)
      && SentAsTaken()
      && (if streamed then
            && Buffered() && StreamPlaces()
            && (cursor < outFrames ==> raError == Times(cursor, fmt.rate) % AC97_RATE)
          else
            && |data| == Times(sourceFrames, FrameBytes(fmt))
            && (cursor < outFrames ==> cursor % DMA_FRAMES == 0)
            && places <= MemoryPlaces(fmt, outFrames))
    }

    /** Since some earlier time frames were only added, all at the present volume. */
    ghost predicate Added(sentThen: seq<Frame>, volumesThen: seq<nat>)
      reads this
    {
      && sentThen <= sent && volumesThen <= volumes
      && forall i :: |volumesThen| <= i < |volumes| ==> volumes[i] == volume
    }

    /** Playback of this file is right: from memory while its steps fit in 32 bits, streamed while it keeps up. */
    ghost predicate PlaysRight()
      requires Supported(fmt)
    {
      if streamed then Native(fmt) || KeepsUp(fmt, |data|, outFrames, START) else MemoryFits(fmt.rate, outFrames)
    }

    /** What was sent is the source resampled. */
    lemma SentIsRight()
      requires Valid() && PlaysRight()
      ensures forall i :: 0 <= i < cursor ==> sent[i] == OutputFrame(fmt, data, i, volumes[i])
    {
      hide Times, SourceIndex, FrameBytes, FrameAt, OutFrames, KeepsUp, Played, MemoryFits, MemoryIndex, SameSound;
      if streamed {
        if !Native(fmt) {
          StartsInStep(fmt, |data|);
          KeepsUpIff(fmt, |data|, outFrames, START);
          RightJoin(fmt, |data|, 0, places, Played(fmt, |data|, outFrames, Now()));
        }
        forall i | 0 <= i < cursor ensures sent[i] == OutputFrame(fmt, data, i, volumes[i]) {
          SameSoundExactly(fmt, |data|, places[i], Times(SourceIndex(0 + i, fmt.rate), FrameBytes(fmt)));
        }
      } else {
        MemoryFitsIff(fmt.rate, outFrames);
        assert forall i :: 0 <= i < cursor ==> places[i] == MemoryPlaces(fmt, outFrames)[i];
      }
    }

    constructor (fmt: Format, data: seq<nat>, streamed: bool, sourceFrames: nat)
      requires Supported(fmt)
      requires !streamed ==> |data| == Times(sourceFrames, FrameBytes(fmt))
      ensures Valid() && cursor == 0 && volume == 100 && sent == [] && fresh(raBuf)
      ensures this.fmt == fmt && this.data == data && this.streamed == streamed && this.sourceFrames == sourceFrames
    {
      this.fmt, this.data, this.streamed, this.sourceFrames := fmt, data, streamed, sourceFrames;
      outFrames := OutFrames(sourceFrames, fmt.rate);
      raBuf := new nat[READ_AHEAD];
      filePos, raLen, raPos, raError, cursor, volume := 0, 0, 0, 0, 0, 100;
      sent, places, volumes := [], [], [];
      new;
      TimesZero(fmt.rate);
      StartsInStep(fmt, |data|);
      assert [] + Played(fmt, |data|, outFrames, START) == Played(fmt, |data|, outFrames, START);
    }

    /** Moves the unused bytes to the front and reads as many more as fit; a read is short only at the
        end of the file. */
    method Refill()
      requires Buffered()
      modifies this`filePos, this`raLen, this`raPos, raBuf
      ensures Buffered() && Used() == old(Used())
      ensures filePos == if Used() + READ_AHEAD < |data| then Used() + READ_AHEAD else |data|
      ensures raPos == 0 && raLen >= old(raLen - raPos)
    {
      var leftover := raLen - raPos;
      MoveDown(leftover);
      raPos := 0;
      raLen := leftover;
      var want := READ_AHEAD - raLen;
      var got := if want < |data| - filePos then want else |data| - filePos;
      Append(got);
      filePos := filePos + got;
      raLen := raLen + got;
    }

    method Append(got: nat)
      requires raLen + got <= raBuf.Length && filePos + got <= |data|
      modifies raBuf
      ensures forall j :: 0 <= j < raLen ==> raBuf[j] == old(raBuf[j])
      ensures forall j :: raLen <= j < raLen + got ==> raBuf[j] == data[j + (filePos - raLen)]
    {
      for k := 0 to got
        invariant forall j :: 0 <= j < raLen ==> raBuf[j] == old(raBuf[j])
        invariant forall j :: raLen <= j < raLen + k ==> raBuf[j] == data[j + (filePos - raLen)]
      {
        raBuf[raLen + k] := data[filePos + k];
      }
    }

    method MoveDown(n: nat)
      requires Buffered() && n == raLen - raPos
      modifies raBuf
      ensures forall k :: 0 <= k < n ==> raBuf[k] == data[k + (filePos - n)]
    {
      for k := 0 to n
        invariant forall j :: 0 <= j < k ==> raBuf[j] == old(raBuf[raPos + j])
        invariant forall j :: k <= j < raBuf.Length ==> raBuf[j] == old(raBuf[j])
      {
        raBuf[k] := raBuf[raPos + k];
      }
    }

    /** Steps over the source by one output frame, in 32 bits. */
    method Step(error: nat) returns (steps: nat, next: nat)
      ensures (steps, next) == Advance(error, fmt.rate)
    {
      next := (error + fmt.rate) % TWO_TO_32;
      steps := 0;
      ghost var sum := next;
      while next >= AC97_RATE
        invariant steps * AC97_RATE + next == sum
      {
        next := next - AC97_RATE;
        steps := steps + 1;
      }
    }

    /** The bytes the next output frames need are in the buffer, or the file has no more. */
    method Prepare(toSend: nat) returns (ok: bool)
      requires Supported(fmt) && Buffered() && cursor < outFrames && toSend == ChunkSize(outFrames, cursor)
      modifies this`filePos, this`raLen, this`raPos, raBuf
      ensures Buffered() && Used() == old(Used())
      ensures ok == Fits(fmt, outFrames, cursor)
      ensures ok ==> filePos == old(Refilled(fmt, |data|, outFrames, Now()))
      ensures !ok ==> filePos == old(filePos)
    {
      hide SourceIndex, Times, FrameBytes;
      IndexGrows(cursor, toSend - 1, fmt.rate);
      var srcLast := SourceIndex(cursor + toSend - 1, fmt.rate);
      var srcStart := SourceIndex(cursor, fmt.rate);
      assert cursor + toSend - 1 == cursor + (toSend - 1);
      var srcBytes := Times(srcLast - srcStart + 1, FrameBytes(fmt));
      if srcBytes > READ_AHEAD {
        return false;
      }
      if raPos + srcBytes > raLen {
        Refill();
      }
      return true;
    }

    /** Frame si of the buffered bytes, or silence where the file has run out. */
    method BufferedFrame(si: nat) returns (frame: Frame)
      requires Supported(fmt) && Buffered()
      requires filePos == |data| || Times(si + 1, FrameBytes(fmt)) <= raLen - raPos
      ensures frame == FrameAt(fmt, data, Used() + Times(si, FrameBytes(fmt)))
    {
      hide Times, FrameBytes, Decode;
      var byteOff := Times(si, FrameBytes(fmt));
      TimesNext(si, FrameBytes(fmt));
      frame := Frame(0, 0);
      if byteOff + FrameBytes(fmt) <= raLen - raPos {
        frame := Decode(fmt, raBuf[..], raPos + byteOff);
        DecodeSame(fmt, raBuf[..], raPos + byteOff, data, Used() + byteOff);
      }
    }

    /** Where several frames fit the read-ahead buffer, or the rate is ordinary, no step overflows. */
    ghost predicate StepsExact(toSend: nat) {
      toSend > 1 || fmt.rate <= TWO_TO_32 - AC97_RATE
    }

    lemma ChunkSteps(toSend: nat)
      requires Supported(fmt) && cursor < outFrames && toSend == ChunkSize(outFrames, cursor)
      requires Fits(fmt, outFrames, cursor)
      ensures toSend > 1 ==> fmt.rate <= TWO_TO_32 - AC97_RATE
    {
      if toSend > 1 {
        hide FrameBytes, OutFrames;
        var off := Offset(fmt.rate, cursor, toSend - 1);
        TimesAtMost(1, FrameBytes(fmt), off + 1);
        TimesSwap(off + 1, FrameBytes(fmt));
        assert Times(1, off + 1) == off + 1;
        TimesNext(cursor, fmt.rate);
        IndexGrows(cursor + 1, toSend - 2, fmt.rate);
        assert cursor + 1 + (toSend - 2) == cursor + (toSend - 1);
      }
    }

    /** The next output frames, and what the read-ahead state becomes once the device takes them. If the stream
        was in step it stays so exactly when all the bytes it steps over were read or no frame is left. */
    method ConvertStreamed(toSend: nat) returns (ok: bool, chunk: seq<Frame>, advance: nat, newError: nat)
      requires Supported(fmt) && Buffered() && cursor < outFrames && toSend == ChunkSize(outFrames, cursor)
      requires raError == Times(cursor, fmt.rate) % AC97_RATE
      modifies this`filePos, this`raLen, this`raPos, raBuf
      ensures Buffered() && Used() == old(Used()) && ok == Fits(fmt, outFrames, cursor)
      ensures filePos == if ok then old(Refilled(fmt, |data|, outFrames, Now())) else old(filePos)
      ensures ok ==> Sounds(fmt, data, Places(fmt, Now(), toSend), volume, chunk)
      ensures ok ==> advance <= raLen - raPos
      ensures ok && StepsExact(toSend) ==> newError == Times(cursor + toSend, fmt.rate) % AC97_RATE
      ensures ok && StepsExact(toSend) ==>
        advance == if BytesStepped(fmt, outFrames, cursor) > raLen - raPos then raLen - raPos
                   else BytesStepped(fmt, outFrames, cursor)
      ensures ok && StepsExact(toSend) && old(InStep(fmt, |data|, Used(), cursor)) ==>
        (InStep(fmt, |data|, Used() + advance, cursor + toSend) <==>
          BytesStepped(fmt, outFrames, cursor) <= raLen - raPos || filePos + FrameBytes(fmt) > |data|)
    {
      hide SourceIndex, Times, FrameBytes, FrameAt, Scaled, OutFrames, InStep;
      chunk, advance, newError := [], 0, 0;
      ok := Prepare(toSend);
      if !ok {
        return;
      }
      ChunkSteps(toSend);
      var si, error := 0, 0;
      chunk, si, error := ConvertFrames(toSend);
      var consumed := Times(si, FrameBytes(fmt));
      var avail := raLen - raPos;
      advance := if consumed > avail then avail else consumed;
      newError := error;
      if InStep(fmt, |data|, Used(), cursor) {
        StepIff(fmt, |data|, Used(), cursor, toSend, filePos);
      }
    }

    /** The loop over the frames of a chunk. */
    method ConvertFrames(toSend: nat) returns (chunk: seq<Frame>, si: nat, error: nat)
      requires Supported(fmt) && Buffered() && cursor < outFrames && toSend == ChunkSize(outFrames, cursor)
      requires Fits(fmt, outFrames, cursor) && raError == Times(cursor, fmt.rate) % AC97_RATE
      requires filePos == |data| || raLen - raPos >= NeededBytes(fmt, cursor, toSend)
      ensures Sounds(fmt, data, Places(fmt, Now(), toSend), volume, chunk)
      ensures StepsExact(toSend) ==> error == Times(cursor + toSend, fmt.rate) % AC97_RATE
      ensures StepsExact(toSend) ==> si == Offset(fmt.rate, cursor, toSend)
    {
      hide SourceIndex, Times, FrameBytes, FrameAt, Scaled, OutFrames, InStep;
      ChunkSteps(toSend);
      ghost var base := SourceIndex(cursor, fmt.rate);
      si := 0;
      error := raError;
      StartError(cursor, fmt.rate);
      chunk := [];
      for i := 0 to toSend
        invariant Sounds(fmt, data, Places(fmt, Now(), i), volume, chunk)
        invariant i < toSend || StepsExact(toSend) ==>
          error < AC97_RATE && (base + si) * AC97_RATE + error == Times(cursor + i, fmt.rate)
      {
        RunningError(cursor, i, fmt.rate, si, error);
        WithinNeeded(toSend, i);
        var frame := BufferedFrame(si);
        chunk := chunk + [Scaled(frame, volume)];
        TimesNext(cursor + i, fmt.rate);
        AdvanceBy(error, fmt.rate);
        var steps;
        steps, error := Step(error);
        si := si + steps;
      }
      if StepsExact(toSend) {
        RunningError(cursor, toSend, fmt.rate, si, error);
      }
    }

    lemma WithinNeeded(toSend: nat, i: nat)
      requires Supported(fmt) && i < toSend
      ensures Times(Offset(fmt.rate, cursor, i) + 1, FrameBytes(fmt)) <= NeededBytes(fmt, cursor, toSend)
    {
      hide SourceIndex, Times, FrameBytes;
      IndexGrows(cursor + i, toSend - 1 - i, fmt.rate);
      assert cursor + i + (toSend - 1 - i) == cursor + (toSend - 1);
      TimesAtMost(Offset(fmt.rate, cursor, i) + 1, Offset(fmt.rate, cursor, toSend - 1) + 1, FrameBytes(fmt));
    }

    /** The next output frames from memory. The chunk is right exactly when every step that it uses fits in
        32 bits. */
    method ConvertBuffered(toSend: nat) returns (chunk: seq<Frame>, ghost indices: seq<nat>)
      requires Valid() && !streamed && cursor < outFrames && toSend == ChunkSize(outFrames, cursor)
      ensures |indices| == |chunk| == toSend
      ensures forall i :: 0 <= i < toSend ==> chunk[i] == Scaled(SourceFrame(fmt, data, indices[i]), volume)
      ensures IndicesRight(fmt.rate, cursor, indices) <==> StepsFit(fmt.rate, cursor, toSend - 1)
      ensures Sounds(fmt, data, MemoryPlaces(fmt, outFrames)[cursor..cursor + toSend], volume, chunk)
    {
      hide SourceIndex, Times, FrameBytes, FrameAt, Scaled, OutFrames, MemoryIndex, Running, StepsFit, IndicesRight;
      indices := ChunkIndices(fmt.rate, cursor, toSend);
      ChunkIndicesIff(fmt.rate, cursor, toSend);
      if Native(fmt) && volume == 100 {
        chunk := CopyNative(toSend);
      } else {
        chunk := ConvertFromMemory(toSend);
      }
      forall i | 0 <= i < toSend ensures chunk[i] == Scaled(SourceFrame(fmt, data, indices[i]), volume) {
        MemoryIndexIs(cursor, i);
        assert chunk[i] == Scaled(FrameAt(fmt, data, MemoryPlaces(fmt, outFrames)[cursor..cursor + toSend][i]), volume);
      }
    }

    /** The loop over the frames of a chunk from memory. */
    method ConvertFromMemory(toSend: nat) returns (chunk: seq<Frame>)
      requires Valid() && !streamed && cursor < outFrames && toSend == ChunkSize(outFrames, cursor)
      ensures Sounds(fmt, data, MemoryPlaces(fmt, outFrames)[cursor..cursor + toSend], volume, chunk)
    {
      hide SourceIndex, Times, FrameBytes, FrameAt, Scaled, OutFrames, MemoryIndex, Running, Decode;
      var srcIdx: nat := SourceIndex(cursor, fmt.rate);
      var error: nat := Times(cursor, fmt.rate) % AC97_RATE;
      RunningStart(fmt.rate, cursor);
      chunk := [];
      for i := 0 to toSend
        invariant Sounds(fmt, data, MemoryPlaces(fmt, outFrames)[cursor..cursor + i], volume, chunk)
        invariant (srcIdx, error) == Running(fmt.rate, cursor, i)
      {
        MemoryIndexIs(cursor, i);
        // The clamp to the last source frame never fires.
        InRange(cursor + i);
        assert srcIdx < sourceFrames;
        var frame := Decode(fmt, data, Times(srcIdx, FrameBytes(fmt)));
        FrameIs(Times(srcIdx, FrameBytes(fmt)));
        chunk := chunk + [Scaled(frame, volume)];
        RunningNext(fmt.rate, cursor, i);
        var steps;
        steps, error := Step(error);
        srcIdx := srcIdx + steps;
      }
    }

    lemma MemoryIndexIs(start: nat, i: nat)
      requires start % DMA_FRAMES == 0 && i < DMA_FRAMES
      ensures MemoryIndex(fmt.rate, start + i) == Running(fmt.rate, start, i).0
    {
      assert (start + i) % DMA_FRAMES == i;
    }

    lemma InRange(i: nat)
      requires Valid() && !streamed && i < outFrames
      ensures MemoryIndex(fmt.rate, i) < sourceFrames
      ensures Times(MemoryIndex(fmt.rate, i), FrameBytes(fmt)) + FrameBytes(fmt) <= |data|
    {
      hide Times, FrameBytes, OutFrames, MemoryIndex, SourceIndex;
      MemoryIndexIff(fmt.rate, i);
      IndexInRange(i, sourceFrames, fmt.rate);
      TimesNext(MemoryIndex(fmt.rate, i), FrameBytes(fmt));
      TimesAtMost(MemoryIndex(fmt.rate, i) + 1, sourceFrames, FrameBytes(fmt));
    }

    lemma FrameIs(pos: nat)
      requires Supported(fmt) && pos + FrameBytes(fmt) <= |data|
      ensures FrameAt(fmt, data, pos) == Decode(fmt, data, pos)
    {}

    /** Frames that are already what the device plays are copied. */
    method CopyNative(toSend: nat) returns (chunk: seq<Frame>)
      requires Valid() && !streamed && cursor < outFrames && toSend == ChunkSize(outFrames, cursor)
      requires Native(fmt) && volume == 100
      ensures Sounds(fmt, data, MemoryPlaces(fmt, outFrames)[cursor..cursor + toSend], volume, chunk)
    {
      hide OutFrames, MemoryIndex, FrameAt;
      OrdinaryRateFits(fmt.rate, outFrames);
      MemoryFitsIff(fmt.rate, outFrames);
      chunk := [];
      for i := 0 to toSend
        invariant Sounds(fmt, data, MemoryPlaces(fmt, outFrames)[cursor..cursor + i], volume, chunk)
      {
        var at := (cursor + i) * 4;
        InRange(cursor + i);
        NativeFrame(fmt, cursor + i);
        FrameIs(at);
        chunk := chunk + [Frame(Signed16(data[at], data[at + 1]), Signed16(data[at + 2], data[at + 3]))];
      }
    }

    /** Chunks are converted and handed to the device until it has no room; a chunk it refuses is
        forgotten and converted again by the next call. It gives up at a chunk that does not fit the read-ahead
        buffer. */
    method PumpChunks(room: nat) returns (rc: int)
      requires Valid()
      modifies this, raBuf
      ensures Valid() && volume == old(volume) && Added(old(sent), old(volumes))
      ensures rc == -1 <==> streamed && cursor < outFrames && !Fits(fmt, outFrames, cursor)
      ensures rc != -1 ==> cursor == Upto(old(cursor), DMA_FRAMES * room, outFrames)
      ensures rc == -1 ==> old(cursor) <= cursor <= Upto(old(cursor), DMA_FRAMES * room, outFrames)
      ensures rc != -1 ==> rc == if cursor == outFrames then 1 else 0
    {
      hide SourceIndex, Times, FrameBytes, OutFrames, FrameAt, InStep, Played, MemoryPlaces, RightPlaces, Fits;
      var left: nat := room;
      while true
        invariant Valid() && volume == old(volume) && Added(old(sent), old(volumes)) && left <= room
        invariant cursor == Upto(old(cursor), DMA_FRAMES * (room - left), outFrames)
        decreases left
      {
        if cursor >= outFrames {
          return 1;
        }
        var toSend := if outFrames - cursor < DMA_FRAMES then outFrames - cursor else DMA_FRAMES;
        if streamed {
          var chunk, advance, newError;
          rc, chunk, advance, newError := NextStreamed(toSend);
          if rc < 0 {
            return;
          }
          if left == 0 {
            return 0;
          }
          left := left - 1;
          CommitStreamed(chunk, advance, newError);
        } else {
          ghost var indices;
          var chunk;
          chunk, indices := ConvertBuffered(toSend);
          if left == 0 {
            return 0;
          }
          left := left - 1;
          CommitBuffered(chunk);
        }
      }
    }

    /** What a converted chunk needs to be sent. */
    ghost predicate Converted(chunk: seq<Frame>, advance: nat, newError: nat)
      requires Supported(fmt) && Buffered() && cursor < outFrames
      reads this, raBuf
    {
      var n := ChunkSize(outFrames, cursor);
      && Fits(fmt, outFrames, cursor) && filePos == Refilled(fmt, |data|, outFrames, Now())
      && Sounds(fmt, data, Places(fmt, Now(), n), volume, chunk)
      && advance <= raLen - raPos
      && (StepsExact(n) ==>
        && newError == Times(cursor + n, fmt.rate) % AC97_RATE
        && advance == After(fmt, |data|, outFrames, Now()).used - Used())
    }

    method NextStreamed(toSend: nat) returns (rc: int, chunk: seq<Frame>, advance: nat, newError: nat)
      requires Valid() && streamed && cursor < outFrames && toSend == ChunkSize(outFrames, cursor)
      modifies this`filePos, this`raLen, this`raPos, raBuf
      ensures Valid()
      ensures rc == if Fits(fmt, outFrames, cursor) then 0 else -1
      ensures rc == 0 ==> Converted(chunk, advance, newError)
    {
      hide SourceIndex, Times, FrameBytes, OutFrames, FrameAt, InStep, RightPlaces;
      ghost var before := Now();
      var ok;
      ok, chunk, advance, newError := ConvertStreamed(toSend);
      if ok {
        RefilledTwice(fmt, |data|, outFrames, before);
        rc := 0;
      } else {
        rc := -1;
      }
    }

    /** A chunk that the device took is what the stream plays next. */
    method CommitStreamed(chunk: seq<Frame>, advance: nat, newError: nat)
      requires Valid() && streamed && cursor < outFrames && Converted(chunk, advance, newError)
      modifies this`raPos, this`raError, this`cursor, this`sent, this`places, this`volumes
      ensures Valid() && cursor == old(cursor) + ChunkSize(outFrames, old(cursor)) && Added(old(sent), old(volumes))
    {
      hide SourceIndex, Times, FrameBytes, OutFrames, FrameAt, Fits, Refilled, BytesStepped, InStep, RightPlaces,
          Scaled, Places, Played;
      ghost var before, n := Now(), ChunkSize(outFrames, cursor);
      ghost var taken, next := Places(fmt, before, n), After(fmt, |data|, outFrames, before);
      ghost var was, percent := places, volume;
      StepsOrLast(n);
      PlayedNext(fmt, |data|, outFrames, before);
      if Native(fmt) {
        ChunkIsRight(fmt, |data|, before, n);
        RightJoin(fmt, |data|, 0, places, taken);
        SlowChunk(fmt, |data|, outFrames, before);
        AfterIff(fmt, |data|, outFrames, before);
      }
      raPos := raPos + advance;
      raError := newError;
      cursor := cursor + |chunk|;
      sent := sent + chunk;
      places := places + taken;
      volumes := volumes + seq(n, _ => percent);
      if !Native(fmt) {
        NowPlays(fmt, |data|, outFrames, Now(), next);
        JoinThree(was, taken, Played(fmt, |data|, outFrames, next));
      }
    }

    /** A step that may overflow is the last of the output. */
    lemma StepsOrLast(n: nat)
      requires Supported(fmt) && cursor < outFrames && n == ChunkSize(outFrames, cursor)
      ensures Native(fmt) || cursor + n < outFrames ==> StepsExact(n)
    {}

    method CommitBuffered(chunk: seq<Frame>)
      requires Valid() && !streamed && cursor < outFrames
      requires Sounds(fmt, data, MemoryPlaces(fmt, outFrames)[cursor..cursor + ChunkSize(outFrames, cursor)], volume,
          chunk)
      modifies this`cursor, this`sent, this`places, this`volumes
      ensures Valid() && cursor == old(cursor) + ChunkSize(outFrames, old(cursor)) && Added(old(sent), old(volumes))
    {
      hide Times, FrameBytes, OutFrames, FrameAt, MemoryIndex, Scaled;
      ghost var n, percent := ChunkSize(outFrames, cursor), volume;
      ghost var all := MemoryPlaces(fmt, outFrames);
      ghost var taken := all[cursor..cursor + n];
      assert all[..cursor] + taken == all[..cursor + n];
      assert places == all[..cursor];
      cursor := cursor + |chunk|;
      sent := sent + chunk;
      places := places + taken;
      volumes := volumes + seq(n, _ => percent);
    }

    // -------------------------------------------------------------- the device's own format

    /** The bytes that a bulk write offers: those buffered after reading ahead, in whole device buffers unless
        less than one is left. */
    ghost function BulkOffer(): nat
      requires Buffered() && cursor <= outFrames
      reads this, raBuf
    {
      var avail := if raLen - raPos >= DMA_BYTES then raLen - raPos else Upto(0, READ_AHEAD, |data| - Used());
      Aligned(Upto(0, avail, 4 * (outFrames - cursor)))
    }

    /** Reads ahead for a bulk write and says how much to offer. */
    method OfferBytes() returns (aligned: nat)
      requires Valid() && streamed && Native(fmt) && cursor < outFrames
      modifies this`filePos, this`raLen, this`raPos, raBuf
      ensures Valid() && aligned == old(BulkOffer()) <= 4 * (outFrames - cursor) && aligned <= raLen - raPos
      ensures aligned % 4 == 0 || (aligned == raLen - raPos && filePos == |data|)
    {
      hide SourceIndex, Times, FrameBytes, FrameAt, OutFrames, InStep, RightPlaces, Played, Aligned;
      if raLen - raPos < DMA_BYTES {
        Refill();
      }
      var avail := raLen - raPos;
      var bytesLeft := (outFrames - cursor) * 4;
      var submit := if avail < bytesLeft then avail else bytesLeft;
      AlignedIs(submit);
      aligned := submit - submit % DMA_BYTES;
      if aligned == 0 && submit > 0 {
        aligned := submit;
      }
    }

    /** A stream in the device's own format goes out in bulk straight from the read-ahead buffer; the
        device says how many of its buffers it filled. */
    method PumpBulk(room: nat) returns (rc: int)
      requires Valid() && streamed && Native(fmt) && volume == 100
      modifies this, raBuf
      ensures Valid() && volume == old(volume) && Added(old(sent), old(volumes))
      ensures cursor == old(cursor) + Upto(0, DMA_BYTES * room, old(BulkOffer())) / 4
      ensures rc == if cursor == outFrames || old(BulkOffer()) == 0 then 1 else 0
      ensures room > 0 && 4 * outFrames <= |data| ==> cursor >= Upto(old(cursor), DMA_FRAMES, outFrames)
    {
      hide SourceIndex, Times, FrameBytes, FrameAt, OutFrames, InStep, RightPlaces, Played, BulkOffer;
      BulkProgress(room);
      if cursor >= outFrames {
        NothingToOffer();
        return 1;
      }
      var aligned := OfferBytes();
      if aligned == 0 {
        return 1;
      }
      if room == 0 {
        return 0;
      }
      WholeBuffers(room);
      var taken := DMA_BYTES * room;
      var queued := if taken > aligned then aligned else taken;
      CommitBulk(queued);
      return if cursor >= outFrames then 1 else 0;
    }

    lemma NothingToOffer()
      requires Buffered() && cursor == outFrames
      ensures BulkOffer() == 0
    {}

    /** Any room takes a device buffer of frames or all that are left, if the file holds them. */
    lemma BulkProgress(room: nat)
      requires Valid() && streamed && Native(fmt)
      ensures room > 0 && 4 * outFrames <= |data| ==>
        cursor + Upto(0, DMA_BYTES * room, BulkOffer()) / 4 >= Upto(cursor, DMA_FRAMES, outFrames)
    {
      hide SourceIndex, Times, FrameBytes, FrameAt, OutFrames, InStep, RightPlaces, Played, Aligned;
      NativeInStep(Used());
      if room > 0 && 4 * outFrames <= |data| {
        assert BulkOffer() >= Upto(0, DMA_BYTES, 4 * (outFrames - cursor));
      }
    }

    /** In the device's own format being in step means having used four bytes for each frame. */
    lemma NativeInStep(used: nat)
      requires Native(fmt) && InStep(fmt, |data|, used, cursor)
      ensures used == 4 * cursor || (used + 4 > |data| && 4 * cursor + 4 > |data|)
    {
      NativeFrame(fmt, cursor);
    }

    method CommitBulk(queued: nat)
      requires Valid() && streamed && Native(fmt) && volume == 100 && cursor < outFrames
      requires queued <= raLen - raPos && queued <= 4 * (outFrames - cursor)
      requires queued % 4 == 0 || (queued == raLen - raPos && filePos == |data|)
      modifies this`raPos, this`raError, this`cursor, this`sent, this`places, this`volumes
      ensures Valid() && cursor == old(cursor) + queued / 4 && Added(old(sent), old(volumes)) && volume == 100
    {
      hide SourceIndex, Times, FrameBytes, FrameAt, OutFrames, InStep, RightPlaces, Played;
      var frames := queued / 4;
      ghost var taken := BulkPlaces(Used(), frames);
      BulkInStep(Used(), queued);
      RightJoin(fmt, |data|, 0, places, taken);
      var chunk := BulkFrames(frames);
      raPos := raPos + queued;
      cursor := cursor + frames;
      sent := sent + chunk;
      places := places + taken;
      volumes := volumes + seq(frames, _ => 100);
    }

    ghost function BulkPlaces(used: nat, frames: nat): (r: seq<nat>)
      ensures |r| == frames
    {
      seq(frames, k requires k >= 0 => used + 4 * k)
    }

    /** The frames in the next bytes of the buffer. */
    method BulkFrames(frames: nat) returns (chunk: seq<Frame>)
      requires Buffered() && Native(fmt) && 4 * frames <= raLen - raPos
      ensures Sounds(fmt, data, BulkPlaces(Used(), frames), 100, chunk)
    {
      hide Decode;
      NativeFrame(fmt, 0);
      chunk := [];
      for i := 0 to frames
        invariant Sounds(fmt, data, BulkPlaces(Used(), i), 100, chunk)
      {
        DecodeSame(fmt, raBuf[..], raPos + 4 * i, data, Used() + 4 * i);
        chunk := chunk + [Decode(fmt, raBuf[..], raPos + 4 * i)];
      }
    }

    lemma BulkInStep(used: nat, queued: nat)
      requires Native(fmt) && InStep(fmt, |data|, used, cursor) && used + queued <= |data|
      requires queued % 4 == 0 || used + queued == |data|
      ensures InStep(fmt, |data|, used + queued, cursor + queued / 4)
      ensures RightPlaces(fmt, |data|, cursor, BulkPlaces(used, queued / 4))
      ensures Times(cursor, fmt.rate) % AC97_RATE == Times(cursor + queued / 4, fmt.rate) % AC97_RATE
    {
      hide FrameBytes;
      NativeFrame(fmt, cursor);
      NativeFrame(fmt, cursor + queued / 4);
      var frames := queued / 4;
      forall k | 0 <= k < frames
        ensures SameSound(fmt, |data|, BulkPlaces(used, frames)[k],
            Times(SourceIndex(cursor + k, fmt.rate), FrameBytes(fmt)))
      {
        NativeFrame(fmt, cursor + k);
      }
    }

    // -------------------------------------------------------------- whole files

    ghost predicate Bulk()
      reads this
    {
      streamed && Native(fmt) && volume == 100
    }

    /** One turn of the player; room is how many buffers the device takes before it is full. */
    method Pump(room: nat) returns (rc: int)
      requires Valid()
      modifies this, raBuf
      ensures Valid() && volume == old(volume) && Added(old(sent), old(volumes))
      ensures PlaysRight() && !old(Bulk()) ==> cursor == Upto(old(cursor), DMA_FRAMES * room, outFrames)
      ensures old(Bulk()) && room > 0 && 4 * outFrames <= |data| ==> cursor >= Upto(old(cursor), DMA_FRAMES, outFrames)
      ensures cursor >= old(cursor)
    {
      hide SourceIndex, Times, FrameBytes, FrameAt, OutFrames, InStep, RightPlaces, Played, Fits, KeepsUp,
          MemoryFits, MemoryPlaces;
      if streamed && Native(fmt) && volume == 100 {
        rc := PumpBulk(room);
      } else {
        rc := PumpChunks(room);
        if rc == -1 {
          NotStuck();
        }
      }
    }

    /** While playback is right every chunk fits the read-ahead buffer. */
    lemma NotStuck()
      requires Valid() && streamed && cursor < outFrames
      ensures PlaysRight() ==> Fits(fmt, outFrames, cursor)
    {
      hide SourceIndex, Times, FrameBytes, FrameAt, OutFrames, RightPlaces, InStep;
      StartsInStep(fmt, |data|);
      KeepsUpIff(fmt, |data|, outFrames, START);
      if Native(fmt) {
        SlowChunk(fmt, |data|, outFrames, Now());
      }
    }
  }

  /** The turns that offer any room. */
  function Offered(rooms: seq<nat>): nat {
    if rooms == [] then 0 else (if rooms[0] > 0 then 1 else 0) + Offered(rooms[1..])
  }

  lemma {:induction false} OfferedLast(rooms: seq<nat>, k: nat)
    requires k < |rooms|
    ensures Offered(rooms[..k + 1]) == Offered(rooms[..k]) + if rooms[k] > 0 then 1 else 0
  {
    if k > 0 {
      OfferedLast(rooms[1..], k - 1);
      assert rooms[..k + 1][1..] == rooms[1..][..k] && rooms[..k][1..] == rooms[1..][..k - 1];
    }
  }

  /** Pumps a player at full volume as often as the device is asked; what it was sent, and how much. */
  method PumpAll(player: Player, rooms: seq<nat>) returns (sent: seq<Frame>)
    requires player.Valid() && player.volume == 100 && player.cursor == 0
    modifies player, player.raBuf
    ensures player.PlaysRight() ==>
      forall i :: 0 <= i < |sent| ==> sent[i] == OutputFrame(player.fmt, player.data, i, 100)
    ensures |sent| <= player.outFrames
    ensures player.PlaysRight() && !(player.streamed && Native(player.fmt)) ==>
      |sent| == Upto(0, DMA_FRAMES * Sum(rooms), player.outFrames)
    ensures player.streamed && Native(player.fmt) && 4 * player.outFrames <= |player.data| ==>
      |sent| >= Upto(0, DMA_FRAMES * Offered(rooms), player.outFrames)
  {
    hide OutFrames, Times, FrameBytes, OutputFrame, SourceIndex, FrameAt, KeepsUp, MemoryFits, Played, MemoryPlaces;
    assert rooms[..0] == [];
    for k := 0 to |rooms|
      invariant player.Valid() && player.volume == 100
      invariant forall i :: 0 <= i < player.cursor ==> player.volumes[i] == 100
      invariant player.PlaysRight() && !player.Bulk() ==>
        player.cursor == Upto(0, DMA_FRAMES * Sum(rooms[..k]), player.outFrames)
      invariant player.Bulk() && 4 * player.outFrames <= |player.data| ==>
        player.cursor >= Upto(0, DMA_FRAMES * Offered(rooms[..k]), player.outFrames)
    {
      SumLast(rooms, k);
      OfferedLast(rooms, k);
      var _ := player.Pump(rooms[k]);
    }
    assert rooms[..|rooms|] == rooms;
    if player.PlaysRight() {
      player.SentIsRight();
    }
    sent := player.sent;
  }

  /** However often the device is full, a stream that keeps up and the player from memory send the same: the source
      resampled, and as much of it as the device had room for. */
  method Compare(fmt: Format, file: seq<nat>, frames: nat, streamedRooms: seq<nat>, bufferedRooms: seq<nat>)
    returns (streamed: seq<Frame>, buffered: seq<Frame>)
    requires Supported(fmt) && Times(frames, FrameBytes(fmt)) <= |file|
    ensures var out := OutFrames(frames, fmt.rate);
            && (MemoryFits(fmt.rate, out) ==>
              && |buffered| == Upto(0, DMA_FRAMES * Sum(bufferedRooms), out)
              && forall i :: 0 <= i < |buffered| ==> buffered[i] == OutputFrame(fmt, file, i, 100))
            && (Native(fmt) || KeepsUp(fmt, |file|, out, START) ==>
              && (if Native(fmt) then Upto(0, DMA_FRAMES * Offered(streamedRooms), out) <= |streamed| <= out
                  else |streamed| == Upto(0, DMA_FRAMES * Sum(streamedRooms), out))
              && forall i :: 0 <= i < |streamed| ==> streamed[i] == OutputFrame(fmt, file, i, 100))
  {
    hide OutFrames, Times, FrameBytes, OutputFrame, KeepsUp, MemoryFits;
    if Native(fmt) {
      NativeFrame(fmt, frames);
      NativeOut(frames);
    }
    var s := new Player(fmt, file, true, frames);
    streamed := PumpAll(s, streamedRooms);
    var b := new Player(fmt, file[..Times(frames, FrameBytes(fmt))], false, frames);
    buffered := PumpAll(b, bufferedRooms);
    forall i | 0 <= i < |buffered|
      ensures OutputFrame(fmt, file, i, 100) == OutputFrame(fmt, file[..Times(frames, FrameBytes(fmt))], i, 100)
    {
      StreamedAsBuffered(fmt, file, frames, i, 100);
    }
  }

  lemma NativeOut(frames: nat)
    ensures OutFrames(frames, AC97_RATE) == frames
  {}

  /** Whole device buffers, unless there is less than one. */
  function Aligned(submit: nat): (r: nat)
    ensures r <= submit && (submit < DMA_BYTES ==> r == submit)
    ensures submit >= DMA_BYTES ==> r >= DMA_BYTES && r % 4 == 0
  {
    if submit < DMA_BYTES then submit else submit - submit % DMA_BYTES
  }

  lemma AlignedIs(submit: nat)
    ensures submit - submit % DMA_BYTES == (if submit < DMA_BYTES then 0 else Aligned(submit))
  {}

  lemma JoinThree(a: seq<nat>, b: seq<nat>, c: seq<nat>)
    ensures a + (b + c) == a + b + c
  {}

  lemma WholeBuffers(room: nat)
    ensures (DMA_BYTES * room) % 4 == 0
    ensures room > 0 ==> DMA_BYTES * room >= DMA_BYTES
  {}

  lemma RunningStart(rate: nat, cursor: nat)
    ensures Running(rate, cursor, 0) == (SourceIndex(cursor, rate), Times(cursor, rate) % AC97_RATE)
  {}

  lemma RunningNext(rate: nat, cursor: nat, i: nat)
    ensures var (index, error) := Running(rate, cursor, i);
            Running(rate, cursor, i + 1) == (index + Advance(error, rate).0, Advance(error, rate).1)
  {}

  lemma NativeFrame(f: Format, i: nat)
    requires Native(f)
    ensures Supported(f) && SourceIndex(i, f.rate) == i && Times(i, FrameBytes(f)) == 4 * i && FrameBytes(f) == 4
  {
    TimesNext(i, FrameBytes(f));
  }
}
