/** The extractor's 32 KiB circular window, together with the running CRC-32 and length of
    everything emitted. */
module OutputWindow {
  import opened Numbers
  import opened Bits
  import opened InflateSpec
  import Crc32

  /** The slot that holds the d-th most recent byte. */
  function Slot(winPos: nat, d: nat): nat
    requires winPos < WINDOW_SIZE && 0 < d <= WINDOW_SIZE
  {
    if d <= winPos then winPos - d else winPos + WINDOW_SIZE - d
  }

  /** The window, read backwards from winPos, is the end of the history. */
  ghost predicate Mirrors(window: seq<byte>, winPos: nat, history: seq<byte>) {
    && |window| == WINDOW_SIZE && winPos == |history| % WINDOW_SIZE
    && forall d :: 0 < d <= WINDOW_SIZE ==> window[Slot(winPos, d)] == HistoryAt(history, d)
  }

  lemma MirrorsNext(window: seq<byte>, winPos: nat, history: seq<byte>, b: byte)
    requires Mirrors(window, winPos, history)
    ensures Mirrors(window[winPos := b], (winPos + 1) % WINDOW_SIZE, history + [b])
  {
    var next, longer := (winPos + 1) % WINDOW_SIZE, history + [b];
    forall d | 0 < d <= WINDOW_SIZE
      ensures window[winPos := b][Slot(next, d)] == HistoryAt(longer, d)
    {
      if d > 1 {
        assert Slot(next, d) == Slot(winPos, d - 1) != winPos;
        assert HistoryAt(longer, d) == HistoryAt(history, d - 1);
      }
    }
  }

  class Window {
    const window: array<byte>
    var winPos: nat
    var crc32: bv32
    var outSize: nat

    // Everything emitted so far.
    ghost var history: seq<byte>

    ghost predicate Valid()
      reads this, window
    {
      && window.Length == WINDOW_SIZE
      && winPos < WINDOW_SIZE && Mirrors(window[..], winPos, history)
      && crc32 == Crc32.Register(history)
      && outSize == |history| % TWO_TO_32
    }

    constructor ()
      ensures Valid() && history == [] && fresh(window)
    {
      window := new byte[WINDOW_SIZE](_ => 0);
      winPos, crc32, outSize, history := 0, 0xFFFFFFFF, 0, [];
      new;
      assert forall d :: 0 < d <= WINDOW_SIZE ==> window[Slot(0, d)] == 0;
    }

    method EmitByte(b: byte)
      requires Valid()
      modifies this, window
      ensures Valid() && history == old(history) + [b]
    {
      hide Crc32.Update, Mirrors;
      MirrorsNext(window[..], winPos, history, b);
      ghost var slots := window[..][winPos := b];
      window[winPos] := b;
      assert window[..] == slots;
      winPos := (winPos + 1) % WINDOW_SIZE;
      crc32 := Crc32.Crc32UpdateByte(crc32, b as bv8);
      outSize := (outSize + 1) % TWO_TO_32;
      history := history + [b];
      assert history[..|history| - 1] == old(history);
    }

    /** Byte that a match of distance dist copies next. */
    method Fetch(dist: nat) returns (b: byte)
      requires Valid() && 0 < dist <= WINDOW_SIZE
      ensures b == HistoryAt(history, dist)
    {
      var src := (winPos + WINDOW_SIZE - dist) % WINDOW_SIZE;
      assert src == Slot(winPos, dist);
      b := window[src];
    }
  }
}
