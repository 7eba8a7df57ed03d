/** The PackBits run-length code of the audio and video files. */
module PackBits {
  import opened Numbers
  import opened Options
  import opened ByteNumbers
  import opened ByteRuns

  /** A run of a well-formed stream: units copied from the stream, one unit repeated, or nothing. */
  datatype Run = Literal(count: nat, bytes: Bytes) | Repeat(count: nat, unit: Bytes) | Nothing

  predicate WellFormed(r: Run, unit: nat) {
    match r
    case Literal(count, bytes) => 1 <= count <= 128 && |bytes| == Times(count, unit)
    case Repeat(count, u) => 2 <= count <= 128 && |u| == unit
    case Nothing => true
  }

  function Copies(u: Bytes, count: nat): (r: Bytes)
    ensures |r| == Times(count, |u|)
  {
    if count == 0 then [] else
      assert Times(count, |u|) == |u| + Times(count - 1, |u|);
      u + Copies(u, count - 1)
  }

  function RunMeaning(r: Run): Bytes {
    match r
    case Literal(_, bytes) => bytes
    case Repeat(count, u) => Copies(u, count)
    case Nothing => []
  }

  function RunBytes(r: Run, unit: nat): (b: Bytes)
    requires WellFormed(r, unit)
    ensures |b| > 0
  {
    match r
    case Literal(count, bytes) => [ByteOf(count - 1)] + bytes
    case Repeat(count, u) => [ByteOf(257 - count)] + u
    case Nothing => [ByteOf(128)]
  }

  predicate AllWellFormed(runs: seq<Run>, unit: nat) {
    forall i :: 0 <= i < |runs| ==> WellFormed(runs[i], unit)
  }

  function Meaning(runs: seq<Run>): Bytes {
    if runs == [] then [] else RunMeaning(runs[0]) + Meaning(runs[1..])
  }

  function Encode(runs: seq<Run>, unit: nat): Bytes
    requires AllWellFormed(runs, unit)
  {
    if runs == [] then [] else RunBytes(runs[0], unit) + Encode(runs[1..], unit)
  }

  /** The first run of a stream and how many bytes it takes. */
  function FirstRun(input: Bytes, unit: nat): (r: Option<(Run, nat)>)
    requires input != []
    ensures r.Some? ==> WellFormed(r.value.0, unit) && 1 <= r.value.1 <= |input|
  {
    var n := NumOf(input[0]);
    if n < 128 then
      var bytes := Times(n + 1, unit);
      if 1 + bytes > |input| then None else Some((Literal(n + 1, input[1..1 + bytes]), 1 + bytes))
    else if n != 128 then
      if 1 + unit > |input| then None else Some((Repeat(257 - n, input[1..1 + unit]), 1 + unit))
    else Some((Nothing, 1))
  }

  /** Runs are expanded until exactly the needed bytes are there; what follows is ignored. */
  function Unpack(input: Bytes, need: nat, unit: nat): (r: Option<Bytes>)
    ensures r.Some? ==> |r.value| == need
  {
    if need == 0 then Some([])
    else if input == [] then None
    else
      match FirstRun(input, unit)
      case None => None
      case Some((run, used)) =>
        var m := RunMeaning(run);
        if |m| > need then None
        else
          match Unpack(input[used..], need - |m|, unit)
          case None => None
          case Some(rest) => Some(m + rest)
  }

  // ---------------------------------------------------------------- encoding and back

  lemma FirstRunOf(r: Run, rest: Bytes, unit: nat)
    requires WellFormed(r, unit)
    ensures FirstRun(RunBytes(r, unit) + rest, unit) == Some((r, |RunBytes(r, unit)|))
  {
    hide ByteOf, NumOf, Times;
    var b := RunBytes(r, unit) + rest;
    match r
    case Literal(count, bytes) =>
      ByteRoundTrip(count - 1);
      assert b[1..1 + |bytes|] == bytes;
    case Repeat(count, u) =>
      ByteRoundTrip(257 - count);
      assert b[1..1 + unit] == u;
    case Nothing =>
      ByteRoundTrip(128);
  }

  lemma FirstRunBytes(input: Bytes, unit: nat)
    requires input != [] && FirstRun(input, unit).Some?
    ensures var (run, used) := FirstRun(input, unit).value; RunBytes(run, unit) == input[..used]
  {
    hide ByteOf, NumOf, Times;
    NumRoundTrip(input[0]);
    var used := FirstRun(input, unit).value.1;
    assert input[..used] == [input[0]] + input[1..used];
  }

  /** The expansion of any well-formed run list is recovered, whatever follows it. */
  lemma {:induction false} UnpackEncoded(runs: seq<Run>, trailing: Bytes, unit: nat)
    requires AllWellFormed(runs, unit)
    ensures Unpack(Encode(runs, unit) + trailing, |Meaning(runs)|, unit) == Some(Meaning(runs))
    decreases |runs|
  {
    hide FirstRun, RunBytes, RunMeaning;
    if Meaning(runs) != [] {
      var rest := runs[1..];
      UnpackEncoded(rest, trailing, unit);
      var tail := Encode(rest, unit) + trailing;
      FirstRunOf(runs[0], tail, unit);
      var input := Encode(runs, unit) + trailing;
      assert input == RunBytes(runs[0], unit) + tail;
      assert input[|RunBytes(runs[0], unit)|..] == tail;
    }
  }

  /** The runs an expansion used. */
  ghost function RunsOf(input: Bytes, need: nat, unit: nat): (runs: seq<Run>)
    requires Unpack(input, need, unit).Some?
    ensures AllWellFormed(runs, unit)
  {
    if need == 0 then []
    else
      var (run, used) := FirstRun(input, unit).value;
      [run] + RunsOf(input[used..], need - |RunMeaning(run)|, unit)
  }

  /** Whatever is accepted starts with a well-formed run list with that expansion. */
  lemma {:induction false} UnpackSound(input: Bytes, need: nat, unit: nat)
    requires Unpack(input, need, unit).Some?
    ensures var runs := RunsOf(input, need, unit);
            Encode(runs, unit) <= input && Meaning(runs) == Unpack(input, need, unit).value
    decreases |input|
  {
    hide FirstRun, RunBytes, RunMeaning;
    if need > 0 {
      var (run, used) := FirstRun(input, unit).value;
      var rest := input[used..];
      UnpackSound(rest, need - |RunMeaning(run)|, unit);
      FirstRunBytes(input, unit);
      var more := RunsOf(rest, need - |RunMeaning(run)|, unit);
      assert ([run] + more)[1..] == more;
      assert input == input[..used] + rest;
    }
  }

  /** A stream unpacks to some bytes exactly when it starts with a well-formed run list for them. */
  lemma UnpackExactly(input: Bytes, out: Bytes, unit: nat)
    ensures Unpack(input, |out|, unit) == Some(out) <==>
      exists runs :: AllWellFormed(runs, unit) && Encode(runs, unit) <= input && Meaning(runs) == out
  {
    hide Encode, Meaning, Unpack, WellFormed;
    if Unpack(input, |out|, unit) == Some(out) {
      UnpackSound(input, |out|, unit);
      var runs := RunsOf(input, |out|, unit);
      assert AllWellFormed(runs, unit) && Encode(runs, unit) <= input && Meaning(runs) == out;
    }
    forall runs | AllWellFormed(runs, unit) && Encode(runs, unit) <= input && Meaning(runs) == out
      ensures Unpack(input, |out|, unit) == Some(out)
    {
      var trailing := input[|Encode(runs, unit)|..];
      assert input == Encode(runs, unit) + trailing;
      UnpackEncoded(runs, trailing, unit);
    }
  }

  // ---------------------------------------------------------------- the decoder

  /** One run: its expansion goes to out from op on, when it is complete and fits. */
  method DecodeRun(input: Bytes, ip: nat, out: array<bv8>, op: nat, pixelSize: nat)
    returns (ok: bool, nextIp: nat, nextOp: nat)
    requires ip < |input| && op < out.Length
    modifies out
    ensures var first := FirstRun(input[ip..], pixelSize);
            && (ok <==> first.Some? && op + |RunMeaning(first.value.0)| <= out.Length)
            && (ok ==>
              && nextIp == ip + first.value.1 && nextOp == op + |RunMeaning(first.value.0)|
              && out[..nextOp] == old(out[..op]) + RunMeaning(first.value.0))
  {
    hide Times, ByteOf, NumOf, Copies;
    ok, nextIp, nextOp := false, ip, op;
    ghost var here := input[ip..];
    var n := NumOf(input[ip]);
    if n < 128 {
      var bytes := Times(n + 1, pixelSize);
      if ip + 1 + bytes > |input| || op + bytes > out.Length {
        return;
      }
      assert here[1..1 + bytes] == input[ip + 1..ip + 1 + bytes];
      CopyInto(input[ip + 1..ip + 1 + bytes], out, op);
      assert out[..op + bytes] == out[..op] + out[op..op + bytes];
      ok, nextIp, nextOp := true, ip + 1 + bytes, op + bytes;
    } else if n != 128 {
      var count := 257 - n;
      var bytes := Times(count, pixelSize);
      if ip + 1 + pixelSize > |input| || op + bytes > out.Length {
        return;
      }
      var px := input[ip + 1..ip + 1 + pixelSize];
      assert here[1..1 + pixelSize] == px;
      Repeated(px, count, out, op);
      assert out[..op + bytes] == out[..op] + out[op..op + bytes];
      ok, nextIp, nextOp := true, ip + 1 + pixelSize, op + bytes;
    } else {
      ok, nextIp := true, ip + 1;
    }
  }

  /** Decodes into the whole of out; the result is defined only on success. */
  method RleDecodePackbits(input: Bytes, out: array<bv8>, pixelSize: nat) returns (ok: bool)
    requires pixelSize > 0
    modifies out
    ensures ok <==> Unpack(input, out.Length, pixelSize).Some?
    ensures ok ==> out[..] == Unpack(input, out.Length, pixelSize).value
  {
    hide RunMeaning, FirstRun, Unpack, StillTo;
    var ip, op: nat := 0, 0;
    ghost var whole := Unpack(input, out.Length, pixelSize);
    assert input[0..] == input && out[..0] == [];
    Start(whole);
    while ip < |input| && op < out.Length
      invariant 0 <= ip <= |input| && 0 <= op <= out.Length
      invariant StillTo(whole, out[..op], Unpack(input[ip..], out.Length - op, pixelSize))
      decreases |input| - ip
    {
      ghost var here, need, done := input[ip..], out.Length - op, out[..op];
      UnpackStep(here, need, pixelSize);
      Stuck(whole, done, Unpack(here, need, pixelSize));
      var fits;
      fits, ip, op := DecodeRun(input, ip, out, op, pixelSize);
      if !fits {
        return false;
      }
      ghost var (run, used) := FirstRun(here, pixelSize).value;
      assert here[used..] == input[ip..];
      Continue(whole, done, RunMeaning(run), Unpack(input[ip..], out.Length - op, pixelSize));
    }
    assert out[..out.Length] == out[..];
    UnpackEnd(input[ip..], out.Length - op, pixelSize);
    Stuck(whole, out[..op], Unpack(input[ip..], out.Length - op, pixelSize));
    ok := op == out.Length;
  }

  /** The whole expansion is what is done and the expansion still to come. */
  ghost predicate StillTo(whole: Option<Bytes>, done: Bytes, rest: Option<Bytes>) {
    whole == match rest case None => None case Some(r) => Some(done + r)
  }

  lemma Start(whole: Option<Bytes>)
    ensures StillTo(whole, [], whole)
  {
    if whole.Some? {
      assert [] + whole.value == whole.value;
    }
  }

  lemma Stuck(whole: Option<Bytes>, done: Bytes, rest: Option<Bytes>)
    requires StillTo(whole, done, rest)
    ensures whole.Some? <==> rest.Some?
    ensures rest == Some([]) ==> whole == Some(done)
  {
    assert done + [] == done;
  }

  lemma Continue(whole: Option<Bytes>, done: Bytes, m: Bytes, rest: Option<Bytes>)
    requires StillTo(whole, done, match rest case None => None case Some(r) => Some(m + r))
    ensures StillTo(whole, done + m, rest)
  {
    if rest.Some? {
      assert done + (m + rest.value) == done + m + rest.value;
    }
  }

  lemma UnpackEnd(input: Bytes, need: nat, unit: nat)
    requires need == 0 || input == []
    ensures Unpack(input, need, unit) == if need == 0 then Some([]) else None
  {}

  lemma UnpackStep(input: Bytes, need: nat, unit: nat)
    requires need > 0 && input != []
    ensures Unpack(input, need, unit) ==
      match FirstRun(input, unit)
      case None => None
      case Some((run, used)) =>
        if |RunMeaning(run)| > need then None
        else
          match Unpack(input[used..], need - |RunMeaning(run)|, unit)
          case None => None
          case Some(rest) => Some(RunMeaning(run) + rest)
  {}

  method Repeated(px: Bytes, count: nat, out: array<bv8>, at: nat)
    requires at + Times(count, |px|) <= out.Length
    modifies out
    ensures out[..at] == old(out[..at]) && out[at..at + Times(count, |px|)] == Copies(px, count)
  {
    hide Times, Copies;
    var op := at;
    CopiesNone(px);
    for i := 0 to count
      invariant op == at + Times(i, |px|) && op <= out.Length
      invariant out[..at] == old(out[..at]) && out[at..op] == Copies(px, i)
    {
      CopiesNext(px, i);
      TimesAtMost(i + 1, count, |px|);
      ghost var before := out[..op];
      CopyInto(px, out, op);
      assert out[..at] == before[..at] && out[at..op] == before[at..];
      assert out[at..op + |px|] == out[at..op] + out[op..op + |px|];
      op := op + |px|;
    }
  }

  lemma CopiesNone(u: Bytes)
    ensures Copies(u, 0) == [] && Times(0, |u|) == 0
  {}

  lemma {:induction false} CopiesNext(u: Bytes, count: nat)
    ensures Copies(u, count + 1) == Copies(u, count) + u && Times(count + 1, |u|) == Times(count, |u|) + |u|
  {
    if count > 0 {
      CopiesNext(u, count - 1);
    }
  }
}
