/** The extraction loop over an archive that is read in pieces of any size, from a file or through gzip_read. */
module Tar {
  import opened Options
  import opened Bits
  import opened TarNames
  import opened TarPax
  import opened TarModel
  import Inflater
  import InflateSpec
  import GzipReader
  import GzipWriter
  import DeflateStream
  import TarFiles

  class Extractor {
    /** A plain archive, or the machine that inflates one. */
    const raw: seq<byte>
    const gz: Inflater.GzipState?
    /** The bytes of the archive, however they are stored. */
    ghost const data: seq<byte>
    const dest: string
    /** How much each coming read may return. */
    var sizes: seq<nat>
    var pos: nat
    var longName: Option<string>
    var outputs: seq<Output>
    var skipped: nat

    ghost predicate Valid()
      reads this`pos, Device()
    {
      pos <= |data| && this !in Device() && Linked()
    }

    /** What is still to be read is the rest of the archive; a compressed one ends soundly. */
    ghost predicate Linked()
      requires pos <= |data|
      reads this`pos, Device()
    {
      if gz == null then raw == data else gz.Valid() && GzipReader.Pending(gz) == GzipReader.Stream(data[pos..], true)
    }

    ghost function Device(): set<object> {
      if gz == null then {}
      else {gz, gz.input, gz.input.inbuf, gz.output, gz.output.window, gz.litNodes, gz.distNodes}
    }

    constructor (data: seq<byte>, dest: string, sizes: seq<nat>)
      ensures Valid() && pos == 0 && longName == None && outputs == [] && skipped == 0
      ensures this.data == data && this.dest == dest && Device() == {}
    {
      raw, gz, this.data, this.dest, this.sizes := data, null, data, dest, sizes;
      pos, longName, outputs, skipped := 0, None, [], 0;
    }

    constructor OfGzip(gz: Inflater.GzipState, dest: string)
      requires gz.Valid() && GzipReader.Pending(gz).sound
      ensures Valid() && pos == 0 && longName == None && outputs == [] && skipped == 0
      ensures data == GzipReader.Pending(gz).out && this.dest == dest && this.gz == gz
    {
      hide Inflater.GzipState.Valid, GzipReader.Pending;
      GzipReader.ValidIsBuffered(gz);
      raw, this.gz, this.data, this.dest, sizes := [], gz, GzipReader.Pending(gz).out, dest, [];
      pos, longName, outputs, skipped := 0, None, [], 0;
      new;
      assert data[0..] == data;
    }

    // -------------------------------------------------------------- reading

    /** Some bytes, as many as asked for or fewer; none at the end only. */
    method ReadSome(len: nat) returns (bytes: seq<byte>)
      requires Valid() && len > 0
      modifies this`sizes, this`pos, Device()
      ensures Valid() && pos == old(pos) + |bytes| && bytes == data[old(pos)..pos] && |bytes| <= len
      ensures bytes == [] <==> old(pos) == |data|
    {
      if gz == null {
        bytes := ReadFile(len);
      } else {
        bytes := ReadInflated(len);
      }
    }

    method ReadFile(len: nat) returns (bytes: seq<byte>)
      requires Valid() && len > 0 && gz == null
      modifies this`sizes, this`pos
      ensures Valid() && pos == old(pos) + |bytes| && bytes == data[old(pos)..pos] && |bytes| <= len
      ensures bytes == [] <==> old(pos) == |data|
    {
      var n := len;
      if sizes != [] {
        n := if sizes[0] == 0 then 1 else if sizes[0] < len then sizes[0] else len;
        sizes := sizes[1..];
      }
      if n > |raw| - pos {
        n := |raw| - pos;
      }
      bytes := raw[pos..pos + n];
      pos := pos + n;
    }

    method ReadInflated(len: nat) returns (bytes: seq<byte>)
      requires Valid() && len > 0 && gz != null
      modifies this`pos, Device()
      ensures Valid() && pos == old(pos) + |bytes| && bytes == data[old(pos)..pos] && |bytes| <= len
      ensures bytes == [] <==> old(pos) == |data|
    {
      hide Inflater.GzipState.Valid, GzipReader.Pending, GzipReader.ReadCount, GzipReader.AfterRead, GzipReader.Fails;
      SoundRead(data, pos, len);
      var buf := new byte[len];
      var n := GzipReader.GzipRead(gz, buf);
      if n <= 0 {
        return [];
      }
      bytes := buf[..n];
      pos := pos + n;
    }

    method ReadExact(len: nat) returns (bytes: Option<seq<byte>>)
      requires Valid()
      modifies this`sizes, this`pos, Device()
      ensures Valid() && (bytes.Some? <==> old(pos) + len <= |data|)
      ensures bytes.Some? ==> pos == old(pos) + len && bytes.value == data[old(pos)..pos]
    {
      hide Linked;
      var got: seq<byte> := [];
      while |got| < len
        invariant Valid() && |got| <= len && pos == old(pos) + |got| && got == data[old(pos)..pos]
        decreases len - |got|
      {
        var more := ReadSome(len - |got|);
        if more == [] {
          return None;
        }
        got := got + more;
      }
      return Some(got);
    }

    method Discard(count: nat) returns (ok: bool)
      requires Valid()
      modifies this`sizes, this`pos, Device()
      ensures Valid() && (ok <==> old(pos) + count <= |data|)
      ensures ok ==> pos == old(pos) + count
    {
      hide Linked;
      var left: nat := count;
      while left > 0
        invariant Valid() && left <= count && pos == old(pos) + (count - left)
        decreases left
      {
        var want := if left > 256 then 256 else left;
        var scratch := ReadExact(want);
        if scratch.None? {
          return false;
        }
        left := left - want;
      }
      return true;
    }

    /** 1 with a block, 0 at a clean end, -1 when the archive ends inside a block. */
    method ReadBlock() returns (rc: int, block: seq<byte>)
      requires Valid()
      modifies this`sizes, this`pos, Device()
      ensures Valid()
      ensures rc == if old(pos) == |data| then 0 else if old(pos) + BLOCK > |data| then -1 else 1
      ensures rc == 1 ==> pos == old(pos) + BLOCK && block == data[old(pos)..pos]
      ensures rc == 0 ==> pos == old(pos)
    {
      hide Linked;
      block := ReadSome(BLOCK);
      if block == [] {
        return 0, [];
      }
      while |block| < BLOCK
        invariant Valid() && 0 < |block| <= BLOCK && pos == old(pos) + |block| && block == data[old(pos)..pos]
        decreases BLOCK - |block|
      {
        var more := ReadSome(BLOCK - |block|);
        if more == [] {
          return -1, [];
        }
        block := block + more;
      }
      return 1, block;
    }

    method SkipTarPadding(size: nat) returns (ok: bool)
      requires Valid()
      modifies this`sizes, this`pos, Device()
      ensures Valid() && (ok <==> old(pos) + (Padded(size) - size) <= |data|)
      ensures ok ==> pos == old(pos) + (Padded(size) - size)
    {
      hide Linked;
      var pad := (BLOCK - size % BLOCK) % BLOCK;
      if pad == 0 {
        return true;
      }
      ok := Discard(pad);
    }

    method DiscardEntry(size: nat) returns (ok: bool)
      requires Valid()
      modifies this`sizes, this`pos, Device()
      ensures Valid() && (ok <==> old(pos) + Padded(size) <= |data|)
      ensures ok ==> pos == old(pos) + Padded(size)
    {
      hide Linked;
      ok := Discard(size);
      if ok {
        ok := SkipTarPadding(size);
      }
    }

    // -------------------------------------------------------------- naming items

    /** The text of an item, cut to what fits the path buffer. */
    method ReadTextPayload(size: nat) returns (ok: bool, text: seq<byte>, truncated: bool)
      requires Valid()
      modifies this`sizes, this`pos, Device()
      ensures Valid() && (ok <==> old(pos) + size <= |data|)
      ensures ok ==> pos == old(pos) + size && (truncated <==> size + 1 > PATH_MAX)
      ensures ok && !truncated ==> text == data[old(pos)..pos]
    {
      hide Linked;
      var remaining: nat := size;
      text, truncated := [], false;
      while remaining > 0
        invariant Valid() && remaining <= size && pos == old(pos) + (size - remaining)
        invariant |text| == if size - remaining < PATH_MAX then size - remaining else PATH_MAX - 1
        invariant truncated <==> size - remaining + 1 > PATH_MAX
        invariant !truncated ==> text == data[old(pos)..pos]
        decreases remaining
      {
        var want := if remaining > 256 then 256 else remaining;
        var buf := ReadExact(want);
        if buf.None? {
          return false, [], false;
        }
        var room := PATH_MAX - |text| - 1;
        var take := if want < room then want else room;
        assert take == want ==> buf.value[..take] == buf.value;
        text := text + buf.value[..take];
        if take < want {
          truncated := true;
        }
        remaining := remaining - want;
      }
      ok := true;
    }

    /** An item that is about the name of the next entry. */
    method HandleNaming(kind: byte, size: nat) returns (ok: bool)
      requires Valid() && (kind == LONG_NAME || kind == PAX_LOCAL || kind == PAX_GLOBAL)
      modifies this`sizes, this`pos, this`longName, this`skipped, Device()
      ensures Valid()
      ensures ok <==> old(pos) + Padded(size) <= |data| && !NamingOf(kind, data[old(pos)..old(pos) + size]).Broken?
      ensures ok ==> pos == old(pos) + Padded(size)
      ensures ok ==>
        match NamingOf(kind, data[old(pos)..old(pos) + size])
        case Sets(n) => longName == Some(n) && skipped == old(skipped)
        case Clears => longName == None && skipped == old(skipped) + 1
        case Leaves => longName == old(longName) && skipped == old(skipped)
    {
      hide Linked, PaxPath, CString;
      if kind == LONG_NAME {
        var text, truncated;
        ok, text, truncated := ReadTextPayload(size);
        if !ok {
          return;
        }
        ok := SkipTarPadding(size);
        if !ok {
          return;
        }
        if truncated {
          longName := None;
          skipped := skipped + 1;
        } else {
          longName := Some(CString(Chars(text)));
        }
        return;
      }
      if kind == PAX_LOCAL {
        ok := HandlePaxLocal(size);
      } else {
        ok := Discard(size);
      }
      if ok {
        ok := SkipTarPadding(size);
      }
    }

    method HandlePaxLocal(size: nat) returns (ok: bool)
      requires Valid()
      modifies this`sizes, this`pos, this`longName, Device()
      ensures Valid()
      ensures ok <==> old(pos) + size <= |data| && !NamingOf(PAX_LOCAL, data[old(pos)..old(pos) + size]).Broken?
      ensures ok ==> pos == old(pos) + size
      ensures ok ==>
        match NamingOf(PAX_LOCAL, data[old(pos)..old(pos) + size])
        case Sets(n) => longName == Some(n)
        case _ => longName == old(longName)
    {
      hide Linked, PaxPath, CString;
      if size == 0 {
        return true;
      }
      if size > PAX_HEADER_MAX {
        var _ := Discard(size);
        return false;
      }
      var buf := ReadExact(size);
      if buf.None? {
        return false;
      }
      var pax := ParsePaxPath(Chars(buf.value));
      match pax
      case Path(p) =>
        longName := Some(CString(p));
        return true;
      case NoPath =>
        return true;
      case _ =>
        return false;
    }

    // -------------------------------------------------------------- entries

    method ExtractRegularFile(path: string, size: nat) returns (ok: bool)
      requires Valid()
      modifies this`sizes, this`pos, this`outputs, Device()
      ensures Valid() && (ok <==> old(pos) + size <= |data|)
      ensures ok ==> pos == old(pos) + size && outputs == old(outputs) + [FileOut(path, data[old(pos)..pos])]
    {
      hide Linked;
      var remaining: nat := size;
      var written: seq<byte> := [];
      while remaining > 0
        invariant Valid() && remaining <= size && pos == old(pos) + (size - remaining)
        invariant written == data[old(pos)..pos] && outputs == old(outputs)
        decreases remaining
      {
        var want := if remaining > 1024 then 1024 else remaining;
        var buf := ReadExact(want);
        if buf.None? {
          return false;
        }
        written := written + buf.value;
        remaining := remaining - want;
      }
      outputs := outputs + [FileOut(path, written)];
      return true;
    }

    method ExtractDirectoryEntry(path: string, size: nat) returns (ok: bool)
      requires Valid()
      modifies this`sizes, this`pos, this`outputs, Device()
      ensures Valid() && (ok <==> old(pos) + size <= |data|)
      ensures ok ==> pos == old(pos) + size && outputs == old(outputs) + [DirOut(path)]
    {
      hide Linked;
      ok := Discard(size);
      if ok {
        outputs := outputs + [DirOut(path)];
      }
    }

    /** An ordinary entry; it uses up the pending name. */
    method HandleEntry(header: seq<byte>, size: nat) returns (ok: bool)
      requires Valid() && |header| == BLOCK && !IsNaming(header)
      modifies this`sizes, this`pos, this`longName, this`outputs, this`skipped, Device()
      ensures Valid()
      ensures ok <==> (old(pos) + Padded(size) <= |data|
        && Entry(Item(header, data[old(pos)..old(pos) + size]), old(longName), dest).Some?)
      ensures ok ==> pos == old(pos) + Padded(size) && longName == None
      ensures ok ==>
        var run := Entry(Item(header, data[old(pos)..old(pos) + size]), old(longName), dest).value;
        outputs == old(outputs) + run.outputs && skipped == old(skipped) + run.skipped
    {
      hide Linked, Sanitize, EntryName, JoinPaths;
      var rawName := if longName.Some? then longName.value else EntryName(header);
      longName := None;
      var rel := SanitizeRelativePath(rawName);
      if rel.None? || rel.value == "" {
        ok := DiscardEntry(size);
        skipped := skipped + 1;
        return;
      }
      var outPath := JoinPaths(dest, rel.value);
      if outPath.None? {
        return false;
      }
      var kind := TypeOf(header);
      if kind == 0 || kind == REGULAR_ALT {
        ok := ExtractRegularFile(outPath.value, size);
      } else if kind == DIRECTORY {
        ok := ExtractDirectoryEntry(outPath.value, size);
      } else {
        ok := Discard(size);
        skipped := skipped + 1;
      }
      if ok {
        ok := SkipTarPadding(size);
      }
    }

    // -------------------------------------------------------------- the loop

    /** The item of a header at the read position: on every branch it takes whole blocks. */
    method HandleItem(header: seq<byte>) returns (ok: bool, ghost run: Run)
      requires Valid() && BLOCK <= pos && header == data[pos - BLOCK..pos] && !IsZeroBlock(header)
      modifies this`sizes, this`pos, this`longName, this`outputs, this`skipped, Device()
      ensures Valid()
      ensures ok ==> SizeOf(header).Some? && pos == old(pos) + Padded(SizeOf(header).value)
      ensures ok ==> outputs == old(outputs) + run.outputs && skipped == old(skipped) + run.skipped
      ensures ok && old(WholeBlocks(pos)) ==> WholeBlocks(pos)
      ensures old(Ahead(true)) == if ok then Then(run, Ahead(false)) else None
    {
      hide Linked, Extract, SizeOf, IsZeroBlock, NamingOf, Entry, Padded, WholeBlocks;
      run := Run([], 0);
      ghost var start, body := pos - BLOCK, pos;
      assert data[start..][..BLOCK] == header;
      var size := ReadTarSize(header);
      if size.None? {
        BadHeader(data[start..], longName, dest);
        return false, run;
      }
      if pos + Padded(size.value) <= |data| {
        assert data[start..][BLOCK..BLOCK + size.value] == data[pos..pos + size.value];
        assert data[start..][BLOCK + Padded(size.value)..] == data[pos + Padded(size.value)..];
      }
      ExtractItem(data[start..], size.value, longName, dest);
      MoreBlocks(pos, size.value);
      if IsNaming(header) {
        ok := HandleNaming(TypeOf(header), size.value);
        run := Run([], if ok && NamingOf(TypeOf(header), data[body..body + size.value]).Clears? then 1 else 0);
        ThenNothing(Extract(data[pos..], longName, dest));
        assert outputs == old(outputs) + [];
      } else {
        ghost var name := longName;
        ok := HandleEntry(header, size.value);
        if ok {
          run := Entry(Item(header, data[body..body + size.value]), name, dest).value;
        }
      }
    }

    method ReadTarSize(header: seq<byte>) returns (size: Option<nat>)
      requires |header| == BLOCK
      ensures size == SizeOf(header)
    {
      size := ParseOctalU32(Chars(header[124..136]));
    }

    /** After a zero block: the archive ends, or the next block is the next header. */
    method AfterZeroBlock() returns (rc: int, pending: seq<byte>)
      requires Valid() && BLOCK <= pos && IsZeroBlock(data[pos - BLOCK..pos])
      modifies this`sizes, this`pos, Device()
      ensures Valid() && (rc == 0 || rc == -1 || rc == 1)
      ensures rc == -1 ==> old(Ahead(true)) == None
      ensures rc == 0 ==> old(Ahead(true)) == Some(Run([], 0))
      ensures rc == 1 ==> pos == old(pos) + BLOCK && pending == data[pos - BLOCK..pos] && !IsZeroBlock(pending)
      ensures rc == 1 ==> old(Ahead(true)) == Ahead(true) && (old(WholeBlocks(pos)) ==> WholeBlocks(pos))
    {
      hide Linked, Extract, IsZeroBlock;
      ghost var head := data[pos - BLOCK..];
      ghost var next := pos;
      assert head[..BLOCK] == data[pos - BLOCK..pos] && head[BLOCK..] == data[pos..];
      ExtractZero(head, longName, dest);
      rc, pending := ReadBlock();
      if rc == 1 {
        assert head[BLOCK..2 * BLOCK] == pending;
        if IsZeroBlock(pending) {
          rc := 0;
        }
      }
    }

    /** The header at the head of the loop: a kept block, or the next one. */
    method NextHeader(havePending: bool, pending: seq<byte>) returns (rc: int, header: seq<byte>)
      requires Valid() && WholeBlocks(pos)
      requires havePending ==> BLOCK <= pos && pending == data[pos - BLOCK..pos]
      modifies this`sizes, this`pos, Device()
      ensures Valid() && (rc == 0 || rc == -1 || rc == 1)
      ensures rc == -1 ==> old(Ahead(havePending)) == None
      ensures rc == 0 ==> old(Ahead(havePending)) == Some(Run([], 0))
      ensures rc == 1 ==> BLOCK <= pos && WholeBlocks(pos) && header == data[pos - BLOCK..pos]
      ensures rc == 1 ==> old(Ahead(havePending)) == Ahead(true) && pos == old(pos) + if havePending then 0 else BLOCK
    {
      hide Linked, Extract, WholeBlocks;
      if havePending {
        return 1, pending;
      }
      ExtractEnd(data[pos..], longName, dest);
      OneMoreBlock(pos);
      rc, header := ReadBlock();
    }

    /** What the rest of the archive does, from the kept block on if there is one. */
    ghost function Ahead(havePending: bool): Option<Run>
      requires pos <= |data| && (havePending ==> BLOCK <= pos)
      reads this`pos, this`longName
    {
      Extract(data[if havePending then pos - BLOCK else pos..], longName, dest)
    }

    lemma AllAhead()
      requires Valid() && pos == 0
      ensures Ahead(false) == Extract(data, longName, dest)
    {
      hide Extract, Linked;
      assert data[0..] == data;
    }

    /** Extracts the whole archive. At the head of the loop everything read is whole blocks; a block
        that follows a single zero block is kept as the next header. */
    method ExtractAll() returns (ok: bool)
      requires Valid() && pos == 0 && longName == None && outputs == [] && skipped == 0
      modifies this, Device()
      ensures Valid() && (ok <==> Extract(data, None, dest).Some?)
      ensures ok ==> Some(Run(outputs, skipped)) == Extract(data, None, dest)
    {
      hide Linked, Extract, IsZeroBlock, Then, SizeOf, WholeBlocks, Ahead;
      ghost var all := Extract(data, None, dest);
      var pending: seq<byte>, havePending := [], false;
      AllAhead();
      ThenNothing(all);
      NoBlocks();
      while true
        invariant Valid() && WholeBlocks(pos)
        invariant havePending ==> BLOCK <= pos && pending == data[pos - BLOCK..pos] && !IsZeroBlock(pending)
        invariant Then(Run(outputs, skipped), Ahead(havePending)) == all
        decreases |data| - pos, havePending
      {
        ThenEnd(Run(outputs, skipped));
        var rb, header := NextHeader(havePending, pending);
        if rb == 0 {
          return true;
        }
        if rb < 0 {
          return false;
        }
        if IsZeroBlock(header) {
          var rb2;
          rb2, pending := AfterZeroBlock();
          if rb2 == 0 {
            return true;
          }
          if rb2 < 0 {
            return false;
          }
          havePending := true;
        } else {
          var handled;
          ghost var run;
          ghost var done := Run(outputs, skipped);
          handled, run := HandleItem(header);
          if !handled {
            return false;
          }
          havePending := false;
          ThenThen(done, run, Ahead(false));
        }
      }
    }
  }

  /** A read of a sound stream gets the bytes asked for, as far as there are any. */
  lemma SoundRead(data: seq<byte>, pos: nat, len: nat)
    requires pos <= |data|
    ensures var s := GzipReader.Stream(data[pos..], true);
            var n := if len <= |data| - pos then len else |data| - pos;
            && !GzipReader.Fails(s, len) && GzipReader.ReadCount(s, len) == n
            && GzipReader.AfterRead(s, len) == GzipReader.Stream(data[pos + n..], true)
            && s.out[..n] == data[pos..pos + n]
  {}

  predicate WholeBlocks(pos: nat) {
    pos % BLOCK == 0
  }

  lemma NoBlocks()
    ensures WholeBlocks(0)
  {}

  lemma MoreBlocks(pos: nat, size: nat)
    ensures WholeBlocks(pos) ==> WholeBlocks(pos + Padded(size))
  {
    SumOfBlocks(pos, Padded(size));
  }

  lemma OneMoreBlock(pos: nat)
    ensures WholeBlocks(pos) ==> WholeBlocks(pos + BLOCK)
  {}

  lemma SumOfBlocks(a: nat, b: nat)
    requires b % BLOCK == 0
    ensures a % BLOCK == 0 ==> (a + b) % BLOCK == 0
  {}

  lemma ThenEnd(done: Run)
    ensures Then(done, None) == None && Then(done, Some(Run([], 0))) == Some(done)
  {
    assert done.outputs + [] == done.outputs;
  }

  lemma ThenNothing(r: Option<Run>)
    ensures Then(Run([], 0), r) == r
  {
    if r.Some? {
      assert [] + r.value.outputs == r.value.outputs;
    }
  }

  lemma ThenThen(a: Run, b: Run, r: Option<Run>)
    ensures Then(a, Then(b, r)) == Then(Run(a.outputs + b.outputs, a.skipped + b.skipped), r)
  {
    if r.Some? {
      assert a.outputs + (b.outputs + r.value.outputs) == a.outputs + b.outputs + r.value.outputs;
    }
  }

  lemma ExtractEnd(input: seq<byte>, name: Option<string>, dest: string)
    ensures input == [] ==> Extract(input, name, dest) == Some(Run([], 0))
    ensures 0 < |input| < BLOCK ==> Extract(input, name, dest) == None
  {}

  lemma ExtractZero(input: seq<byte>, name: Option<string>, dest: string)
    requires |input| >= BLOCK && IsZeroBlock(input[..BLOCK])
    ensures |input| == BLOCK ==> Extract(input, name, dest) == Some(Run([], 0))
    ensures BLOCK < |input| < 2 * BLOCK ==> Extract(input, name, dest) == None
    ensures |input| >= 2 * BLOCK ==>
      Extract(input, name, dest) ==
        if IsZeroBlock(input[BLOCK..2 * BLOCK]) then Some(Run([], 0)) else Extract(input[BLOCK..], name, dest)
  {
    hide IsZeroBlock, SizeOf;
  }

  lemma BadHeader(input: seq<byte>, name: Option<string>, dest: string)
    requires |input| >= BLOCK && !IsZeroBlock(input[..BLOCK]) && SizeOf(input[..BLOCK]) == None
    ensures Extract(input, name, dest) == None
  {
    hide IsZeroBlock, SizeOf;
  }

  /** One item, and then the rest of the archive. */
  lemma ExtractItem(input: seq<byte>, size: nat, name: Option<string>, dest: string)
    requires |input| >= BLOCK && !IsZeroBlock(input[..BLOCK]) && SizeOf(input[..BLOCK]) == Some(size)
    ensures Extract(input, name, dest) ==
      if |input| < BLOCK + Padded(size) then None
      else
        var header, body, rest := input[..BLOCK], input[BLOCK..BLOCK + size], input[BLOCK + Padded(size)..];
        if IsNaming(header) then
          match NamingOf(TypeOf(header), body)
          case Sets(n) => Extract(rest, Some(n), dest)
          case Clears => Then(Run([], 1), Extract(rest, None, dest))
          case Leaves => Extract(rest, name, dest)
          case Broken => None
        else
          match Entry(Item(header, body), name, dest)
          case None => None
          case Some(run) => Then(run, Extract(rest, None, dest))
  {
    hide IsZeroBlock, SizeOf, NamingOf, Entry, Interpret;
    if |input| >= BLOCK + Padded(size) {
      ParseItem(input, size);
      var it, rest := Item(input[..BLOCK], input[BLOCK..BLOCK + size]), Parse(input[BLOCK + Padded(size)..]);
      if rest.Some? {
        InterpretFirst(it, rest.value, name, dest);
      }
    }
  }

  lemma InterpretFirst(it: Item, rest: seq<Item>, name: Option<string>, dest: string)
    requires ValidItem(it) && ValidItems(rest) && ValidItems([it] + rest)
    ensures Interpret([it] + rest, name, dest) ==
      if IsNaming(it.header) then
        match NamingOf(TypeOf(it.header), it.body)
        case Sets(n) => Interpret(rest, Some(n), dest)
        case Clears => Then(Run([], 1), Interpret(rest, None, dest))
        case Leaves => Interpret(rest, name, dest)
        case Broken => None
      else
        match Entry(it, name, dest)
        case None => None
        case Some(run) => Then(run, Interpret(rest, None, dest))
  {
    hide IsZeroBlock, SizeOf, NamingOf, Entry;
    assert ([it] + rest)[1..] == rest;
  }

  /** An archive of valid items, read in pieces of any size, is extracted entry by entry, each under
      the name in force where it stands. */
  method ExtractArchive(items: seq<Item>, dest: string, sizes: seq<nat>) returns (ok: bool, outputs: seq<Output>)
    requires ValidItems(items)
    ensures ok <==> AcceptableFrom(items, 0, dest)
    ensures ok ==> outputs == AllWritten(items, 0, dest)
    ensures ok ==> forall o :: o in outputs ==> TarFiles.Under(TarFiles.OutputPath(o), dest)
  {
    hide Extract, Archive, AcceptableFrom, AllWritten, TarFiles.Under;
    ExtractByNames(items, dest);
    if AcceptableFrom(items, 0, dest) {
      TarFiles.WrittenIsUnder(items, 0, dest);
    }
    var extractor := new Extractor(Archive(items), dest, sizes);
    ok := extractor.ExtractAll();
    outputs := extractor.outputs;
  }

  /** A compressed archive whose stream inflates and matches its trailer is extracted as what it inflates to. */
  method ExtractGzip(file: seq<byte>, dest: string) returns (ok: bool, outputs: seq<Output>, skipped: nat)
    requires GzipReader.StreamOf(InflateSpec.Inflate(BytesBits(file)), [], false).sound
    ensures var archive := InflateSpec.Inflate(BytesBits(file)).out;
            && (ok <==> Extract(archive, None, dest).Some?)
            && (ok ==> Extract(archive, None, dest) == Some(Run(outputs, skipped)))
  {
    hide Extract, BytesBits, InflateSpec.Inflate, GzipReader.TrailerMatches, Inflater.GzipState.Valid,
        GzipReader.Pending,
      Extractor.Linked;
    var gz := GzipReader.Open(file);
    var extractor := new Extractor.OfGzip(gz, dest);
    ok := extractor.ExtractAll();
    outputs, skipped := extractor.outputs, extractor.skipped;
  }

  /** An archive of files and directories is extracted to all of them, below the destination, whether it is read in
      pieces of any size or inflated from blocks of any kinds. */
  method ExtractMembers(ghost ms: seq<TarFiles.Member>, ghost bs: seq<DeflateStream.Block>, archive: seq<byte>,
                        file: seq<byte>, dest: string, sizes: seq<nat>)
    returns (ok: bool, plain: seq<Output>, inflated: seq<Output>)
    requires TarFiles.AllExtractable(ms, dest) && archive == Archive(TarFiles.Items(ms, dest))
    requires bs != [] && DeflateStream.ValidBlocks(bs, []) && DeflateStream.Output(bs, []) == archive
    requires GzipWriter.Pack(GzipWriter.GzipBits(bs)) <= file
    ensures ok && plain == inflated == TarFiles.Extracted(ms, dest)
  {
    hide Extract, Archive, BytesBits, InflateSpec.Inflate, GzipReader.TrailerMatches, GzipWriter.GzipBits,
      GzipWriter.Pack, DeflateStream.Output, DeflateStream.ValidBlocks, TarFiles.AllExtractable, TarFiles.Items,
      TarFiles.Extracted;
    TarFiles.MembersReadBack(ms, dest);
    ghost var body := GzipWriter.Pack(GzipWriter.GzipBits(bs));
    assert file == body + file[|body|..];
    GzipWriter.WrittenReadsBack(bs, file[|body|..]);
    var extractor := new Extractor(archive, dest, sizes);
    ok := extractor.ExtractAll();
    plain := extractor.outputs;
    var both, skipped;
    both, inflated, skipped := ExtractGzip(file, dest);
  }
}
