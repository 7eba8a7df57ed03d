/** What extracting a TAR archive means: the items it holds, and what each of them does. */
module TarModel {
  import opened Options
  import opened Bits
  import opened TarNames
  import opened TarPax

  const BLOCK: nat := 512
  const PAX_HEADER_MAX: nat := 16384

  /** The data of an entry fills whole blocks. */
  function Padded(n: nat): (r: nat)
    ensures r % BLOCK == 0 && n <= r < n + BLOCK
  {
    n + (BLOCK - n % BLOCK) % BLOCK
  }

  predicate IsZeroBlock(b: seq<byte>) {
    forall i :: 0 <= i < |b| ==> b[i] == 0
  }

  function Zeros(n: nat): (b: seq<byte>)
    ensures |b| == n && IsZeroBlock(b)
  {
    seq(n, _ => 0)
  }

  /** A header block and the data it announces. */
  datatype Item = Item(header: seq<byte>, body: seq<byte>)

  function SizeOf(header: seq<byte>): Option<nat>
    requires |header| == BLOCK
  {
    Octal(Chars(header[124..136]))
  }

  predicate ValidItem(it: Item) {
    |it.header| == BLOCK && !IsZeroBlock(it.header) && SizeOf(it.header) == Some(|it.body|)
  }

  predicate ValidItems(items: seq<Item>) {
    forall i :: 0 <= i < |items| ==> ValidItem(items[i])
  }

  /** The items of an archive: up to two zero blocks, or one at the very end, or the end. */
  function Parse(input: seq<byte>): (r: Option<seq<Item>>)
    ensures r.Some? ==> ValidItems(r.value)
    decreases |input|
  {
    if input == [] then Some([])
    else if |input| < BLOCK then None
    else if IsZeroBlock(input[..BLOCK]) then
      if |input| == BLOCK then Some([])
      else if |input| < 2 * BLOCK then None
      else if IsZeroBlock(input[BLOCK..2 * BLOCK]) then Some([])
      else Parse(input[BLOCK..])
    else
      match SizeOf(input[..BLOCK])
      case None => None
      case Some(size) =>
        if |input| < BLOCK + Padded(size) then None
        else
          match Parse(input[BLOCK + Padded(size)..])
          case None => None
          case Some(rest) => Some([Item(input[..BLOCK], input[BLOCK..BLOCK + size])] + rest)
  }

  // ---------------------------------------------------------------- names for the next entry

  const LONG_NAME: nat := 76
  const PAX_LOCAL: nat := 120
  const PAX_GLOBAL: nat := 103
  const REGULAR_ALT: nat := 48
  const DIRECTORY: nat := 53

  function TypeOf(header: seq<byte>): byte
    requires |header| == BLOCK
  {
    header[156]
  }

  /** The item is about the name of an entry rather than an entry itself. */
  predicate IsNaming(header: seq<byte>)
    requires |header| == BLOCK
  {
    TypeOf(header) == LONG_NAME || TypeOf(header) == PAX_LOCAL || TypeOf(header) == PAX_GLOBAL
  }

  /** It sets the pending name, clears it because it is too long, leaves it, or cannot be accepted. */
  datatype Naming = Sets(name: string) | Clears | Leaves | Broken

  function NamingOf(kind: byte, body: seq<byte>): Naming {
    if kind == LONG_NAME then
      if |body| + 1 > PATH_MAX then Clears else Sets(CString(Chars(body)))
    else if kind == PAX_LOCAL then
      if body == [] then Leaves
      else if |body| > PAX_HEADER_MAX then Broken
      else
        match PaxPath(Chars(body), None)
        case Path(p) => Sets(CString(p))
        case NoPath => Leaves
        case _ => Broken
    else Leaves
  }

  // ---------------------------------------------------------------- entries

  datatype Output = FileOut(path: string, content: seq<byte>) | DirOut(path: string)

  /** What an extraction has written, and how many items it passed over. */
  datatype Run = Run(outputs: seq<Output>, skipped: nat)

  /** What an ordinary item does under the pending name, if any; none when its path is too long. */
  function Entry(it: Item, name: Option<string>, dest: string): Option<Run>
    requires |it.header| == BLOCK
  {
    var rel := Sanitize(if name.Some? then name.value else EntryName(it.header));
    if rel.None? || rel.value == "" then Some(Run([], 1))
    else
      match JoinPaths(dest, rel.value)
      case None => None
      case Some(path) =>
        if TypeOf(it.header) == 0 || TypeOf(it.header) == REGULAR_ALT then Some(Run([FileOut(path, it.body)], 0))
        else if TypeOf(it.header) == DIRECTORY then Some(Run([DirOut(path)], 0))
        else Some(Run([], 1))
  }

  function Then(done: Run, rest: Option<Run>): Option<Run> {
    match rest
    case None => None
    case Some(r) => Some(Run(done.outputs + r.outputs, done.skipped + r.skipped))
  }

  /** All the items in order, after a pending name. */
  function Interpret(items: seq<Item>, name: Option<string>, dest: string): Option<Run>
    requires ValidItems(items)
    decreases |items|
  {
    if items == [] then Some(Run([], 0))
    else if IsNaming(items[0].header) then
      match NamingOf(TypeOf(items[0].header), items[0].body)
      case Sets(n) => Interpret(items[1..], Some(n), dest)
      case Clears => Then(Run([], 1), Interpret(items[1..], None, dest))
      case Leaves => Interpret(items[1..], name, dest)
      case Broken => None
    else
      match Entry(items[0], name, dest)
      case None => None
      case Some(run) => Then(run, Interpret(items[1..], None, dest))
  }

  function Extract(input: seq<byte>, name: Option<string>, dest: string): Option<Run> {
    match Parse(input)
    case None => None
    case Some(items) => Interpret(items, name, dest)
  }

  // ---------------------------------------------------------------- the archive read back

  function Stored(it: Item): seq<byte>
  {
    it.header + it.body + Zeros(Padded(|it.body|) - |it.body|)
  }

  /** An archive of some items, ended by two zero blocks. */
  function Archive(items: seq<Item>): seq<byte> {
    if items == [] then Zeros(2 * BLOCK) else Stored(items[0]) + Archive(items[1..])
  }

  /** The items of an archive are those it was made from. */
  lemma {:induction false} ArchiveRoundTrip(items: seq<Item>)
    requires ValidItems(items)
    ensures Parse(Archive(items)) == Some(items)
    decreases |items|
  {
    if items == [] {
      assert Zeros(2 * BLOCK)[..BLOCK] == Zeros(BLOCK) == Zeros(2 * BLOCK)[BLOCK..2 * BLOCK];
    } else {
      var it, rest := items[0], Archive(items[1..]);
      ArchiveRoundTrip(items[1..]);
      StoredPieces(it, rest);
      ParseItem(Stored(it) + rest, |it.body|);
      assert items == [it] + items[1..];
    }
  }

  lemma StoredPieces(it: Item, rest: seq<byte>)
    requires |it.header| == BLOCK
    ensures var s := Stored(it) + rest; var n := |it.body|;
            && |Stored(it)| == BLOCK + Padded(n)
            && s[..BLOCK] == it.header && s[BLOCK..BLOCK + n] == it.body && s[BLOCK + Padded(n)..] == rest
  {}

  lemma ParseItem(input: seq<byte>, size: nat)
    requires |input| >= BLOCK + Padded(size) && !IsZeroBlock(input[..BLOCK]) && SizeOf(input[..BLOCK]) == Some(size)
    ensures var rest := Parse(input[BLOCK + Padded(size)..]);
            Parse(input) == if rest.None? then None
                else Some([Item(input[..BLOCK], input[BLOCK..BLOCK + size])] + rest.value)
  {}

  // ---------------------------------------------------------------- which name an entry gets

  /** The name pending before item i: that of the last item that set or cleared it since the last
      ordinary entry. */
  function NameInForce(items: seq<Item>, i: nat): Option<string>
    requires i <= |items| && ValidItems(items)
    decreases i
  {
    if i == 0 || !IsNaming(items[i - 1].header) then None
    else
      match NamingOf(TypeOf(items[i - 1].header), items[i - 1].body)
      case Sets(n) => Some(n)
      case Leaves => NameInForce(items, i - 1)
      case _ => None
  }

  /** Item i can be accepted. */
  predicate Acceptable(items: seq<Item>, i: nat, dest: string)
    requires i < |items| && ValidItems(items)
  {
    if IsNaming(items[i].header) then !NamingOf(TypeOf(items[i].header), items[i].body).Broken?
    else Entry(items[i], NameInForce(items, i), dest).Some?
  }

  predicate AcceptableFrom(items: seq<Item>, i: nat, dest: string)
    requires ValidItems(items)
  {
    forall k :: i <= k < |items| ==> Acceptable(items, k, dest)
  }

  /** What item i writes. */
  function Written(items: seq<Item>, i: nat, dest: string): seq<Output>
    requires i < |items| && ValidItems(items)
    requires Acceptable(items, i, dest)
  {
    if IsNaming(items[i].header) then [] else Entry(items[i], NameInForce(items, i), dest).value.outputs
  }

  /** What the items from i on write. */
  function AllWritten(items: seq<Item>, i: nat, dest: string): seq<Output>
    requires i <= |items| && ValidItems(items)
    requires AcceptableFrom(items, i, dest)
    decreases |items| - i
  {
    if i == |items| then [] else Written(items, i, dest) + AllWritten(items, i + 1, dest)
  }

  /** Extraction succeeds exactly when every item can be accepted, and then each ordinary entry is
      written under the name in force where it stands. */
  lemma {:induction false} InterpretFrom(items: seq<Item>, i: nat, dest: string)
    requires i <= |items| && ValidItems(items)
    ensures Interpret(items[i..], NameInForce(items, i), dest).Some? <==> AcceptableFrom(items, i, dest)
    ensures AcceptableFrom(items, i, dest) ==>
      Interpret(items[i..], NameInForce(items, i), dest).value.outputs == AllWritten(items, i, dest)
    decreases |items| - i
  {
    hide Entry, NamingOf, SizeOf, IsZeroBlock;
    if i < |items| {
      assert items[i..][1..] == items[i + 1..] && items[i..][0] == items[i];
      InterpretFrom(items, i + 1, dest);
      assert AcceptableFrom(items, i, dest) <==> Acceptable(items, i, dest) && AcceptableFrom(items, i + 1, dest);
      if AcceptableFrom(items, i, dest) {
        assert [] + AllWritten(items, i + 1, dest) == AllWritten(items, i + 1, dest);
      }
    }
  }

  lemma ExtractByNames(items: seq<Item>, dest: string)
    requires ValidItems(items)
    ensures var r := Extract(Archive(items), None, dest);
            && (r.Some? <==> AcceptableFrom(items, 0, dest))
            && (r.Some? ==> r.value.outputs == AllWritten(items, 0, dest))
  {
    hide Interpret, Archive;
    ArchiveRoundTrip(items);
    InterpretFrom(items, 0, dest);
    assert items[0..] == items;
  }
}
