/** Archives of files and directories, laid out field by field, and where extraction puts them. */
module TarFiles {
  import opened Options
  import opened Bits
  import opened Numbers
  import opened TarNames
  import opened TarPax
  import opened TarModel

  // ---------------------------------------------------------------- header fields

  predicate ByteChars(s: string) {
    forall i :: 0 <= i < |s| ==> s[i] as int < 256
  }

  function BytesOf(s: string): (r: seq<byte>)
    requires ByteChars(s)
    ensures |r| == |s|
  {
    seq(|s|, i requires 0 <= i < |s| => s[i] as int)
  }

  /** A text that fills a field up to its length with NULs. */
  function Stuffed(s: string, len: nat): (r: seq<byte>)
    requires ByteChars(s) && |s| <= len
    ensures |r| == len
  {
    BytesOf(s) + Zeros(len - |s|)
  }

  predicate FieldText(s: string) {
    ByteChars(s) && '\0' !in s && (s != "" ==> s[|s| - 1] != ' ')
  }

  /** What an archive stores of a file: its name and the directories before it, its content, and the header fields that
      extraction does not look at: 24 bytes of mode and owner, 20 of time and checksum, 188 of link, owner
      and device names, and 12 at the end. */
  datatype File = File(prefix: string, name: string, content: seq<byte>,
                       owner: seq<byte>, time: seq<byte>, names: seq<byte>, end: seq<byte>)

  predicate ValidFile(f: File) {
    && FieldText(f.name) && 0 < |f.name| <= 100 && FieldText(f.prefix) && |f.prefix| <= 155
    && |f.content| < PowerOf8(11) && |f.content| < TWO_TO_32
    && |f.owner| == 24 && |f.time| == 20 && |f.names| == 188 && |f.end| == 12
  }

  /** The header of the ustar format, field after field: the size is eleven octal digits and a NUL. */
  function Header(f: File, kind: byte): (r: seq<byte>)
    requires ValidFile(f)
    ensures |r| == 512
  {
    Stuffed(f.name, 100) + f.owner + Stuffed(SizeText(|f.content|), 12) + f.time + [kind] + f.names
    + Stuffed(f.prefix, 155) + f.end
  }

  function SizeText(size: nat): (r: string)
    ensures |r| == 11 && ByteChars(r)
  {
    OctalIsBytes(size, 11);
    OctalText(size, 11)
  }

  lemma {:induction false} OctalIsBytes(v: nat, width: nat)
    ensures |OctalText(v, width)| == width && ByteChars(OctalText(v, width))
  {
    if width > 0 {
      OctalIsBytes(v / 8, width - 1);
    }
  }

  lemma {:induction false} CStringStops(s: string, n: nat)
    requires '\0' !in s
    ensures CString(s + seq(n, _ => '\0')) == s
  {
    if s != "" {
      CStringStops(s[1..], n);
      assert (s + seq(n, _ => '\0'))[1..] == s[1..] + seq(n, _ => '\0');
    }
  }

  /** A field is read back as the text it was stuffed with. */
  lemma FieldReadsBack(header: seq<byte>, at: nat, len: nat, s: string)
    requires at + len <= |header| && FieldText(s) && |s| <= len && header[at..at + len] == Stuffed(s, len)
    ensures Field(header, at, len) == s
  {
    assert Chars(header[at..at + len]) == s + seq(len - |s|, _ => '\0');
    CStringStops(s, len - |s|);
  }

  lemma HeaderParts(f: File, kind: byte)
    requires ValidFile(f)
    ensures var h := Header(f, kind);
            && h[0..100] == Stuffed(f.name, 100) && h[124..136] == Stuffed(SizeText(|f.content|), 12)
            && h[156] == kind && h[345..500] == Stuffed(f.prefix, 155)
  {
    hide Stuffed, SizeText;
  }

  /** The name, size and type that a header was written with are read back. */
  lemma HeaderReadsBack(f: File, kind: byte)
    requires ValidFile(f)
    ensures EntryName(Header(f, kind)) == PathOfFile(f)
    ensures SizeOf(Header(f, kind)) == Some(|f.content|) && TypeOf(Header(f, kind)) == kind
    ensures kind > 0 ==> !IsZeroBlock(Header(f, kind))
  {
    hide Stuffed, Octal, OctalText;
    HeaderParts(f, kind);
    FieldReadsBack(Header(f, kind), 0, 100, f.name);
    FieldReadsBack(Header(f, kind), 345, 155, f.prefix);
    StuffedSize(SizeText(|f.content|));
    OctalRoundTrip(|f.content|, 11);
  }

  lemma StuffedSize(s: string)
    requires |s| == 11 && ByteChars(s)
    ensures Chars(Stuffed(s, 12)) == s + "\0"
  {}

  // ---------------------------------------------------------------- safe places

  /** A component that stays inside the directory it is in. */
  predicate SafeComponent(c: string) {
    c != "" && c != "." && c != ".." && '/' !in c && '\\' !in c && ':' !in c
  }

  predicate SafeComponents(cs: seq<string>) {
    cs != [] && forall i :: 0 <= i < |cs| ==> SafeComponent(cs[i])
  }

  /** Where a relative path is below the destination; the working directory may be named by a dot or by nothing. */
  function Placed(dest: string, rel: string): string {
    if dest == "" || dest == "." then rel
    else if dest[|dest| - 1] == '/' then dest + rel
    else dest + "/" + rel
  }

  /** The path leads down from the destination by safe components. */
  predicate Leads(path: string, dest: string, cs: seq<string>) {
    SafeComponents(cs) && path == Placed(dest, Join(cs))
  }

  ghost predicate Under(path: string, dest: string) {
    exists cs :: Leads(path, dest, cs)
  }

  function OutputPath(o: Output): string {
    o.path
  }

  /** Whatever an entry is called, what it writes is under the destination. */
  lemma EntryIsUnder(it: Item, name: Option<string>, dest: string)
    requires |it.header| == 512 && Entry(it, name, dest).Some?
    ensures forall o :: o in Entry(it, name, dest).value.outputs ==> Under(OutputPath(o), dest)
  {
    hide Components, KeepComponents, Join, Sanitize;
    var raw := if name.Some? then name.value else EntryName(it.header);
    var rel := Sanitize(raw);
    if rel.Some? && rel.value != "" {
      SafeJoin(raw);
      var cs := KeepComponents(Components(raw));
      assert Leads(JoinPaths(dest, rel.value).value, dest, cs);
    }
  }

  lemma SafeJoin(raw: string)
    requires Sanitize(raw).Some? && Sanitize(raw).value != ""
    ensures var cs := KeepComponents(Components(raw)); SafeComponents(cs) && Sanitize(raw) == Some(Join(cs))
  {
    hide Components, KeepComponents, Join;
    var cs := KeepComponents(Components(raw));
    KeptComponents(Components(raw));
    JoinNone();
    forall i | 0 <= i < |cs| ensures SafeComponent(cs[i]) {
      assert cs[i] in cs && !Unsafe(cs[i]);
    }
  }

  /** Everything that extraction writes is under the destination. */
  lemma {:induction false} WrittenIsUnder(items: seq<Item>, i: nat, dest: string)
    requires i <= |items| && ValidItems(items) && AcceptableFrom(items, i, dest)
    ensures forall o :: o in AllWritten(items, i, dest) ==> Under(OutputPath(o), dest)
    decreases |items| - i
  {
    hide Entry, NamingOf, Under;
    if i < |items| {
      WrittenIsUnder(items, i + 1, dest);
      assert Acceptable(items, i, dest);
      if !IsNaming(items[i].header) {
        EntryIsUnder(items[i], NameInForce(items, i), dest);
      }
    }
  }

  // ---------------------------------------------------------------- archives of files

  /** The path of a file in the archive. */
  function PathOfFile(f: File): string {
    if f.prefix == "" then f.name else f.prefix + "/" + f.name
  }

  /** What an archive may hold: a file, a directory, and a file whose name did not fit its header, with the item that
      carries the name before it: the name and a NUL, or attribute records. */
  datatype Member =
    | Regular(file: File)
    | Directory(file: File)
    | LongNamed(name: string, carrier: File, file: File)
    | PaxNamed(attributes: seq<Attribute>, carrier: File, file: File)

  function MemberPath(m: Member): string {
    match m
    case LongNamed(name, _, _) => name
    case PaxNamed(attributes, _, _) =>
      var found := LastPath(attributes, None); if found.Path? then found.path else ""
    case _ => PathOfFile(m.file)
  }

  /** The carrier holds the name. */
  predicate Carries(m: Member) {
    match m
    case LongNamed(name, carrier, _) =>
      ValidFile(carrier) && ByteChars(name) && '\0' !in name && carrier.content == BytesOf(name) + [0]
    case PaxNamed(attributes, carrier, _) =>
      && ValidFile(carrier) && (forall i :: 0 <= i < |attributes| ==> WellFormed(attributes[i]))
      && ByteChars(Texts(attributes)) && carrier.content == BytesOf(Texts(attributes)) && 0 < |carrier.content| <= 16384
      && LastPath(attributes, None).Path? && '\0' !in LastPath(attributes, None).path
    case _ => true
  }

  /** The member has a safe path that fits the path buffer below the destination. */
  ghost predicate Extractable(m: Member, dest: string) {
    && ValidFile(m.file) && Carries(m) && SafeComponents(Components(MemberPath(m)))
    && |MemberPath(m)| + 1 < PATH_MAX && |Placed(dest, MemberPath(m))| < PATH_MAX
  }

  /** The items of a member; types are '0' for a file, '5' for a directory,
      'L' for a long name and 'x' for attributes. */
  function MemberItems(m: Member): seq<Item>
    requires ValidFile(m.file) && Carries(m)
  {
    match m
    case Regular(f) => [Item(Header(f, 48), f.content)]
    case Directory(f) => [Item(Header(f, 53), f.content)]
    case LongNamed(_, carrier, f) => [Item(Header(carrier, 76), carrier.content), Item(Header(f, 48), f.content)]
    case PaxNamed(_, carrier, f) => [Item(Header(carrier, 120), carrier.content), Item(Header(f, 48), f.content)]
  }

  ghost predicate AllExtractable(ms: seq<Member>, dest: string) {
    forall k :: 0 <= k < |ms| ==> Extractable(ms[k], dest)
  }

  ghost function Items(ms: seq<Member>, dest: string): seq<Item>
    requires AllExtractable(ms, dest)
  {
    if ms == [] then [] else MemberItems(ms[0]) + Items(ms[1..], dest)
  }

  /** Every member at its path below the destination. */
  function Extracted(ms: seq<Member>, dest: string): seq<Output> {
    if ms == [] then []
    else
      var path := Placed(dest, MemberPath(ms[0]));
      [if ms[0].Directory? then DirOut(path) else FileOut(path, ms[0].file.content)] + Extracted(ms[1..], dest)
  }

  lemma {:induction false} NothingDropped(cs: seq<string>)
    requires forall i :: 0 <= i < |cs| ==> SafeComponent(cs[i])
    ensures KeepComponents(cs) == cs
  {
    hide KeepComponents;
    KeepNone();
    if cs != [] {
      NothingDropped(cs[1..]);
      KeepFirst(cs[0], cs[1..]);
      assert cs == [cs[0]] + cs[1..] && SafeComponent(cs[0]);
    }
  }

  lemma {:induction false} JoinOfComponents(s: string)
    ensures Join(Components(s)) == s
  {
    if s != "" {
      JoinOfComponents(s[1..]);
      var rest := Components(s[1..]);
      assert s == [s[0]] + s[1..];
      if s[0] == '/' {
        assert ([""] + rest)[1..] == rest;
        assert Join([""] + rest) == "" + "/" + Join(rest);
      } else {
        var all := [[s[0]] + rest[0]] + rest[1..];
        assert all[1..] == rest[1..];
        if |rest| > 1 {
          assert Join(all) == ([s[0]] + rest[0]) + "/" + Join(rest[1..]);
          assert Join(rest) == rest[0] + "/" + Join(rest[1..]);
          assert ([s[0]] + rest[0]) + "/" + Join(rest[1..]) == [s[0]] + (rest[0] + "/" + Join(rest[1..]));
        }
      }
    }
  }

  /** A safe path is left as it is. */
  lemma SafePathStays(s: string)
    requires SafeComponents(Components(s)) && |s| < PATH_MAX
    ensures Sanitize(s) == Some(s) && s != ""
  {
    hide Components, KeepComponents, Join;
    NothingDropped(Components(s));
    JoinOfComponents(s);
    EmptyIsUnsafe();
    assert SafeComponent(Components(s)[0]);
  }

  lemma EmptyIsUnsafe()
    ensures Components("") == [""] && !SafeComponent("")
  {}

  /** An entry under a name in force, or under that of its header. */
  lemma EntryWrites(f: File, kind: byte, name: Option<string>, path: string, dest: string)
    requires ValidFile(f) && (kind == 48 || kind == 53)
    requires path == if name.Some? then name.value else PathOfFile(f)
    requires SafeComponents(Components(path)) && |path| < PATH_MAX && |Placed(dest, path)| < PATH_MAX
    ensures var it := Item(Header(f, kind), f.content); var at := Placed(dest, path);
            && ValidItem(it) && !IsNaming(it.header)
            && Entry(it, name, dest) == Some(Run([if kind == 48 then FileOut(at, f.content) else DirOut(at)], 0))
  {
    hide Components, Sanitize, EntryName, Header, SizeOf, IsZeroBlock, SafeComponents;
    HeaderReadsBack(f, kind);
    SafePathStays(path);
  }

  lemma CharsOfBytes(s: string, n: nat)
    requires ByteChars(s)
    ensures Chars(BytesOf(s) + Zeros(n)) == s + seq(n, _ => '\0')
  {}

  /** The item before an entry names it. */
  lemma CarrierNames(m: Member, dest: string)
    requires Extractable(m, dest) && (m.LongNamed? || m.PaxNamed?)
    ensures var it := MemberItems(m)[0];
            && ValidItem(it) && IsNaming(it.header)
            && NamingOf(TypeOf(it.header), it.body) == Sets(MemberPath(m))
  {
    hide Header, SizeOf, IsZeroBlock, SafeComponents, Components, Texts, PaxPath, NamingOf, ValidItem;
    match m
    case LongNamed(name, carrier, _) => LongNameNames(name, carrier);
    case PaxNamed(attributes, carrier, _) => AttributesName(attributes, carrier);
  }

  lemma LongNameNames(name: string, carrier: File)
    requires ValidFile(carrier) && ByteChars(name) && '\0' !in name && carrier.content == BytesOf(name) + [0]
    requires |name| + 1 < PATH_MAX
    ensures var it := Item(Header(carrier, 76), carrier.content);
            ValidItem(it) && TypeOf(it.header) == 76 && NamingOf(76, it.body) == Sets(name)
  {
    hide Header, SizeOf, IsZeroBlock;
    HeaderReadsBack(carrier, 76);
    CharsOfBytes(name, 1);
    CStringStops(name, 1);
    assert Zeros(1) == [0];
  }

  lemma AttributesName(attributes: seq<Attribute>, carrier: File)
    requires ValidFile(carrier) && forall i :: 0 <= i < |attributes| ==> WellFormed(attributes[i])
    requires ByteChars(Texts(attributes)) && carrier.content == BytesOf(Texts(attributes))
    requires 0 < |carrier.content| <= 16384
    requires LastPath(attributes, None).Path? && '\0' !in LastPath(attributes, None).path
    ensures var it := Item(Header(carrier, 120), carrier.content);
            && ValidItem(it) && TypeOf(it.header) == 120
            && NamingOf(120, it.body) == Sets(LastPath(attributes, None).path)
  {
    hide Header, SizeOf, IsZeroBlock, Texts, PaxPath, CString, LastPath, WellFormed, ByteChars, NamingOf, BytesOf;
    var text, path := Texts(attributes), LastPath(attributes, None).path;
    HeaderReadsBack(carrier, 120);
    CharsOfBytes(text, 0);
    assert carrier.content + Zeros(0) == carrier.content && text + [] == text;
    PaxRoundTrip(attributes, None);
    CStringStops(path, 0);
    assert path + [] == path;
    AttributesSet(carrier.content, text, path);
  }

  lemma AttributesSet(body: seq<byte>, text: string, path: string)
    requires Chars(body) == text && 0 < |body| <= 16384 && PaxPath(text, None) == Path(path) && CString(path) == path
    ensures NamingOf(120, body) == Sets(path)
  {
    hide PaxPath, CString;
  }

  lemma ItemsJoin(a: seq<Item>, b: seq<Item>)
    requires ValidItems(a) && ValidItems(b)
    ensures ValidItems(a + b)
  {
    hide ValidItem;
  }

  /** Interpreting an entry, and then the rest. */
  lemma EntryFirst(it: Item, rest: seq<Item>, name: Option<string>, dest: string)
    requires ValidItem(it) && ValidItems([it] + rest) && ValidItems(rest) && !IsNaming(it.header)
    requires Entry(it, name, dest).Some?
    ensures Interpret([it] + rest, name, dest) == Then(Entry(it, name, dest).value, Interpret(rest, None, dest))
  {
    hide Entry, NamingOf, SizeOf, IsZeroBlock;
    assert ([it] + rest)[1..] == rest;
  }

  lemma NamingFirst(it: Item, rest: seq<Item>, name: Option<string>, dest: string, n: string)
    requires ValidItem(it) && ValidItems([it] + rest) && ValidItems(rest) && IsNaming(it.header)
    requires NamingOf(TypeOf(it.header), it.body) == Sets(n)
    ensures Interpret([it] + rest, name, dest) == Interpret(rest, Some(n), dest)
  {
    hide Entry, NamingOf, SizeOf, IsZeroBlock;
    assert ([it] + rest)[1..] == rest;
  }

  lemma MemberFirst(m: Member, rest: seq<Item>, dest: string)
    requires Extractable(m, dest) && ValidItems(rest)
    ensures ValidItems(MemberItems(m) + rest)
    ensures var at := Placed(dest, MemberPath(m));
            Interpret(MemberItems(m) + rest, None, dest)
            == Then(Run([if m.Directory? then DirOut(at) else FileOut(at, m.file.content)], 0),
                Interpret(rest, None, dest))
  {
    hide Header, Entry, NamingOf, Interpret, ValidItem, IsNaming, SafeComponents, Components, Carries;
    var kind := if m.Directory? then 53 else 48;
    var it := Item(Header(m.file, kind), m.file.content);
    var name := if m.LongNamed? || m.PaxNamed? then Some(MemberPath(m)) else None;
    EntryWrites(m.file, kind, name, MemberPath(m), dest);
    ItemsJoin([it], rest);
    EntryFirst(it, rest, name, dest);
    if name.Some? {
      CarrierNames(m, dest);
      var first := MemberItems(m)[0];
      ItemsJoin([first], [it] + rest);
      NamingFirst(first, [it] + rest, None, dest, MemberPath(m));
      assert MemberItems(m) + rest == [first] + ([it] + rest);
    } else {
      assert MemberItems(m) + rest == [it] + rest;
    }
  }

  lemma {:induction false} MembersInterpret(ms: seq<Member>, dest: string)
    requires AllExtractable(ms, dest)
    ensures ValidItems(Items(ms, dest))
    ensures Interpret(Items(ms, dest), None, dest) == Some(Run(Extracted(ms, dest), 0))
    decreases |ms|
  {
    hide Extractable, MemberItems, MemberPath, Placed;
    if ms != [] {
      MembersInterpret(ms[1..], dest);
      MemberFirst(ms[0], Items(ms[1..], dest), dest);
    }
  }

  /** An archive of members is extracted to all of them below the destination. */
  lemma MembersReadBack(ms: seq<Member>, dest: string)
    requires AllExtractable(ms, dest)
    ensures ValidItems(Items(ms, dest))
    ensures Extract(Archive(Items(ms, dest)), None, dest) == Some(Run(Extracted(ms, dest), 0))
  {
    hide AllExtractable, Items, Interpret, Archive, Extracted;
    MembersInterpret(ms, dest);
    ArchiveRoundTrip(Items(ms, dest));
  }
}
