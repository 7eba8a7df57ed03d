/** Names and numbers in TAR headers. */
module TarNames {
  import opened Numbers
  import opened Options
  import opened Bits

  const PATH_MAX: nat := 384

  function Chars(b: seq<byte>): (s: string)
    ensures |s| == |b|
  {
    seq(|b|, i requires 0 <= i < |b| => b[i] as char)
  }

  /** A string up to its first NUL. */
  function CString(s: string): (r: string)
    ensures |r| <= |s|
  {
    if s == "" || s[0] == '\0' then "" else [s[0]] + CString(s[1..])
  }

  // ---------------------------------------------------------------- octal numbers

  predicate IsOctal(c: char) {
    '0' <= c <= '7'
  }

  function SkipBlanks(s: string): (r: string)
    ensures |r| <= |s|
  {
    if s != "" && (s[0] == ' ' || s[0] == '\0') then SkipBlanks(s[1..]) else s
  }

  /** The digits up to the first blank, after some digits already read; in 32 bits. */
  function OctalDigits(s: string, v: nat): Option<nat> {
    if s == "" || s[0] == '\0' || s[0] == ' ' then Some(v)
    else if !IsOctal(s[0]) then None
    else OctalDigits(s[1..], (v * 8 + (s[0] as nat - '0' as nat)) % TWO_TO_32)
  }

  function Octal(s: string): Option<nat> {
    OctalDigits(SkipBlanks(s), 0)
  }

  method ParseOctalU32(field: string) returns (r: Option<nat>)
    ensures r == Octal(field)
  {
    var v: nat := 0;
    var i := 0;
    assert field[0..] == field;
    while i < |field| && (field[i] == ' ' || field[i] == '\0')
      invariant 0 <= i <= |field| && SkipBlanks(field[i..]) == SkipBlanks(field)
    {
      assert field[i..][1..] == field[i + 1..];
      i := i + 1;
    }
    while i < |field|
      invariant 0 <= i <= |field| && OctalDigits(field[i..], v) == Octal(field)
    {
      var c := field[i];
      if c == '\0' || c == ' ' {
        break;
      }
      if c < '0' || c > '7' {
        return None;
      }
      assert field[i..][1..] == field[i + 1..];
      v := (v * 8 + (c as nat - '0' as nat)) % TWO_TO_32;
      i := i + 1;
    }
    return Some(v);
  }

  /** Eleven digits hold any size the header can state. */
  function OctalText(v: nat, width: nat): string {
    if width == 0 then "" else OctalText(v / 8, width - 1) + [('0' as nat + v % 8) as char]
  }

  function PowerOf8(n: nat): nat {
    if n == 0 then 1 else 8 * PowerOf8(n - 1)
  }

  lemma {:induction false} OctalDigitsOf(v: nat, width: nat, rest: string)
    requires v < PowerOf8(width) && v < TWO_TO_32
    ensures OctalDigits(OctalText(v, width) + rest, 0) == OctalDigits(rest, v)
    decreases width
  {
    if width == 0 {
      assert "" + rest == rest;
    } else {
      var last := ('0' as nat + v % 8) as char;
      OctalDigitsOf(v / 8, width - 1, [last] + rest);
      assert OctalText(v, width) + rest == OctalText(v / 8, width - 1) + ([last] + rest);
      assert ([last] + rest)[1..] == rest;
      assert (v / 8) * 8 + v % 8 == v;
    }
  }

  /** A size written as octal digits and a blank is read back. */
  lemma OctalRoundTrip(v: nat, width: nat)
    requires 0 < width && v < PowerOf8(width) && v < TWO_TO_32
    ensures Octal(OctalText(v, width) + "\0") == Some(v)
  {
    OctalDigitsOf(v, width, "\0");
    FirstDigit(v, width);
    assert OctalText(v, width) + "\0" != "";
  }

  lemma {:induction false} FirstDigit(v: nat, width: nat)
    requires 0 < width
    ensures OctalText(v, width) != "" && IsOctal(OctalText(v, width)[0])
  {
    if width > 1 {
      FirstDigit(v / 8, width - 1);
    }
  }

  // ---------------------------------------------------------------- names

  function TrimSpaces(s: string): (r: string)
    ensures |r| <= |s|
  {
    if s != "" && s[|s| - 1] == ' ' then TrimSpaces(s[..|s| - 1]) else s
  }

  function Field(header: seq<byte>, at: nat, len: nat): string
    requires at + len <= |header|
  {
    TrimSpaces(CString(Chars(header[at..at + len])))
  }

  /** The name a header gives: its prefix and its name joined by a slash. */
  function EntryName(header: seq<byte>): (r: string)
    requires |header| == 512
    ensures |r| < PATH_MAX
  {
    var name, prefix := Field(header, 0, 100), Field(header, 345, 155);
    if prefix == "" then name else if name == "" then prefix else prefix + "/" + name
  }

  // ---------------------------------------------------------------- safe relative paths

  /** The components between slashes. */
  function Components(s: string): (r: seq<string>)
    ensures |r| > 0
    ensures forall i :: 0 <= i < |r| ==> '/' !in r[i]
  {
    if s == "" then [""]
    else if s[0] == '/' then [""] + Components(s[1..])
    else var r := Components(s[1..]); [[s[0]] + r[0]] + r[1..]
  }

  predicate Dropped(c: string) {
    c == "" || c == "."
  }

  /** A component that would leave the destination, or name a device or another separator. */
  predicate Unsafe(c: string) {
    c == ".." || '\\' in c || ':' in c
  }

  function KeepComponents(cs: seq<string>): seq<string> {
    if cs == [] then [] else (if Dropped(cs[0]) then [] else [cs[0]]) + KeepComponents(cs[1..])
  }

  function Join(cs: seq<string>): string {
    if cs == [] then "" else if |cs| == 1 then cs[0] else cs[0] + "/" + Join(cs[1..])
  }

  /** The path made of some components, unless one is unsafe or the path is too long. */
  function PathOf(cs: seq<string>): Option<string> {
    if AnyUnsafe(cs) || |Join(cs)| >= PATH_MAX then None else Some(Join(cs))
  }

  predicate AnyUnsafe(cs: seq<string>) {
    exists i :: 0 <= i < |cs| && Unsafe(cs[i])
  }

  function Sanitize(s: string): Option<string> {
    PathOf(KeepComponents(Components(s)))
  }

  lemma {:induction false} ComponentsOfOne(c: string)
    requires '/' !in c
    ensures Components(c) == [c]
  {
    if c != "" {
      ComponentsOfOne(c[1..]);
      assert c == [c[0]] + c[1..];
    }
  }

  lemma {:induction false} ComponentsSplit(c: string, rest: string)
    requires '/' !in c
    ensures Components(c + "/" + rest) == [c] + Components(rest)
  {
    var s := c + "/" + rest;
    if c == "" {
      assert s[1..] == rest;
    } else {
      ComponentsSplit(c[1..], rest);
      assert s[1..] == c[1..] + "/" + rest;
      assert c == [c[0]] + c[1..];
    }
  }

  lemma {:induction false} ComponentsOfJoin(cs: seq<string>)
    requires cs != [] && forall i :: 0 <= i < |cs| ==> '/' !in cs[i]
    ensures Components(Join(cs)) == cs
  {
    if |cs| == 1 {
      ComponentsOfOne(cs[0]);
    } else {
      ComponentsOfJoin(cs[1..]);
      ComponentsSplit(cs[0], Join(cs[1..]));
      assert cs == [cs[0]] + cs[1..];
    }
  }

  lemma KeepFirst(c: string, rest: seq<string>)
    ensures KeepComponents([c] + rest) == (if Dropped(c) then [] else [c]) + KeepComponents(rest)
  {
    hide Dropped;
    assert ([c] + rest)[1..] == rest;
  }

  lemma KeepNone()
    ensures KeepComponents([]) == []
  {}

  lemma {:induction false} KeptComponents(cs: seq<string>)
    ensures forall c :: c in KeepComponents(cs) ==> c in cs && !Dropped(c)
    ensures KeepComponents(KeepComponents(cs)) == KeepComponents(cs)
  {
    hide Dropped, KeepComponents;
    KeepNone();
    if cs != [] {
      var k := KeepComponents(cs[1..]);
      KeptComponents(cs[1..]);
      KeepFirst(cs[0], cs[1..]);
      assert cs == [cs[0]] + cs[1..];
      if Dropped(cs[0]) {
        assert [] + k == k;
      } else {
        KeepFirst(cs[0], k);
      }
    }
  }

  /** A sanitized path has only safe components, none empty and none of dots alone, so it does not leave
      the destination; and sanitizing it again changes nothing. */
  lemma SanitizedIsSafe(s: string)
    requires Sanitize(s).Some? && Sanitize(s).value != ""
    ensures var r := Sanitize(s).value;
            && (forall c :: c in Components(r) ==> c != "" && c != "." && !Unsafe(c))
            && |r| < PATH_MAX && Sanitize(r) == Some(r)
  {
    hide Unsafe, Dropped, KeepComponents, Components, Join;
    var cs := KeepComponents(Components(s));
    KeptComponents(Components(s));
    JoinNone();
    forall i | 0 <= i < |cs| ensures '/' !in cs[i] {
      assert cs[i] in cs;
    }
    ComponentsOfJoin(cs);
    EmptyDropped();
    forall c | c in cs ensures !Unsafe(c) {}
  }

  lemma JoinNone()
    ensures Join([]) == ""
  {}

  lemma EmptyDropped()
    ensures Dropped("") && Dropped(".")
  {}

  lemma {:induction false} JoinMore(cs: seq<string>, c: string)
    ensures Join(cs + [c]) == (if cs == [] then c else Join(cs) + "/" + c)
  {
    if cs != [] {
      JoinMore(cs[1..], c);
      assert (cs + [c])[1..] == cs[1..] + [c];
      if |cs| > 1 {
        assert cs[0] + "/" + (Join(cs[1..]) + "/" + c) == cs[0] + "/" + Join(cs[1..]) + "/" + c;
      }
    }
  }

  /** What remains of sanitizing after some components were kept. */
  ghost function SanitizeRest(kept: seq<string>, s: string): Option<string> {
    PathOf(kept + KeepComponents(Components(s)))
  }

  lemma RestAfterSlash(kept: seq<string>, s: string)
    requires s != "" && s[0] == '/'
    ensures SanitizeRest(kept, s[1..]) == SanitizeRest(kept, s)
  {
    hide PathOf, KeepComponents, Dropped;
    EmptyDropped();
    KeepFirst("", Components(s[1..]));
    assert [] + KeepComponents(Components(s[1..])) == KeepComponents(Components(s[1..]));
  }

  /** The first component c is followed by the end or by a slash. */
  lemma RestAfterComponent(kept: seq<string>, c: string, rest: string)
    requires '/' !in c && (rest == "" || rest[0] == '/')
    ensures SanitizeRest(kept, c + rest) == SanitizeRest(if Dropped(c) then kept else kept + [c], rest)
  {
    hide PathOf, KeepComponents, Components, Dropped;
    EmptyDropped();
    KeepNone();
    KeepFirst("", []);
    ComponentsOfOne("");
    assert [""] + [] == [""];
    if rest == "" {
      assert c + rest == c && [c] + [] == [c];
      ComponentsOfOne(c);
      KeepFirst(c, []);
      KeptFirst(kept, c, []);
    } else {
      var more := rest[1..];
      var k := KeepComponents(Components(more));
      assert c + rest == c + "/" + more && rest == "" + "/" + more;
      ComponentsSplit(c, more);
      ComponentsSplit("", more);
      KeepFirst(c, Components(more));
      KeepFirst("", Components(more));
      KeptFirst(kept, c, k);
      assert [] + k == k;
    }
  }

  lemma KeptFirst(kept: seq<string>, c: string, k: seq<string>)
    ensures kept + ((if Dropped(c) then [] else [c]) + k) == (if Dropped(c) then kept else kept + [c]) + k
  {
    hide Dropped;
  }

  lemma UnsafeKept(kept: seq<string>, s: string)
    requires kept != [] && Unsafe(kept[|kept| - 1])
    ensures SanitizeRest(kept, s) == None
  {
    hide Unsafe, KeepComponents, Components;
    var cs := kept + KeepComponents(Components(s));
    assert Unsafe(cs[|kept| - 1]);
  }

  lemma {:induction false} JoinLonger(a: seq<string>, b: seq<string>)
    ensures |Join(a + b)| >= |Join(a)|
    decreases |b|
  {
    if b == [] {
      assert a + b == a;
    } else {
      JoinLonger(a + [b[0]], b[1..]);
      JoinMore(a, b[0]);
      assert a + [b[0]] + b[1..] == a + b;
    }
  }

  /** One component is added to the path built so far; none when it is unsafe or does not fit. */
  method PushComponent(comp: string, out: string, ghost kept: seq<string>) returns (r: Option<string>)
    requires out == Join(kept) && |out| < PATH_MAX && forall c :: c in kept ==> c != ""
    ensures r == if Dropped(comp) then Some(out)
                 else if Unsafe(comp) || |Join(kept + [comp])| >= PATH_MAX then None
                 else Some(Join(kept + [comp]))
  {
    JoinMore(kept, comp);
    if comp == "" || comp == "." {
      return Some(out);
    }
    if comp == ".." {
      return None;
    }
    for i := 0 to |comp|
      invariant forall k :: 0 <= k < i ==> comp[k] != '\\' && comp[k] != ':'
    {
      if comp[i] == '\\' || comp[i] == ':' {
        return None;
      }
    }
    assert '\\' !in comp && ':' !in comp;
    assert (out == "") == (kept == []) by {
      JoinEmpty(kept);
    }
    var whole := out;
    if whole != "" {
      if |whole| + 1 >= PATH_MAX {
        return None;
      }
      whole := whole + "/";
    }
    if |whole| + |comp| >= PATH_MAX {
      return None;
    }
    assert "" + comp == comp;
    return Some(whole + comp);
  }

  lemma JoinEmpty(cs: seq<string>)
    requires forall c :: c in cs ==> c != ""
    ensures Join(cs) == "" <==> cs == []
  {
    if cs != [] {
      assert cs[0] in cs;
    }
  }

  method SanitizeRelativePath(input: string) returns (r: Option<string>)
    ensures r == Sanitize(input)
  {
    hide Components, KeepComponents, Join, Unsafe, Dropped, SanitizeRest;
    var i: nat := 0;
    ghost var kept: seq<string> := [];
    assert input[0..] == input;
    RestStart(input);
    while i < |input| && input[i] == '/'
      invariant i <= |input| && SanitizeRest(kept, input[i..]) == Sanitize(input)
    {
      RestAfterSlash(kept, input[i..]);
      assert input[i..][1..] == input[i + 1..];
      i := i + 1;
    }
    var out := "";
    while i < |input|
      invariant i <= |input| && SanitizeRest(kept, input[i..]) == Sanitize(input)
      invariant out == Join(kept) && |out| < PATH_MAX && forall c :: c in kept ==> c != "" && !Unsafe(c)
      decreases |input| - i
    {
      var start := i;
      i := EndOfComponent(input, start);
      var comp := input[start..i];
      assert input[start..] == comp + input[i..];
      RestAfterComponent(kept, comp, input[i..]);
      var pushed := PushComponent(comp, out, kept);
      EmptyDropped();
      if pushed.None? {
        StuckRest(kept, comp, input[i..]);
        return None;
      }
      out := pushed.value;
      if !Dropped(comp) {
        kept := kept + [comp];
      }
      var next := i;
      while next < |input| && input[next] == '/'
        invariant i <= next <= |input| && SanitizeRest(kept, input[next..]) == Sanitize(input)
      {
        RestAfterSlash(kept, input[next..]);
        assert input[next..][1..] == input[next + 1..];
        next := next + 1;
      }
      SlashProgress(input, start, i, next);
      i := next;
    }
    assert input[i..] == "";
    RestEnd(kept);
    return Some(out);
  }

  lemma RestStart(s: string)
    ensures SanitizeRest([], s) == Sanitize(s) && Join([]) == ""
  {
    assert [] + KeepComponents(Components(s)) == KeepComponents(Components(s));
  }

  lemma RestEnd(kept: seq<string>)
    requires |Join(kept)| < PATH_MAX && forall c :: c in kept ==> !Unsafe(c)
    ensures SanitizeRest(kept, "") == Some(Join(kept))
  {
    hide Unsafe, Dropped;
    EmptyDropped();
    KeepNone();
    KeepFirst("", []);
    assert [""] + [] == [""];
    assert kept + [] == kept;
  }

  lemma StuckRest(kept: seq<string>, c: string, rest: string)
    requires !Dropped(c) && (Unsafe(c) || |Join(kept + [c])| >= PATH_MAX)
    ensures SanitizeRest(kept + [c], rest) == None
  {
    hide Unsafe, Dropped, KeepComponents, Components, Join;
    if Unsafe(c) {
      UnsafeKept(kept + [c], rest);
    } else {
      JoinLonger(kept + [c], KeepComponents(Components(rest)));
    }
  }

  method EndOfComponent(input: string, start: nat) returns (end: nat)
    requires start <= |input|
    ensures start <= end <= |input| && '/' !in input[start..end] && (end == |input| || input[end] == '/')
  {
    end := start;
    while end < |input| && input[end] != '/'
      invariant start <= end <= |input| && '/' !in input[start..end]
    {
      end := end + 1;
    }
  }

  lemma SlashProgress(input: string, start: nat, end: nat, next: nat)
    requires start <= end <= next <= |input| && start < |input|
    requires end == |input| || (input[end] == '/' && next > end)
    ensures next > start
  {}

  /** Where an entry is written under the destination. */
  function JoinPaths(base: string, rel: string): Option<string> {
    var whole := if base == "" || base == "." then rel
                 else if base[|base| - 1] != '/' then base + "/" + rel else base + rel;
    if |whole| + 1 > PATH_MAX then None else Some(whole)
  }
}
