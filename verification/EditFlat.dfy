/** The editor's lines as one text with line breaks, and what each key does to that text. */
module EditFlat {
  import opened Options
  import opened EditModel

  /** Lines that are each ended by a line break, and lines that each begin with one. */
  function Ended(lines: seq<string>): string {
    if lines == [] then "" else lines[0] + "\n" + Ended(lines[1..])
  }

  function Begun(lines: seq<string>): string {
    if lines == [] then "" else "\n" + lines[0] + Begun(lines[1..])
  }

  /** The whole text: line breaks between the lines. */
  function Flat(t: Text): string
    requires t != []
  {
    t[0] + Begun(t[1..])
  }

  /** Where the cursor stands in the whole text. */
  function Offset(t: Text, c: Cursor): nat
    requires CursorIn(t, c)
  {
    |Ended(t[..c.line])| + c.col
  }

  /** What is before a line, the line, and what is after it. */
  lemma {:induction false} FlatAt(a: seq<string>, x: string, b: seq<string>)
    ensures Flat(a + [x] + b) == Ended(a) + x + Begun(b)
    decreases |a|
  {
    if a == [] {
      assert a + [x] + b == [x] + b && ([x] + b)[1..] == b;
    } else {
      FlatAt(a[1..], x, b);
      var t := a + [x] + b;
      assert t[1..] == a[1..] + [x] + b;
      BegunFirst(t[1..]);
      assert t[0] + ("\n" + Flat(t[1..])) == a[0] + "\n" + (Ended(a[1..]) + x + Begun(b));
      assert a[0] + "\n" + (Ended(a[1..]) + x + Begun(b)) == (a[0] + "\n" + Ended(a[1..])) + x + Begun(b);
    }
  }

  lemma BegunFirst(lines: seq<string>)
    requires lines != []
    ensures Begun(lines) == "\n" + Flat(lines)
  {
    assert "\n" + lines[0] + Begun(lines[1..]) == "\n" + (lines[0] + Begun(lines[1..]));
  }

  lemma {:induction false} EndedLast(lines: seq<string>, x: string)
    ensures Ended(lines + [x]) == Ended(lines) + x + "\n"
  {
    if lines == [] {
      assert lines + [x] == [x] && [x][1..] == [];
    } else {
      EndedLast(lines[1..], x);
      assert (lines + [x])[1..] == lines[1..] + [x];
      var rest := Ended(lines[1..]);
      assert lines[0] + "\n" + (rest + x + "\n") == (lines[0] + "\n" + rest) + x + "\n";
    }
  }

  /** The text around one line. */
  lemma FlatAround(t: Text, line: nat)
    requires line < |t|
    ensures Flat(t) == Ended(t[..line]) + t[line] + Begun(t[line + 1..])
  {
    FlatAt(t[..line], t[line], t[line + 1..]);
    assert t == t[..line] + [t[line]] + t[line + 1..];
  }

  lemma OffsetInText(t: Text, c: Cursor)
    requires CursorIn(t, c)
    ensures Offset(t, c) <= |Flat(t)|
  {
    FlatAround(t, c.line);
  }

  // ---------------------------------------------------------------- edits

  /** The joined line fits; otherwise the second line is lost. */
  predicate Fits(t: Text, line: nat)
    requires 0 < line < |t|
  {
    |t[line - 1]| + |t[line]| < MAX_LINE_LEN
  }

  /** Where an edit takes place in the whole text. */
  function Place(t: Text, e: Edit): nat
    requires Effective(t, e)
  {
    match e
    case Type(line, col, _) => Offset(t, Cursor(line, col))
    case Break(line, col) => Offset(t, Cursor(line, col))
    case Delete(line, col) => Offset(t, Cursor(line, col))
    case Merge(line) => Offset(t, Cursor(line - 1, |t[line - 1]|))
  }

  lemma TypeOnFlat(t: Text, line: nat, col: nat, ch: char)
    requires ValidText(t) && Effective(t, Type(line, col, ch))
    ensures var s, p := Flat(t), Place(t, Type(line, col, ch));
            p <= |s| && Flat(EditText(t, Type(line, col, ch))) == s[..p] + [ch] + s[p..]
  {
    hide Flat, Ended, Begun;
    var a, x, b := t[..line], t[line], t[line + 1..];
    var after := t[line := InsertAt(x, col, ch)];
    FlatAround(t, line);
    FlatAround(after, line);
    assert after[..line] == a && after[line + 1..] == b;
    InMiddle(Ended(a), x, Begun(b), col, [ch]);
  }

  lemma InMiddle(a: string, x: string, b: string, col: nat, ins: string)
    requires col <= |x|
    ensures var s, p := a + x + b, |a| + col; a + (x[..col] + ins + x[col..]) + b == s[..p] + ins + s[p..]
  {
    var s, p := a + x + b, |a| + col;
    assert s[..p] == a + x[..col] && s[p..] == x[col..] + b;
  }

  lemma DeleteOnFlat(t: Text, line: nat, col: nat)
    requires ValidText(t) && Effective(t, Delete(line, col))
    ensures var s, p := Flat(t), Place(t, Delete(line, col));
            p < |s| && Flat(EditText(t, Delete(line, col))) == s[..p] + s[p + 1..]
  {
    hide Flat, Ended, Begun;
    var a, x, b := t[..line], t[line], t[line + 1..];
    var after := t[line := RemoveAt(x, col)];
    FlatAround(t, line);
    FlatAround(after, line);
    assert after[..line] == a && after[line + 1..] == b;
    OutOfMiddle(Ended(a), x, Begun(b), col);
  }

  lemma OutOfMiddle(a: string, x: string, b: string, col: nat)
    requires col < |x|
    ensures var s, p := a + x + b, |a| + col; a + (x[..col] + x[col + 1..]) + b == s[..p] + s[p + 1..]
  {
    var s, p := a + x + b, |a| + col;
    assert s[..p] == a + x[..col] && s[p + 1..] == x[col + 1..] + b;
  }

  lemma BreakOnFlat(t: Text, line: nat, col: nat)
    requires ValidText(t) && Effective(t, Break(line, col))
    ensures var s, p := Flat(t), Place(t, Break(line, col));
            p <= |s| && Flat(EditText(t, Break(line, col))) == s[..p] + "\n" + s[p..]
  {
    hide Flat, Ended;
    var a, x, b := t[..line], t[line], t[line + 1..];
    var after := EditText(t, Break(line, col));
    assert after == a + [x[..col]] + ([x[col..]] + b);
    FlatAround(t, line);
    FlatAt(a, x[..col], [x[col..]] + b);
    assert ([x[col..]] + b)[1..] == b;
    InMiddle(Ended(a), x, Begun(b), col, "\n");
    assert Ended(a) + x[..col] + ("\n" + x[col..] + Begun(b)) == Ended(a) + (x[..col] + "\n" + x[col..]) + Begun(b);
  }

  /** A merge that fits removes the line break; one that does not fit also removes the line after it. */
  lemma MergeOnFlat(t: Text, line: nat)
    requires ValidText(t) && Effective(t, Merge(line))
    ensures var s, p := Flat(t), Place(t, Merge(line)); var n := if Fits(t, line) then 1 else 1 + |t[line]|;
            && p + 1 + |t[line]| <= |s| && s[p] == '\n' && s[p + 1..p + 1 + |t[line]|] == t[line]
            && Flat(EditText(t, Merge(line))) == s[..p] + s[p + n..]
  {
    hide Flat, Ended;
    var a, x, y, b := t[..line - 1], t[line - 1], t[line], t[line + 1..];
    var joined := if Fits(t, line) then x + y else x;
    assert t[line..] == [y] + b && ([y] + b)[1..] == b;
    FlatAround(t, line - 1);
    assert EditText(t, Merge(line)) == a + [joined] + b;
    FlatAt(a, joined, b);
    var s, p := Flat(t), |Ended(a)| + |x|;
    assert s == (Ended(a) + x) + ("\n" + y + Begun(b));
    assert s[..p] == Ended(a) + x;
    assert s[p + 1..] == y + Begun(b);
  }

  // ---------------------------------------------------------------- keys

  /** What a key does to the whole text and the place of the cursor in it. Typing and breaking a line need room; a join
      that does not fit loses the line after the line break. */
  predicate KeyActs(t: Text, c: Cursor, k: Key, t2: Text, c2: Cursor)
    requires CursorIn(t, c) && CursorIn(t2, c2)
  {
    var s, p, s2, p2 := Flat(t), Offset(t, c), Flat(t2), Offset(t2, c2);
    && p <= |s|
    && match k
       case Move(dest) => t2 == t && c2 == if CursorIn(t, dest) then dest else c
       case Char(ch) =>
         if |t[c.line]| < MAX_LINE_LEN - 1 then s2 == s[..p] + [ch] + s[p..] && p2 == p + 1 else s2 == s && p2 == p
       case Enter =>
         if |t| < MAX_LINES then s2 == s[..p] + "\n" + s[p..] && p2 == p + 1 else s2 == s && p2 == p
       case Backspace =>
         if p == 0 then s2 == s && p2 == p
         else
           var lost := if c.col == 0 < c.line && !Fits(t, c.line) then |t[c.line]| else 0;
           p + lost <= |s| && s2 == s[..p - 1] + s[p + lost..] && p2 == p - 1
       case DeleteKey =>
         if p == |s| then s2 == s && p2 == p
         else
           var lost :=
             if c.col == |t[c.line]| && c.line + 1 < |t| && !Fits(t, c.line + 1) then |t[c.line + 1]| else 0;
           p + 1 + lost <= |s| && s2 == s[..p] + s[p + 1 + lost..] && p2 == p
  }

  lemma OffsetBounds(t: Text, c: Cursor)
    requires CursorIn(t, c)
    ensures Offset(t, c) <= |Flat(t)|
    ensures Offset(t, c) == 0 <==> c == Cursor(0, 0)
    ensures Offset(t, c) == |Flat(t)| <==> c.line + 1 == |t| && c.col == |t[c.line]|
  {
    hide Flat;
    FlatAround(t, c.line);
  }

  /** The end of a line stands just before the start of the next. */
  lemma NextLineOffset(t: Text, line: nat)
    requires 0 < line < |t|
    ensures Offset(t, Cursor(line, 0)) == Offset(t, Cursor(line - 1, |t[line - 1]|)) + 1
  {
    hide Ended;
    EndedLast(t[..line - 1], t[line - 1]);
    assert t[..line] == t[..line - 1] + [t[line - 1]];
  }

  /** Lines before the cursor that stay keep its offset. */
  lemma SameOffset(t: Text, t2: Text, c: Cursor)
    requires CursorIn(t, c) && CursorIn(t2, c) && t[..c.line] == t2[..c.line]
    ensures Offset(t, c) == Offset(t2, c)
  {}

  /** Every key has that meaning. */
  lemma KeyOnFlat(t: Text, c: Cursor, k: Key)
    requires ValidText(t) && CursorIn(t, c)
    ensures var e := EditOf(t, c, k); var t2 := if e.Some? then EditText(t, e.value) else t;
            CursorIn(t2, CursorAfter(t, c, k)) && KeyActs(t, c, k, t2, CursorAfter(t, c, k))
  {
    hide Flat, Offset;
    CursorStays(t, c, k);
    OffsetBounds(t, c);
    match k
    case Move(_) =>
    case Char(ch) =>
      if |t[c.line]| < MAX_LINE_LEN - 1 {
        CharOnFlat(t, c, ch);
      }
    case Enter =>
      if |t| < MAX_LINES {
        EnterOnFlat(t, c);
      }
    case Backspace => BackspaceOnFlat(t, c);
    case DeleteKey => DeleteKeyOnFlat(t, c);
  }

  lemma CharOnFlat(t: Text, c: Cursor, ch: char)
    requires ValidText(t) && CursorIn(t, c) && |t[c.line]| < MAX_LINE_LEN - 1
    ensures var t2 := EditText(t, Type(c.line, c.col, ch)); var s, p := Flat(t), Offset(t, c);
            && p <= |s| && Flat(t2) == s[..p] + [ch] + s[p..]
            && CursorIn(t2, Cursor(c.line, c.col + 1)) && Offset(t2, Cursor(c.line, c.col + 1)) == p + 1
  {
    hide Flat, Ended;
    TypeOnFlat(t, c.line, c.col, ch);
    assert EditText(t, Type(c.line, c.col, ch))[..c.line] == t[..c.line];
  }

  lemma EnterOnFlat(t: Text, c: Cursor)
    requires ValidText(t) && CursorIn(t, c) && |t| < MAX_LINES
    ensures var t2 := EditText(t, Break(c.line, c.col)); var s, p := Flat(t), Offset(t, c);
            && p <= |s| && Flat(t2) == s[..p] + "\n" + s[p..]
            && CursorIn(t2, Cursor(c.line + 1, 0)) && Offset(t2, Cursor(c.line + 1, 0)) == p + 1
  {
    hide Flat, Ended;
    BreakOnFlat(t, c.line, c.col);
    var t2 := EditText(t, Break(c.line, c.col));
    NextLineOffset(t2, c.line + 1);
    assert t2[..c.line] == t[..c.line] && t2[c.line] == t[c.line][..c.col];
  }

  lemma BackspaceOnFlat(t: Text, c: Cursor)
    requires ValidText(t) && CursorIn(t, c)
    ensures var e := EditOf(t, c, Backspace); var t2 := if e.Some? then EditText(t, e.value) else t;
            CursorIn(t2, CursorAfter(t, c, Backspace)) && KeyActs(t, c, Backspace, t2, CursorAfter(t, c, Backspace))
  {
    hide Flat, Ended;
    CursorStays(t, c, Backspace);
    OffsetBounds(t, c);
    if c.col > 0 {
      DeleteOnFlat(t, c.line, c.col - 1);
      assert EditText(t, Delete(c.line, c.col - 1))[..c.line] == t[..c.line];
    } else if c.line > 0 {
      MergeOnFlat(t, c.line);
      NextLineOffset(t, c.line);
      assert EditText(t, Merge(c.line))[..c.line - 1] == t[..c.line - 1];
    }
  }

  lemma DeleteKeyOnFlat(t: Text, c: Cursor)
    requires ValidText(t) && CursorIn(t, c)
    ensures var e := EditOf(t, c, DeleteKey); var t2 := if e.Some? then EditText(t, e.value) else t;
            CursorIn(t2, c) && KeyActs(t, c, DeleteKey, t2, c)
  {
    hide Flat, Ended;
    CursorStays(t, c, DeleteKey);
    OffsetBounds(t, c);
    if c.col < |t[c.line]| {
      DeleteOnFlat(t, c.line, c.col);
      assert EditText(t, Delete(c.line, c.col))[..c.line] == t[..c.line];
    } else if c.line + 1 < |t| {
      MergeOnFlat(t, c.line + 1);
      assert EditText(t, Merge(c.line + 1))[..c.line] == t[..c.line];
    }
  }

  // ---------------------------------------------------------------- the lines of the whole text

  /** No line holds a line break. */
  predicate Proper(t: Text) {
    forall i :: 0 <= i < |t| ==> '\n' !in t[i]
  }

  /** Edits keep lines apart, unless a line break is typed as a character. */
  lemma EditKeepsProper(t: Text, e: Edit)
    requires ValidText(t) && Effective(t, e) && Proper(t) && (e.Type? ==> e.ch != '\n')
    ensures Proper(EditText(t, e))
  {}

  /** The place of the first line break, or the end. */
  function FirstBreak(s: string): nat {
    if s == "" || s[0] == '\n' then 0 else 1 + FirstBreak(s[1..])
  }

  lemma {:induction false} FirstBreakAfter(line: string, rest: string)
    requires '\n' !in line && (rest == "" || rest[0] == '\n')
    ensures FirstBreak(line + rest) == |line|
  {
    if line == "" {
      assert line + rest == rest;
    } else {
      FirstBreakAfter(line[1..], rest);
      assert (line + rest)[1..] == line[1..] + rest;
    }
  }

  /** The first line and the others, in the whole text. */
  lemma FlatParts(t: Text)
    requires t != [] && Proper(t)
    ensures FirstBreak(Flat(t)) == |t[0]| && Flat(t)[..|t[0]|] == t[0]
    ensures |t| == 1 <==> |Flat(t)| == |t[0]|
    ensures |t| > 1 ==> Flat(t)[|t[0]| + 1..] == Flat(t[1..])
  {
    FirstBreakAfter(t[0], Begun(t[1..]));
    if |t| > 1 {
      BegunFirst(t[1..]);
    }
  }

  /** Then the whole text determines the lines. */
  lemma {:induction false} FlatDetermines(a: Text, b: Text)
    requires a != [] && b != [] && Proper(a) && Proper(b) && Flat(a) == Flat(b)
    ensures a == b
    decreases |a|
  {
    hide Flat, FirstBreak;
    FlatParts(a);
    FlatParts(b);
    if |a| > 1 {
      FlatDetermines(a[1..], b[1..]);
    }
    assert a == [a[0]] + a[1..] && b == [b[0]] + b[1..];
  }
}
