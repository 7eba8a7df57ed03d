/** The editor buffer: an array of fixed-size lines shifted in place, with an undo stack. No text is
    selected in these operations. */
module Editor {
  import opened EditModel
  import opened EditFlat

  /** A line record: a fixed-size character buffer, the text ending at len with a NUL. */
  datatype Line = Line(data: seq<char>, len: nat) {
    predicate Valid() {
      |data| == MAX_LINE_LEN && len < MAX_LINE_LEN && data[len] == '\0'
    }

    function Chars(): string
      requires Valid()
    {
      data[..len]
    }
  }

  predicate AllValid(lines: seq<Line>) {
    forall i :: 0 <= i < |lines| ==> lines[i].Valid()
  }

  function TextOf(lines: seq<Line>): (t: Text)
    requires AllValid(lines)
    ensures |t| == |lines| && forall i :: 0 <= i < |t| ==> t[i] == lines[i].Chars()
  {
    seq(|lines|, i requires 0 <= i < |lines| => lines[i].Chars())
  }

  // ---------------------------------------------------------------- one line

  /** Shifts the characters from col on one to the right and puts ch at col. */
  method InsertInLine(ln: Line, col: nat, ch: char) returns (r: Line)
    requires ln.Valid() && col <= ln.len < MAX_LINE_LEN - 1
    ensures r.Valid() && r.Chars() == InsertAt(ln.Chars(), col, ch)
  {
    var d := ln.data;
    var i := ln.len;
    while i > col
      invariant col <= i <= ln.len && |d| == MAX_LINE_LEN
      invariant forall k :: 0 <= k <= i ==> d[k] == ln.data[k]
      invariant forall k :: i < k <= ln.len ==> d[k] == ln.data[k - 1]
    {
      d := d[i := d[i - 1]];
      i := i - 1;
    }
    d := d[col := ch];
    d := d[ln.len + 1 := '\0'];
    r := Line(d, ln.len + 1);
    assert r.Chars() == InsertAt(ln.Chars(), col, ch);
  }

  /** The same at a column beyond the end: nothing is shifted, and the line grows by its terminator. */
  method InsertBeyond(ln: Line, col: nat, ch: char) returns (r: Line)
    requires ln.Valid() && ln.len < col < MAX_LINE_LEN && ln.len < MAX_LINE_LEN - 1
    ensures r.Valid() && r.Chars() == ln.Chars() + "\0"
  {
    var d := ln.data[col := ch];
    d := d[ln.len + 1 := '\0'];
    r := Line(d, ln.len + 1);
    assert d[..ln.len + 1] == ln.data[..ln.len] + [ln.data[ln.len]];
  }

  /** Shifts the characters after col one to the left. */
  method RemoveFromLine(ln: Line, col: nat) returns (r: Line)
    requires ln.Valid() && col < ln.len
    ensures r.Valid() && r.Chars() == RemoveAt(ln.Chars(), col)
  {
    var d := ln.data;
    var i := col;
    while i < ln.len - 1
      invariant col <= i <= ln.len - 1 && |d| == MAX_LINE_LEN
      invariant forall k :: 0 <= k < col || i <= k < MAX_LINE_LEN ==> d[k] == ln.data[k]
      invariant forall k :: col < k <= i ==> d[k - 1] == ln.data[k]
    {
      d := d[i := d[i + 1]];
      i := i + 1;
    }
    d := d[ln.len - 1 := '\0'];
    r := Line(d, ln.len - 1);
    forall k | col <= k < ln.len - 1
      ensures d[k] == ln.data[k + 1]
    {
      assert d[k + 1 - 1] == ln.data[k + 1];
    }
    assert r.Chars() == RemoveAt(ln.Chars(), col);
  }

  /** memcpy of a string to the front of a buffer, NUL-terminated. */
  function WithText(ln: Line, s: string): (r: Line)
    requires |ln.data| == MAX_LINE_LEN && |s| < MAX_LINE_LEN
    ensures r.Valid() && r.Chars() == s
  {
    Line(s + ['\0'] + ln.data[|s| + 1..], |s|)
  }

  const NO_ENTRY: Entry := Entry(Kind.InsertChar, 0, 0, '\0', "")

  /** The entry refers to a place of the storage. */
  predicate EntryOk(e: Entry) {
    e.line < MAX_LINES && e.col < MAX_LINE_LEN && |e.saved| < MAX_LINE_LEN && (e.kind.DeleteLine? ==> e.line > 0)
  }

  class Buffer {
    const lines: array<Line>
    var lineCount: nat
    var curLine: nat
    var curCol: nat
    const undoStack: array<Entry>
    var undoTop: nat
    const redoStack: array<Entry>
    var redoTop: nat

    ghost predicate Valid()
      reads this, lines, undoStack, redoStack
    {
      && lines.Length == MAX_LINES && undoStack.Length == UNDO_STACK_MAX && redoStack.Length == UNDO_STACK_MAX
      && undoStack != redoStack
      && 1 <= lineCount <= MAX_LINES && undoTop <= UNDO_STACK_MAX && redoTop <= UNDO_STACK_MAX
      && (forall i :: 0 <= i < MAX_LINES ==> lines[i].Valid())
      && (forall i :: 0 <= i < undoTop ==> EntryOk(undoStack[i]))
    }

    ghost function At(): Cursor
      reads this
    {
      Cursor(curLine, curCol)
    }

    ghost predicate CursorOk()
      requires Valid()
      reads this, lines, undoStack, redoStack
    {
      curLine < lineCount && curCol <= lines[curLine].len
    }

    lemma CursorIsIn()
      requires Valid()
      ensures CursorOk() <==> CursorIn(Doc().text, At())
    {}

    /** A new buffer: one empty line. */
    constructor ()
      ensures Valid() && CursorOk() && Doc() == EMPTY && At() == Cursor(0, 0)
      ensures fresh(lines) && fresh(undoStack) && fresh(redoStack)
    {
      var blank := Line(seq(MAX_LINE_LEN, _ => '\0'), 0);
      lines := new Line[MAX_LINES](_ => blank);
      undoStack := new Entry[UNDO_STACK_MAX](_ => NO_ENTRY);
      redoStack := new Entry[UNDO_STACK_MAX](_ => NO_ENTRY);
      lineCount, curLine, curCol, undoTop, redoTop := 1, 0, 0, 0, 0;
      new;
      assert lines[..lineCount][0].Chars() == "";
    }

    /** The text and the undo history. */
    ghost function Doc(): (d: EditModel.Doc)
      requires Valid()
      reads this, lines, undoStack, redoStack
      ensures ValidDoc(d) && |d.text| == lineCount
    {
      var t := TextOf(lines[..lineCount]);
      assert forall i :: 0 <= i < |t| ==> t[i] == lines[..lineCount][i].Chars();
      EditModel.Doc(t, undoStack[..undoTop])
    }

    /** Pushes an entry, dropping the older half of a full stack, and clears the redo stack. */
    method UndoPush(e: Entry)
      requires Valid() && EntryOk(e)
      modifies undoStack, this`undoTop, this`redoTop
      ensures Valid() && Doc().undo == Push(old(Doc().undo), e) && redoTop == 0
    {
      ghost var before := undoStack[..undoTop];
      if undoTop >= UNDO_STACK_MAX {
        DropOlderHalf();
      }
      ghost var kept := undoStack[..undoTop];
      undoStack[undoTop] := e;
      undoTop := undoTop + 1;
      assert undoStack[..undoTop] == kept + [e];
      redoTop := 0;
    }

    method DropOlderHalf()
      requires Valid() && undoTop == UNDO_STACK_MAX
      modifies undoStack, this`undoTop
      ensures Valid() && undoTop == UNDO_STACK_MAX / 2
      ensures undoStack[..undoTop] == old(undoStack[UNDO_STACK_MAX / 2..])
    {
      ghost var newer := undoStack[UNDO_STACK_MAX / 2..];
      var keep := UNDO_STACK_MAX / 2;
      for i := 0 to keep
        modifies undoStack
        invariant undoStack[..i] == newer[..i]
        invariant undoStack[UNDO_STACK_MAX - keep..] == newer
      {
        assert undoStack[UNDO_STACK_MAX - keep + i] == newer[i];
        undoStack[i] := undoStack[UNDO_STACK_MAX - keep + i];
      }
      undoTop := keep;
      assert forall i :: 0 <= i < keep ==> undoStack[i] == undoStack[..undoTop][i] == newer[i];
    }

    method RedoPush(e: Entry)
      requires Valid()
      modifies redoStack, this`redoTop
      ensures Valid() && Doc() == old(Doc())
      ensures redoStack[..redoTop] == if old(redoTop) < UNDO_STACK_MAX then old(redoStack[..redoTop]) + [e]
          else old(redoStack[..redoTop])
    {
      if redoTop >= UNDO_STACK_MAX {
        return;
      }
      redoStack[redoTop] := e;
      redoTop := redoTop + 1;
    }

    /** Typing a character at the cursor: the edit if it has room, otherwise nothing. */
    method InsertChar(ch: char)
      requires Valid() && CursorOk()
      modifies this, lines, undoStack
      ensures Valid() && CursorOk()
      ensures var e := Type(old(curLine), old(curCol), ch);
              if Effective(old(Doc().text), e)
              then Doc() == Apply(old(Doc()), e) && At() == Cursor(old(curLine), old(curCol) + 1)
              else Doc() == old(Doc()) && At() == old(At())
    {
      var ln := lines[curLine];
      assert ln == lines[..lineCount][curLine];
      if ln.len >= MAX_LINE_LEN - 1 {
        return;
      }
      ghost var before := lines[..lineCount];
      ln := InsertInLine(ln, curCol, ch);
      SetLine(curLine, ln);
      UndoPush(Entry(Kind.InsertChar, curLine, curCol, ch, ""));
      curCol := curCol + 1;
    }

    /** Overwrites one line. */
    method SetLine(line: nat, ln: Line)
      requires Valid() && line < lineCount && ln.Valid()
      modifies lines
      ensures Valid() && lines[line] == ln
      ensures Doc() == old(Doc()).(text := old(Doc().text)[line := ln.Chars()])
    {
      ghost var before := lines[..lineCount];
      lines[line] := ln;
      assert lines[..lineCount] == before[line := ln];
      assert TextOf(lines[..lineCount]) == TextOf(before)[line := ln.Chars()];
    }

    /** Moves the lines from at on down by one; the line at stays as it was. */
    method ShiftDown(at: nat)
      requires Valid() && at <= lineCount < MAX_LINES
      modifies lines
      ensures forall i :: 0 <= i < MAX_LINES ==> lines[i].Valid()
      ensures forall k :: 0 <= k <= at ==> lines[k] == old(lines[k])
      ensures forall k :: at < k <= lineCount ==> lines[k] == old(lines[k - 1])
    {
      ghost var before := lines[..];
      var i := lineCount;
      while i > at
        invariant at <= i <= lineCount
        invariant forall k :: 0 <= k <= i ==> lines[k] == before[k]
        invariant forall k :: i < k <= lineCount ==> lines[k] == before[k - 1]
        invariant forall k :: lineCount < k < MAX_LINES ==> lines[k] == before[k]
      {
        lines[i] := lines[i - 1];
        i := i - 1;
      }
    }

    /** Moves the lines after a line up by one. */
    method MoveUp(line: nat)
      requires Valid() && line < lineCount
      modifies lines
      ensures forall i :: 0 <= i < MAX_LINES ==> lines[i].Valid()
      ensures forall k :: 0 <= k < line ==> lines[k] == old(lines[k])
      ensures forall k :: line <= k < lineCount - 1 ==> lines[k] == old(lines[k + 1])
    {
      ghost var all := lines[..];
      var i := line;
      while i < lineCount - 1
        invariant line <= i <= lineCount - 1
        invariant forall k :: 0 <= k < line ==> lines[k] == all[k]
        invariant forall k :: line < k <= i ==> lines[k - 1] == all[k]
        invariant forall k :: i <= k < MAX_LINES ==> lines[k] == all[k]
      {
        lines[i] := lines[i + 1];
        i := i + 1;
      }
      forall k | line <= k < lineCount - 1
        ensures lines[k] == all[k + 1]
      {
        assert lines[k + 1 - 1] == all[k + 1];
      }
      forall k | 0 <= k < MAX_LINES
        ensures lines[k].Valid()
      {
        assert lines[k] == all[k] || (line <= k < lineCount - 1 && lines[k] == all[k + 1]);
      }
    }

    /** Removes a line by moving those after it up. */
    method ShiftUp(line: nat)
      requires Valid() && line < lineCount && lineCount > 1
      modifies this`lineCount, lines
      ensures Valid() && lineCount == old(lineCount) - 1
      ensures Doc() == old(Doc()).(text := RemoveLine(old(Doc().text), line))
    {
      hide RemoveLine;
      ghost var before := lines[..lineCount];
      MoveUp(line);
      lineCount := lineCount - 1;
      RemovedLine(before, lines[..lineCount], line);
    }

    lemma RemovedLine(before: seq<Line>, after: seq<Line>, line: nat)
      requires AllValid(before) && line < |before| == |after| + 1
      requires forall k :: 0 <= k < line ==> after[k] == before[k]
      requires forall k :: line <= k < |after| ==> after[k] == before[k + 1]
      ensures AllValid(after) && TextOf(after) == RemoveLine(TextOf(before), line)
    {}

    /** Breaks the line at the cursor, if there is room for another line. */
    method InsertNewline()
      requires Valid() && CursorOk()
      modifies this, lines, undoStack
      ensures Valid() && CursorOk()
      ensures var e := Break(old(curLine), old(curCol));
              if Effective(old(Doc().text), e) then Doc() == Apply(old(Doc()), e) && At() == Cursor(old(curLine) + 1, 0)
              else Doc() == old(Doc()) && At() == old(At())
    {
      if lineCount < MAX_LINES {
        BreakHere();
      }
    }

    method BreakHere()
      requires Valid() && CursorOk() && lineCount < MAX_LINES
      modifies this, lines, undoStack
      ensures Valid() && curLine == old(curLine) + 1 < lineCount && curCol == 0
      ensures Effective(old(Doc().text), Break(old(curLine), old(curCol)))
      ensures Doc() == Apply(old(Doc()), Break(old(curLine), old(curCol)))
    {
      hide Push, EditText, TextOf, UndoText, ValidText;
      var cur := lines[curLine];
      assert cur == lines[..lineCount][curLine] && cur.Chars() == Doc().text[curLine];
      UndoPush(Entry(Kind.InsertLine, curLine, curCol, '\n', cur.Chars()));
      BreakLine();
      curLine := curLine + 1;
      curCol := 0;
    }

    method BreakLine()
      requires Valid() && CursorOk() && lineCount < MAX_LINES
      modifies lines, this`lineCount
      ensures Valid() && lineCount == old(lineCount) + 1
      ensures Effective(old(Doc().text), Break(curLine, curCol))
      ensures Doc() == old(Doc()).(text := EditText(old(Doc().text), Break(curLine, curCol)))
    {
      ghost var before := lines[..lineCount];
      var cur := lines[curLine];
      assert cur == before[curLine];
      var tail := cur.data[curCol..cur.len];
      assert tail == cur.Chars()[curCol..];
      ShiftDown(curLine + 1);
      lines[curLine + 1] := WithText(lines[curLine + 1], tail);
      lines[curLine] := Line(cur.data[curCol := '\0'], curCol);
      lineCount := lineCount + 1;
      BrokenLines(before, lines[..lineCount], curLine, curCol);
    }

    lemma BrokenLines(before: seq<Line>, after: seq<Line>, line: nat, col: nat)
      requires AllValid(before) && line < |before| && col <= before[line].len && |after| == |before| + 1
      requires forall k :: 0 <= k < line ==> after[k] == before[k]
      requires forall k :: line + 1 < k < |after| ==> after[k] == before[k - 1]
      requires after[line] == Line(before[line].data[col := '\0'], col)
      requires after[line + 1].Valid() && after[line + 1].Chars() == before[line].Chars()[col..]
      ensures AllValid(after)
      ensures TextOf(after)
              == InsertLineAt(TextOf(before)[line := TextOf(before)[line][..col]], line + 1,
                  TextOf(before)[line][col..])
    {
      assert after[line].Valid();
      forall i | 0 <= i < |after|
        ensures after[i].Valid()
        ensures after[i].Chars()
                == InsertLineAt(TextOf(before)[line := TextOf(before)[line][..col]], line + 1,
                    TextOf(before)[line][col..])[i]
      {
      }
    }

    /** Deletes the character at a column of the cursor's line. */
    method DeleteInLine(col: nat)
      requires Valid() && CursorOk() && col < lines[curLine].len
      modifies lines, undoStack, this`undoTop, this`redoTop
      ensures Valid() && lines[curLine].len == old(lines[curLine].len) - 1
      ensures Effective(old(Doc().text), Delete(curLine, col)) && Doc() == Apply(old(Doc()), Delete(curLine, col))
    {
      var ln := lines[curLine];
      assert ln == lines[..lineCount][curLine];
      var deleted := ln.data[col];
      UndoPush(Entry(Kind.DeleteChar, curLine, col, deleted, ""));
      ln := RemoveFromLine(ln, col);
      SetLine(curLine, ln);
    }

    lemma LineAt(line: nat)
      requires Valid() && line < lineCount
      ensures Doc().text[line] == lines[line].Chars()
    {
      assert lines[line] == lines[..lineCount][line];
    }

    /** Joins a line to the one before it; if the result is too long the line's text is dropped. */
    method MergeLines(line: nat)
      requires Valid() && 0 < line < lineCount
      modifies this`lineCount, lines, undoStack, this`undoTop, this`redoTop
      ensures Valid() && lineCount == old(lineCount) - 1
      ensures lines[line - 1].len >= old(lines[line - 1].len)
      ensures Effective(old(Doc().text), Merge(line)) && Doc() == Apply(old(Doc()), Merge(line))
    {
      hide Push, TextOf, ValidText, RemoveLine;
      var prev, cur := lines[line - 1], lines[line];
      LineAt(line - 1);
      LineAt(line);
      UndoPush(Entry(Kind.DeleteLine, line, 0, '\n', prev.Chars()));
      ghost var t := Doc().text;
      var joined := prev;
      if prev.len + cur.len < MAX_LINE_LEN {
        joined := WithText(prev, prev.Chars() + cur.Chars());
      }
      ReplaceTwo(line, joined);
    }

    /** Puts a line in the place of two. */
    method ReplaceTwo(line: nat, joined: Line)
      requires Valid() && 0 < line < lineCount && joined.Valid()
      modifies this`lineCount, lines
      ensures Valid() && lineCount == old(lineCount) - 1 && lines[line - 1].len == joined.len
      ensures Doc().undo == old(Doc()).undo
      ensures Doc().text == RemoveLine(old(Doc().text)[line - 1 := joined.Chars()], line)
    {
      hide TextOf, ValidText;
      ghost var t := Doc().text;
      SetLine(line - 1, joined);
      ShiftUp(line);
      assert Doc().text[line - 1] == t[line - 1 := joined.Chars()][line - 1];
      LineAt(line - 1);
    }

    /** Backspace: deletes the character before the cursor, or joins the line to the previous one. */
    method DeleteCharBackward()
      requires Valid() && CursorOk()
      modifies this, lines, undoStack
      ensures Valid() && CursorOk()
      ensures old(curCol) > 0 ==>
                var e := Delete(old(curLine), old(curCol) - 1);
                && Effective(old(Doc().text), e) && Doc() == Apply(old(Doc()), e)
                && curLine == old(curLine) && curCol == old(curCol) - 1
      ensures old(curCol) == 0 && old(curLine) > 0 ==>
                && Effective(old(Doc().text), Merge(old(curLine)))
                && Doc() == Apply(old(Doc()), Merge(old(curLine)))
                && curLine == old(curLine) - 1 && curCol == |old(Doc().text)[curLine]|
      ensures old(curCol) == 0 && old(curLine) == 0 ==> Doc() == old(Doc()) && At() == old(At())
    {
      hide EditText, EntryFor, Push, TextOf;
      assert forall i :: 0 <= i < lineCount ==> lines[..lineCount][i] == lines[i] && Doc().text[i] == lines[i].Chars();
      if curCol > 0 {
        DeleteInLine(curCol - 1);
        curCol := curCol - 1;
      } else if curLine > 0 {
        var prevLen := lines[curLine - 1].len;
        assert lines[..lineCount][curLine - 1] == lines[curLine - 1];
        MergeLines(curLine);
        curLine := curLine - 1;
        curCol := prevLen;
      }
    }

    /** Delete: deletes the character at the cursor, or joins the next line to this one. */
    method DeleteCharForward()
      requires Valid() && CursorOk()
      modifies this, lines, undoStack
      ensures Valid() && CursorOk() && curLine == old(curLine) && curCol == old(curCol)
      ensures var t := old(Doc().text);
              if curCol < |t[curLine]| then
                Effective(t, Delete(curLine, curCol)) && Doc() == Apply(old(Doc()), Delete(curLine, curCol))
              else if curLine + 1 < |t| then
                Effective(t, Merge(curLine + 1)) && Doc() == Apply(old(Doc()), Merge(curLine + 1))
              else Doc() == old(Doc())
    {
      assert lines[curLine] == lines[..lineCount][curLine];
      if curCol < lines[curLine].len {
        DeleteInLine(curCol);
      } else if curLine < lineCount - 1 {
        MergeLines(curLine + 1);
      }
    }

    /** What the storage holds after the text. */
    ghost function Spare(): (s: string)
      requires Valid()
      reads this, lines, undoStack, redoStack
      ensures |s| < MAX_LINE_LEN
    {
      if lineCount < MAX_LINES then lines[lineCount].Chars() else ""
    }

    /** Takes back the newest edit on the stack and remembers it for redo. The entry need not fit the text. */
    method Undo()
      requires Valid()
      modifies this, lines, redoStack
      ensures Valid() && undoTop == if old(undoTop) == 0 then 0 else old(undoTop) - 1
      ensures old(NewestApplies(Doc())) ==> Doc() == EditModel.Undo(old(Doc()))
      ensures old(NewestApplies(Doc()) && (undoTop > 0 || CursorOk())) ==> CursorOk()
      ensures old(undoTop) == 0 ==> At() == old(At())
      ensures old(undoTop) > 0 && old(NewestApplies(Doc())) ==> At() == CursorAfterUndo(old(undoStack[undoTop - 1]))
      ensures old(!NewestApplies(Doc())) ==>
        && Doc().undo == old(Doc().undo[..undoTop - 1])
        && Doc().text == old(UndoMisfit(Doc().text, undoStack[undoTop - 1], Spare()))
    {
      hide UndoText, UndoMisfit, TextOf, Applies;
      if undoTop == 0 {
        return;
      }
      ghost var d := Doc();
      undoTop := undoTop - 1;
      var e := undoStack[undoTop];
      assert undoStack[..undoTop] == d.undo[..|d.undo| - 1] && e == d.undo[|d.undo| - 1];
      RedoPush(e);
      assert Doc() == EditModel.Doc(d.text, d.undo[..|d.undo| - 1]);
      curLine, curCol := e.line, e.col;
      match e.kind {
        case InsertChar => UndoInsertChar(e);
        case DeleteChar => UndoDeleteChar(e);
        case InsertLine => UndoInsertLine(e);
        case DeleteLine => UndoDeleteLine(e);
      }
      if Applies(d.text, e) {
        UndoCursorIn(d.text, e);
        CursorIsIn();
      }
    }

    /** The text after taking an entry back, whether it fits or not. */
    ghost function Undone(e: Entry): Text
      requires Valid() && EntryOk(e)
      reads this, lines, undoStack, redoStack
    {
      var t := Doc().text;
      if Applies(t, e) then UndoText(t, e) else UndoMisfit(t, e, Spare())
    }

    method UndoInsertChar(e: Entry)
      requires Valid() && EntryOk(e) && e.kind == Kind.InsertChar
      modifies lines
      ensures Valid() && Doc() == old(Doc()).(text := old(Undone(e)))
    {
      var ln := lines[e.line];
      assert e.line < lineCount ==> ln == lines[..lineCount][e.line];
      if e.col < ln.len {
        ln := RemoveFromLine(ln, e.col);
        StoreLine(e.line, ln);
      }
    }

    method UndoDeleteChar(e: Entry)
      requires Valid() && EntryOk(e) && e.kind == Kind.DeleteChar && At() == Cursor(e.line, e.col)
      modifies lines, this`curCol
      ensures Valid() && Doc() == old(Doc()).(text := old(Undone(e)))
      ensures old(Applies(Doc().text, e)) ==> curCol == e.col + 1
    {
      var ln := lines[e.line];
      assert e.line < lineCount ==> ln == lines[..lineCount][e.line];
      if ln.len < MAX_LINE_LEN - 1 {
        if e.col <= ln.len {
          ln := InsertInLine(ln, e.col, e.ch);
        } else {
          ln := InsertBeyond(ln, e.col, e.ch);
        }
        StoreLine(e.line, ln);
        curCol := e.col + 1;
      }
    }

    /** Overwrites a line of the storage, which may lie after the text. */
    method StoreLine(line: nat, ln: Line)
      requires Valid() && line < MAX_LINES && ln.Valid()
      modifies lines
      ensures Valid()
      ensures Doc() == if line < lineCount then old(Doc()).(text := old(Doc().text)[line := ln.Chars()]) else old(Doc())
    {
      if line < lineCount {
        SetLine(line, ln);
      } else {
        lines[line] := ln;
        assert lines[..lineCount] == old(lines[..lineCount]);
      }
    }

    method UndoInsertLine(e: Entry)
      requires Valid() && EntryOk(e) && e.kind == Kind.InsertLine
      modifies lines, this`lineCount
      ensures Valid() && Doc() == old(Doc()).(text := old(Undone(e)))
    {
      if e.line + 1 < lineCount {
        SetLine(e.line, WithText(lines[e.line], e.saved));
        ShiftUp(e.line + 1);
      }
    }

    method UndoDeleteLine(e: Entry)
      requires Valid() && EntryOk(e) && e.kind == Kind.DeleteLine
      modifies lines, this`lineCount, this`curCol
      ensures Valid() && Doc() == old(Doc()).(text := old(Undone(e))) && curCol == 0
    {
      if lineCount < MAX_LINES {
        if e.line <= lineCount {
          SetLine(e.line - 1, WithText(lines[e.line - 1], e.saved));
          InsertBlank(e.line);
        } else {
          UncoverLine(e);
        }
      }
      curCol := 0;
    }

    /** A line to be inserted after the end of the text: the text grows by what the storage holds there. */
    method UncoverLine(e: Entry)
      requires Valid() && EntryOk(e) && e.kind == Kind.DeleteLine && lineCount < MAX_LINES && e.line > lineCount
      modifies lines, this`lineCount
      ensures Valid() && Doc() == old(Doc()).(text := old(Undone(e)))
    {
      ghost var before := lines[..lineCount];
      ghost var spare := lines[lineCount];
      lines[e.line - 1] := WithText(lines[e.line - 1], e.saved);
      lines[e.line] := WithText(lines[e.line], "");
      lineCount := lineCount + 1;
      assert lines[..lineCount] == before + [lines[lineCount - 1]];
      assert TextOf(lines[..lineCount]) == TextOf(before) + [lines[lineCount - 1].Chars()];
    }

    method InsertBlank(line: nat)
      requires Valid() && line <= lineCount < MAX_LINES
      modifies lines, this`lineCount
      ensures Valid() && lineCount == old(lineCount) + 1
      ensures Doc() == old(Doc()).(text := InsertLineAt(old(Doc().text), line, ""))
    {
      ghost var before := lines[..lineCount];
      ShiftDown(line);
      lines[line] := WithText(lines[line], "");
      lineCount := lineCount + 1;
      BlankLine(before, lines[..lineCount], line);
    }

    lemma BlankLine(before: seq<Line>, after: seq<Line>, line: nat)
      requires AllValid(before) && line <= |before| && |after| == |before| + 1
      requires forall k :: 0 <= k < line ==> after[k] == before[k]
      requires forall k :: line < k < |after| ==> after[k] == before[k - 1]
      requires after[line].Valid() && after[line].Chars() == ""
      ensures AllValid(after) && TextOf(after) == InsertLineAt(TextOf(before), line, "")
    {
      forall i | 0 <= i < |after|
        ensures after[i].Valid() && after[i].Chars() == InsertLineAt(TextOf(before), line, "")[i]
      {
      }
    }

    // -------------------------------------------------------------- runs of keys

    /** One key at the cursor: the edit it stands for, which is what it does to the lines joined. */
    method Press(k: Key) returns (effective: bool)
      requires Valid() && CursorOk() && CursorIn(Doc().text, At())
      modifies this, lines, undoStack
      ensures Valid() && CursorOk()
      ensures var e := EditOf(old(Doc().text), old(At()), k);
              effective == e.Some? && Doc() == if effective then Apply(old(Doc()), e.value) else old(Doc())
      ensures At() == CursorAfter(old(Doc().text), old(At()), k)
      ensures CursorIn(Doc().text, At()) && KeyActs(old(Doc().text), old(At()), k, Doc().text, At())
    {
      hide EditText, EntryFor, TextOf, KeyActs;
      ghost var t, c := Doc().text, At();
      KeyOnFlat(t, c, k);
      effective := Dispatch(k);
    }

    /** The operation a key calls. */
    method Dispatch(k: Key) returns (effective: bool)
      requires Valid() && CursorOk() && CursorIn(Doc().text, At())
      modifies this, lines, undoStack
      ensures Valid() && CursorOk()
      ensures var e := EditOf(old(Doc().text), old(At()), k);
              effective == e.Some? && Doc() == if effective then Apply(old(Doc()), e.value) else old(Doc())
      ensures At() == CursorAfter(old(Doc().text), old(At()), k)
    {
      hide EditText, EntryFor, TextOf;
      assert Doc().text[curLine] == lines[..lineCount][curLine].Chars();
      effective := (k.Char? && lines[curLine].len < MAX_LINE_LEN - 1) || (k.Enter? && lineCount < MAX_LINES)
        || (k.Backspace? && (curCol > 0 || curLine > 0))
        || (k.DeleteKey? && (curCol < lines[curLine].len || curLine + 1 < lineCount));
      match k
      case Move(dest) =>
        if dest.line < lineCount && dest.col <= lines[dest.line].len {
          assert Doc().text[dest.line] == lines[..lineCount][dest.line].Chars();
          curLine, curCol := dest.line, dest.col;
        } else {
          assert dest.line < lineCount ==> Doc().text[dest.line] == lines[..lineCount][dest.line].Chars();
        }
      case Char(ch) => InsertChar(ch);
      case Enter => InsertNewline();
      case Backspace => DeleteCharBackward();
      case DeleteKey => DeleteCharForward();
    }

    /** Some keys that never join lines. */
    method PressAll(keys: seq<Key>) returns (edits: nat)
      requires Valid() && CursorOk() && CursorIn(Doc().text, At())
      requires forall e :: e in EditsOf(Doc(), At(), keys) ==> !e.Merge?
      modifies this, lines, undoStack
      ensures Valid() && CursorOk()
      ensures EffectiveRun(old(Doc()), old(EditsOf(Doc(), At(), keys)))
      ensures Doc() == Run(old(Doc()), old(EditsOf(Doc(), At(), keys))) && edits == |old(EditsOf(Doc(), At(), keys))|
      decreases |keys|
    {
      hide EditText, EntryFor, TextOf, Effective;
      edits := 0;
      if keys != [] {
        ghost var d, c := Doc(), At();
        ghost var edit, rest := EditOf(d.text, c, keys[0]), EditsOf(d, c, keys);
        var effective := Press(keys[0]);
        CursorIsIn();
        assert edit.Some? ==> rest[0] == edit.value && rest[1..] == EditsOf(Doc(), At(), keys[1..]);
        edits := PressAll(keys[1..]);
        edits := edits + if effective then 1 else 0;
      }
    }

    /** Undo pressed n times. */
    method UndoAll(n: nat)
      requires Valid() && CursorOk() && CanUndo(Doc(), n)
      modifies this, lines, redoStack
      ensures Valid() && CursorOk() && Doc() == UndoTimes(old(Doc()), n)
    {
      hide TextOf, EditModel.Undo, NewestApplies;
      for i := 0 to n
        invariant Valid() && CursorOk() && CanUndo(Doc(), n - i)
        invariant UndoTimes(Doc(), n - i) == UndoTimes(old(Doc()), n)
      {
        Undo();
      }
    }

    /** Any keys that make at most 33 edits and never join lines, with the cursor moved at will: as many undos
        restore every line. */
    method EditThenUndo(keys: seq<Key>) returns (edits: nat)
      requires Valid() && CursorOk() && CursorIn(Doc().text, At())
      requires forall e :: e in EditsOf(Doc(), At(), keys) ==> !e.Merge?
      requires |EditsOf(Doc(), At(), keys)| <= 33
      modifies this, lines, undoStack, redoStack
      ensures Valid() && CursorOk() && Doc().text == old(Doc().text)
      ensures edits == |old(EditsOf(Doc(), At(), keys))|
    {
      ghost var d, run := Doc(), EditsOf(Doc(), At(), keys);
      edits := PressAll(keys);
      UndoRestoresText(d, run);
      UndoAll(edits);
    }
  }
}
