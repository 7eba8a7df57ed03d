/** The editor's text and undo history as values, and what undoing restores. */
module EditModel {
  import opened Options

  const MAX_LINES: nat := 2048
  const MAX_LINE_LEN: nat := 256
  const UNDO_STACK_MAX: nat := 64

  type Text = seq<string>

  predicate ValidText(t: Text) {
    1 <= |t| <= MAX_LINES && forall i :: 0 <= i < |t| ==> |t[i]| < MAX_LINE_LEN
  }

  datatype Kind = InsertChar | DeleteChar | InsertLine | DeleteLine

  datatype Entry = Entry(kind: Kind, line: nat, col: nat, ch: char, saved: string)

  datatype Doc = Doc(text: Text, undo: seq<Entry>)

  predicate ValidDoc(d: Doc) {
    ValidText(d.text) && |d.undo| <= UNDO_STACK_MAX
  }

  // ---------------------------------------------------------------- lines

  function InsertAt(s: string, col: nat, ch: char): (r: string)
    requires col <= |s|
    ensures |r| == |s| + 1
  {
    s[..col] + [ch] + s[col..]
  }

  function RemoveAt(s: string, col: nat): (r: string)
    requires col < |s|
    ensures |r| == |s| - 1
  {
    s[..col] + s[col + 1..]
  }

  function RemoveLine(t: Text, line: nat): (r: Text)
    requires line < |t|
    ensures |r| == |t| - 1
  {
    t[..line] + t[line + 1..]
  }

  function InsertLineAt(t: Text, line: nat, s: string): (r: Text)
    requires line <= |t|
    ensures |r| == |t| + 1
  {
    t[..line] + [s] + t[line..]
  }

  // ---------------------------------------------------------------- the undo stack

  /** A full stack drops its older half before it takes another entry. */
  function Push(undo: seq<Entry>, e: Entry): (r: seq<Entry>)
    requires |undo| <= UNDO_STACK_MAX
    ensures 0 < |r| <= UNDO_STACK_MAX
  {
    (if |undo| == UNDO_STACK_MAX then undo[UNDO_STACK_MAX / 2..] else undo) + [e]
  }

  // ---------------------------------------------------------------- edits

  /** An edit at a cursor position; Merge is the deletion of the line break before a line. */
  datatype Edit =
    | Type(line: nat, col: nat, ch: char)
    | Break(line: nat, col: nat)
    | Delete(line: nat, col: nat)
    | Merge(line: nat)

  /** The cursor is in the text and the edit has an effect. */
  predicate Effective(t: Text, e: Edit) {
    match e
    case Type(line, col, _) => line < |t| && col <= |t[line]| < MAX_LINE_LEN - 1
    case Break(line, col) => line < |t| < MAX_LINES && col <= |t[line]|
    case Delete(line, col) => line < |t| && col < |t[line]|
    case Merge(line) => 0 < line < |t|
  }

  function EntryFor(t: Text, e: Edit): Entry
    requires Effective(t, e)
  {
    match e
    case Type(line, col, ch) => Entry(InsertChar, line, col, ch, "")
    case Break(line, col) => Entry(InsertLine, line, col, '\n', t[line])
    case Delete(line, col) => Entry(DeleteChar, line, col, t[line][col], "")
    case Merge(line) => Entry(DeleteLine, line, 0, '\n', t[line - 1])
  }

  function EditText(t: Text, e: Edit): (r: Text)
    requires ValidText(t) && Effective(t, e)
    ensures ValidText(r)
  {
    match e
    case Type(line, col, ch) => t[line := InsertAt(t[line], col, ch)]
    case Break(line, col) => InsertLineAt(t[line := t[line][..col]], line + 1, t[line][col..])
    case Delete(line, col) => t[line := RemoveAt(t[line], col)]
    case Merge(line) =>
      var joined := if |t[line - 1]| + |t[line]| < MAX_LINE_LEN then t[line - 1] + t[line] else t[line - 1];
      RemoveLine(t[line - 1 := joined], line)
  }

  function Apply(d: Doc, e: Edit): (r: Doc)
    requires ValidDoc(d) && Effective(d.text, e)
    ensures ValidDoc(r)
  {
    Doc(EditText(d.text, e), Push(d.undo, EntryFor(d.text, e)))
  }

  // ---------------------------------------------------------------- undo

  /** The entry fits the text, so that taking it back does what it was recorded for. */
  predicate Applies(t: Text, e: Entry) {
    && |e.saved| < MAX_LINE_LEN
    && match e.kind
       case InsertChar => e.line < |t| && e.col < |t[e.line]|
       case DeleteChar => e.line < |t| && e.col <= |t[e.line]| < MAX_LINE_LEN - 1
       case InsertLine => e.line + 1 < |t| && e.col <= |e.saved|
       case DeleteLine => 0 < e.line <= |t| < MAX_LINES
  }

  function UndoText(t: Text, e: Entry): (r: Text)
    requires ValidText(t) && Applies(t, e)
    ensures ValidText(r)
  {
    match e.kind
    case InsertChar => t[e.line := RemoveAt(t[e.line], e.col)]
    case DeleteChar => t[e.line := InsertAt(t[e.line], e.col, e.ch)]
    case InsertLine => RemoveLine(t[e.line := e.saved], e.line + 1)
    case DeleteLine => InsertLineAt(t[e.line - 1 := e.saved], e.line, "")
  }

  /** What taking back an entry that does not fit does; spare is what the storage holds after the text. */
  function UndoMisfit(t: Text, e: Entry, spare: string): (r: Text)
    requires ValidText(t) && !Applies(t, e) && |e.saved| < MAX_LINE_LEN && |spare| < MAX_LINE_LEN
    ensures ValidText(r)
  {
    match e.kind
    case InsertChar => t
    case DeleteChar =>
      if e.line < |t| && |t[e.line]| < MAX_LINE_LEN - 1 then t[e.line := t[e.line] + "\0"] else t
    case InsertLine => if e.line + 1 < |t| then RemoveLine(t[e.line := e.saved], e.line + 1) else t
    case DeleteLine => if |t| < MAX_LINES then t + [if e.line == |t| + 1 then e.saved else spare] else t
  }

  /** The newest entry, if there is one, fits the text. */
  predicate NewestApplies(d: Doc) {
    d.undo != [] ==> Applies(d.text, d.undo[|d.undo| - 1])
  }

  /** One press of undo. */
  function Undo(d: Doc): (r: Doc)
    requires ValidDoc(d) && NewestApplies(d)
    ensures ValidDoc(r)
  {
    if d.undo == [] then d
    else Doc(UndoText(d.text, d.undo[|d.undo| - 1]), d.undo[..|d.undo| - 1])
  }

  /** The next n presses of undo each meet an entry that fits, or none. */
  predicate CanUndo(d: Doc, n: nat)
    requires ValidDoc(d)
    decreases n
  {
    n == 0 || (NewestApplies(d) && CanUndo(Undo(d), n - 1))
  }

  function UndoTimes(d: Doc, n: nat): (r: Doc)
    requires ValidDoc(d) && CanUndo(d, n)
    ensures ValidDoc(r)
    decreases n
  {
    if n == 0 then d else UndoTimes(Undo(d), n - 1)
  }

  /** Typing, breaking a line and deleting in a line are undone by their entry. */
  lemma UndoInverts(t: Text, e: Edit)
    requires ValidText(t) && Effective(t, e) && !e.Merge?
    ensures Applies(EditText(t, e), EntryFor(t, e)) && UndoText(EditText(t, e), EntryFor(t, e)) == t
  {
    var u := EditText(t, e);
    match e
    case Type(line, col, ch) =>
      assert RemoveAt(u[line], col) == t[line];
      assert u[line := t[line]] == t;
    case Break(line, col) =>
      assert RemoveLine(u[line := t[line]], line + 1) == t;
    case Delete(line, col) =>
      assert InsertAt(u[line], col, t[line][col]) == t[line];
      assert u[line := t[line]] == t;
  }

  /** Undoing a merge restores the text exactly when the merged line was empty. */
  lemma UndoOfMerge(t: Text, line: nat)
    requires ValidText(t) && Effective(t, Merge(line))
    ensures var u, e := EditText(t, Merge(line)), EntryFor(t, Merge(line));
            && Applies(u, e)
            && UndoText(u, e) == t[line := ""]
            && (UndoText(u, e) == t <==> t[line] == "")
  {
    var u, e := EditText(t, Merge(line)), EntryFor(t, Merge(line));
    assert UndoText(u, e) == t[line := ""];
    if t[line] == "" {
      assert t[line := ""] == t;
    } else {
      assert t[line := ""][line] != t[line];
    }
  }

  // ---------------------------------------------------------------- runs of edits

  /** Edits applied in order; each is effective at its own cursor position, wherever the cursor
      was moved in between. */
  predicate EffectiveRun(d: Doc, edits: seq<Edit>)
    requires ValidDoc(d)
    decreases |edits|
  {
    edits == []
    || (!edits[0].Merge? && Effective(d.text, edits[0]) && EffectiveRun(Apply(d, edits[0]), edits[1..]))
  }

  function Run(d: Doc, edits: seq<Edit>): (r: Doc)
    requires ValidDoc(d) && EffectiveRun(d, edits)
    ensures ValidDoc(r)
    decreases |edits|
  {
    if edits == [] then d else Run(Apply(d, edits[0]), edits[1..])
  }

  /** How many entries the stack holds after k more pushes onto n. */
  function Held(n: nat, k: nat): nat
    requires n <= UNDO_STACK_MAX
    decreases k
  {
    if k == 0 then n else Held(if n == UNDO_STACK_MAX then UNDO_STACK_MAX / 2 + 1 else n + 1, k - 1)
  }

  lemma {:induction false} RunHolds(d: Doc, edits: seq<Edit>)
    requires ValidDoc(d) && EffectiveRun(d, edits)
    ensures |Run(d, edits).undo| == Held(|d.undo|, |edits|) <= UNDO_STACK_MAX
    decreases |edits|
  {
    if edits != [] {
      RunHolds(Apply(d, edits[0]), edits[1..]);
    }
  }

  /** At most 33 pushes are always all held, whatever the stack held before. */
  lemma {:induction false} HeldAtLeast(n: nat, k: nat)
    requires n <= UNDO_STACK_MAX
    ensures Held(n, k) >= if n + k < 33 then n + k else 33
    ensures n + k <= UNDO_STACK_MAX ==> Held(n, k) == n + k
    decreases k
  {
    if k > 0 {
      HeldAtLeast(if n == UNDO_STACK_MAX then UNDO_STACK_MAX / 2 + 1 else n + 1, k - 1);
    }
  }

  predicate IsSuffix(s: seq<Entry>, t: seq<Entry>) {
    |s| <= |t| && s == t[|t| - |s|..]
  }

  lemma {:induction false} UndoTimesLast(d: Doc, n: nat)
    requires ValidDoc(d) && CanUndo(d, n) && NewestApplies(UndoTimes(d, n))
    ensures CanUndo(d, n + 1) && UndoTimes(d, n + 1) == Undo(UndoTimes(d, n))
    decreases n
  {
    hide NewestApplies, Undo;
    if n > 0 {
      UndoTimesLast(Undo(d), n - 1);
    }
  }

  /** While the entries of all edits of a run are held, each undo meets an entry that fits, as many undos restore
      the text, and what is left of the stack is the newer end of what it held before. */
  lemma {:induction false} RunUndone(d: Doc, edits: seq<Edit>)
    requires ValidDoc(d) && EffectiveRun(d, edits) && |edits| <= Held(|d.undo|, |edits|)
    ensures CanUndo(Run(d, edits), |edits|)
    ensures var u := UndoTimes(Run(d, edits), |edits|);
            && u.text == d.text && IsSuffix(u.undo, d.undo)
            && |u.undo| == Held(|d.undo|, |edits|) - |edits|
    decreases |edits|
  {
    hide EditText, EntryFor, Effective, Undo, Apply, IsSuffix, ValidText, NewestApplies;
    if edits == [] {
      SuffixOfSelf(d.undo);
    } else {
      var d1, rest := Apply(d, edits[0]), edits[1..];
      PushCounts(d, edits[0]);
      RunUndone(d1, rest);
      var u := UndoTimes(Run(d1, rest), |rest|);
      UndoLast(u, d, edits[0]);
      UndoTimesLast(Run(d1, rest), |rest|);
    }
  }

  lemma SuffixOfSelf(s: seq<Entry>)
    ensures IsSuffix(s, s)
  {}

  lemma PushCounts(d: Doc, e: Edit)
    requires ValidDoc(d) && Effective(d.text, e)
    ensures |Apply(d, e).undo| == if |d.undo| == UNDO_STACK_MAX then UNDO_STACK_MAX / 2 + 1 else |d.undo| + 1
  {}

  /** Undoing the newest edit. */
  lemma UndoLast(u: Doc, d: Doc, e: Edit)
    requires ValidDoc(u) && ValidDoc(d) && Effective(d.text, e) && !e.Merge?
    requires u.text == Apply(d, e).text && IsSuffix(u.undo, Apply(d, e).undo) && u.undo != []
    ensures NewestApplies(u)
    ensures Undo(u).text == d.text && IsSuffix(Undo(u).undo, d.undo) && |Undo(u).undo| == |u.undo| - 1
  {
    hide EditText, EntryFor, UndoText, Applies;
    UndoInverts(d.text, e);
    assert u.undo[|u.undo| - 1] == EntryFor(d.text, e);
  }

  lemma {:induction false} RunSplit(d: Doc, edits: seq<Edit>, k: nat)
    requires ValidDoc(d) && EffectiveRun(d, edits) && k <= |edits|
    ensures EffectiveRun(d, edits[..k]) && EffectiveRun(Run(d, edits[..k]), edits[k..])
    ensures Run(Run(d, edits[..k]), edits[k..]) == Run(d, edits)
    decreases |edits|
  {
    hide EditText, EntryFor, Effective;
    if k > 0 {
      RunSplit(Apply(d, edits[0]), edits[1..], k - 1);
      assert edits[..k][1..] == edits[1..][..k - 1] && edits[k..] == edits[1..][k - 1..];
    } else {
      assert edits[..0] == [] && edits[0..] == edits;
    }
  }

  lemma {:induction false} UndoNothing(d: Doc, n: nat)
    requires ValidDoc(d) && d.undo == []
    ensures CanUndo(d, n) && UndoTimes(d, n) == d
    decreases n
  {
    if n > 0 {
      UndoNothing(d, n - 1);
    }
  }

  lemma {:induction false} UndoTimesSum(d: Doc, m: nat, n: nat)
    requires ValidDoc(d) && CanUndo(d, m) && CanUndo(UndoTimes(d, m), n)
    ensures CanUndo(d, m + n) && UndoTimes(d, m + n) == UndoTimes(UndoTimes(d, m), n)
    decreases m
  {
    hide Undo, ValidText, NewestApplies;
    if m > 0 {
      UndoTimesSum(Undo(d), m - 1, n);
    }
  }

  lemma {:induction false} HeldSum(n: nat, j: nat, k: nat)
    requires n <= UNDO_STACK_MAX
    ensures Held(n, j) <= UNDO_STACK_MAX && Held(n, j + k) == Held(Held(n, j), k)
    decreases j
  {
    if j > 0 {
      HeldSum(if n == UNDO_STACK_MAX then UNDO_STACK_MAX / 2 + 1 else n + 1, j - 1, k);
    }
  }

  /** How many of k edits a stack of n entries has forgotten afterwards. */
  function Lost(n: nat, k: nat): (r: nat)
    requires n <= UNDO_STACK_MAX
    ensures r <= k
  {
    if k <= Held(n, k) then 0 else k - Held(n, k)
  }

  /** Undoing as often as there were edits takes back exactly those whose entries are still held:
      the text is the one after the edits that the stack has forgotten. */
  lemma UndoRestoresHeld(d: Doc, edits: seq<Edit>)
    requires ValidDoc(d) && EffectiveRun(d, edits)
    ensures var lost := Lost(|d.undo|, |edits|);
            && EffectiveRun(d, edits[..lost]) && CanUndo(Run(d, edits), |edits|)
            && UndoTimes(Run(d, edits), |edits|).text == Run(d, edits[..lost]).text
  {
    hide EffectiveRun, Run, UndoTimes, Held, ValidText, IsSuffix, CanUndo;
    var held := Held(|d.undo|, |edits|);
    if |edits| <= held {
      RunUndone(d, edits);
      NoEdits(d);
      assert edits[..0] == [];
    } else {
      OldestForgotten(d, edits, |edits| - held, held);
    }
  }

  lemma OldestForgotten(d: Doc, edits: seq<Edit>, lost: nat, held: nat)
    requires ValidDoc(d) && EffectiveRun(d, edits)
    requires held == Held(|d.undo|, |edits|) && |edits| == lost + held
    ensures EffectiveRun(d, edits[..lost]) && CanUndo(Run(d, edits), |edits|)
    ensures UndoTimes(Run(d, edits), |edits|).text == Run(d, edits[..lost]).text
  {
    hide EffectiveRun, Run, UndoTimes, Held, ValidText, IsSuffix, CanUndo;
    RunSplit(d, edits, lost);
    var d1 := Run(d, edits[..lost]);
    RunHolds(d, edits[..lost]);
    HeldSum(|d.undo|, lost, held);
    OldestStay(d1, edits[lost..], lost);
  }

  /** Undoing more often than the stack allows leaves the text where the stack ran out. */
  lemma OldestStay(d: Doc, edits: seq<Edit>, extra: nat)
    requires ValidDoc(d) && EffectiveRun(d, edits) && |edits| == Held(|d.undo|, |edits|)
    ensures CanUndo(Run(d, edits), |edits| + extra)
    ensures UndoTimes(Run(d, edits), |edits| + extra).text == d.text
  {
    hide EffectiveRun, Run, Held, ValidText, CanUndo, UndoTimes;
    RunUndone(d, edits);
    var end := Run(d, edits);
    UndoNothing(UndoTimes(end, |edits|), extra);
    UndoTimesSum(end, |edits|, extra);
  }

  lemma NoEdits(d: Doc)
    requires ValidDoc(d)
    ensures EffectiveRun(d, []) && Run(d, []) == d
  {}

  /** In particular up to 33 edits are always taken back, and any number that fits the stack. */
  lemma UndoRestoresText(d: Doc, edits: seq<Edit>)
    requires ValidDoc(d) && EffectiveRun(d, edits)
    requires |edits| <= 33 || |d.undo| + |edits| <= UNDO_STACK_MAX
    ensures CanUndo(Run(d, edits), |edits|)
    ensures UndoTimes(Run(d, edits), |edits|).text == d.text
  {
    HeldAtLeast(|d.undo|, |edits|);
    RunUndone(d, edits);
  }

  // ---------------------------------------------------------------- 33 is the best bound

  function Chars(t: Text): nat {
    if t == [] then 0 else |t[0]| + Chars(t[1..])
  }

  lemma {:induction false} CharsOfUpdate(t: Text, i: nat, s: string)
    requires i < |t|
    ensures Chars(t[i := s]) == Chars(t) - |t[i]| + |s|
  {
    if i == 0 {
      assert t[0 := s][1..] == t[1..];
    } else {
      CharsOfUpdate(t[1..], i - 1, s);
      assert t[i := s][1..] == t[1..][i - 1 := s];
    }
  }

  lemma {:induction false} TypingAddsChars(d: Doc, edits: seq<Edit>)
    requires ValidDoc(d) && EffectiveRun(d, edits) && forall e :: e in edits ==> e.Type?
    ensures Chars(Run(d, edits).text) == Chars(d.text) + |edits|
    decreases |edits|
  {
    if edits != [] {
      var e := edits[0];
      assert e in edits;
      CharsOfUpdate(d.text, e.line, InsertAt(d.text[e.line], e.col, e.ch));
      TypingAddsChars(Apply(d, e), edits[1..]);
    }
  }

  /** A run of typing is taken back if and only if all its entries are held. */
  lemma TypingRestoredIff(d: Doc, edits: seq<Edit>)
    requires ValidDoc(d) && EffectiveRun(d, edits) && forall e :: e in edits ==> e.Type?
    ensures CanUndo(Run(d, edits), |edits|)
    ensures UndoTimes(Run(d, edits), |edits|).text == d.text <==> |edits| <= Held(|d.undo|, |edits|)
  {
    hide EditText, EntryFor, Effective, EffectiveRun, UndoText, CanUndo, UndoTimes;
    UndoRestoresHeld(d, edits);
    var held := Held(|d.undo|, |edits|);
    if |edits| > held {
      RunSplit(d, edits, |edits| - held);
      TypingAddsChars(d, edits[..|edits| - held]);
    } else {
      RunUndone(d, edits);
    }
  }

  /** How many entries are held, in closed form. */
  lemma {:induction false} HeldIs(n: nat, k: nat)
    requires n <= UNDO_STACK_MAX
    ensures Held(n, k) == if n + k <= UNDO_STACK_MAX then n + k else 33 + (n + k - 65) % 32
    decreases k
  {
    if k > 0 {
      HeldIs(if n == UNDO_STACK_MAX then UNDO_STACK_MAX / 2 + 1 else n + 1, k - 1);
    }
  }

  const EMPTY: Doc := Doc([""], [])

  /** The same letter typed n times at the start of the first line. */
  function Letters(n: nat): (r: seq<Edit>)
    ensures |r| == n && forall e :: e in r ==> e.Type?
  {
    seq(n, _ => Type(0, 0, 'x'))
  }

  lemma {:induction false} LettersFit(d: Doc, n: nat)
    requires ValidDoc(d) && |d.text[0]| + n < MAX_LINE_LEN
    ensures EffectiveRun(d, Letters(n)) && |Run(d, Letters(n)).text[0]| == |d.text[0]| + n
    decreases n
  {
    if n > 0 {
      var e := Type(0, 0, 'x');
      assert Letters(n)[0] == e && Letters(n)[1..] == Letters(n - 1);
      LettersFit(Apply(d, e), n - 1);
    }
  }

  /** The bound of 33 is the best: after 31 letters in an empty buffer, 34 more are not all taken back by 34
      undos. */
  lemma ThirtyFourNotRestored()
    ensures EffectiveRun(EMPTY, Letters(31))
    ensures var d := Run(EMPTY, Letters(31));
            && EffectiveRun(d, Letters(34)) && CanUndo(Run(d, Letters(34)), 34)
            && UndoTimes(Run(d, Letters(34)), 34).text != d.text
  {
    hide EffectiveRun, Run, CanUndo, UndoTimes, Held;
    LettersFit(EMPTY, 31);
    var d := Run(EMPTY, Letters(31));
    LettersFit(d, 34);
    RunHolds(EMPTY, Letters(31));
    HeldIs(0, 31);
    HeldIs(31, 34);
    TypingRestoredIff(d, Letters(34));
  }

  // ---------------------------------------------------------------- keys

  datatype Cursor = Cursor(line: nat, col: nat)

  predicate CursorIn(t: Text, c: Cursor) {
    c.line < |t| && c.col <= |t[c.line]|
  }

  /** The keys that move the cursor or edit the text. */
  datatype Key = Move(dest: Cursor) | Char(ch: char) | Enter | Backspace | DeleteKey

  /** The edit a key makes at the cursor, if it has any effect. */
  function EditOf(t: Text, c: Cursor, k: Key): (r: Option<Edit>)
    requires CursorIn(t, c)
    ensures r.Some? ==> Effective(t, r.value)
  {
    match k
    case Move(_) => None
    case Char(ch) => if |t[c.line]| < MAX_LINE_LEN - 1 then Some(Type(c.line, c.col, ch)) else None
    case Enter => if |t| < MAX_LINES then Some(Break(c.line, c.col)) else None
    case Backspace =>
      if c.col > 0 then Some(Delete(c.line, c.col - 1)) else if c.line > 0 then Some(Merge(c.line)) else None
    case DeleteKey =>
      if c.col < |t[c.line]| then Some(Delete(c.line, c.col))
      else if c.line + 1 < |t| then Some(Merge(c.line + 1)) else None
  }

  /** Where a key leaves the cursor; it is not moved out of the text. */
  function CursorAfter(t: Text, c: Cursor, k: Key): Cursor
    requires CursorIn(t, c)
  {
    match k
    case Move(dest) => if CursorIn(t, dest) then dest else c
    case Char(_) => if EditOf(t, c, k).Some? then Cursor(c.line, c.col + 1) else c
    case Enter => if EditOf(t, c, k).Some? then Cursor(c.line + 1, 0) else c
    case Backspace =>
      if c.col > 0 then Cursor(c.line, c.col - 1) else if c.line > 0 then Cursor(c.line - 1, |t[c.line - 1]|) else c
    case DeleteKey => c
  }

  lemma CursorStays(t: Text, c: Cursor, k: Key)
    requires ValidText(t) && CursorIn(t, c)
    ensures var e := EditOf(t, c, k); CursorIn(if e.Some? then EditText(t, e.value) else t, CursorAfter(t, c, k))
  {}

  /** All the edits that some keys make. */
  function EditsOf(d: Doc, c: Cursor, keys: seq<Key>): seq<Edit>
    requires ValidDoc(d) && CursorIn(d.text, c)
    decreases |keys|
  {
    if keys == [] then []
    else
      var e := EditOf(d.text, c, keys[0]);
      CursorStays(d.text, c, keys[0]);
      if e.None? then EditsOf(d, CursorAfter(d.text, c, keys[0]), keys[1..])
      else [e.value] + EditsOf(Apply(d, e.value), CursorAfter(d.text, c, keys[0]), keys[1..])
  }

  /** Where undoing an entry leaves the cursor. */
  function CursorAfterUndo(e: Entry): Cursor {
    match e.kind
    case DeleteChar => Cursor(e.line, e.col + 1)
    case DeleteLine => Cursor(e.line, 0)
    case _ => Cursor(e.line, e.col)
  }

  lemma UndoCursorIn(t: Text, e: Entry)
    requires ValidText(t) && Applies(t, e)
    ensures CursorIn(UndoText(t, e), CursorAfterUndo(e))
  {}
}
