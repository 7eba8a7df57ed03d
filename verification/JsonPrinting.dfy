/** The printed text as a function of its tokens alone. */
module JsonPrinting {
  import opened JsonGrammar

  function Concat(ts: seq<string>): string {
    if ts == [] then "" else ts[0] + Concat(ts[1..])
  }

  predicate Opens(t: string) {
    t == "[" || t == "{"
  }

  predicate Closes(t: string) {
    t == "]" || t == "}"
  }

  /** How many containers are open after a token. */
  function OpenAfter(open: nat, t: string): nat {
    if Opens(t) then open + 1 else if Closes(t) && open > 0 then open - 1 else open
  }

  /** A new line, and two spaces for each open container. */
  function Line(open: nat): string {
    "\n" + seq(2 * open, _ => ' ')
  }

  /** The white space between two tokens, when some containers are open after the first: items, members and the end
      of a container that is not empty stand on lines of their own, and a colon is followed by a space. */
  function Between(a: string, b: string, open: nat): string {
    if Opens(a) && Closes(b) then ""
    else if Opens(a) || a == "," then Line(open)
    else if a == ":" then " "
    else if Closes(b) && open > 0 then Line(open - 1)
    else ""
  }

  /** Tokens with the white space between them, when some containers are open before the first. */
  function Spaced(ts: seq<string>, open: nat): string {
    if ts == [] then ""
    else
      var now := OpenAfter(open, ts[0]);
      if |ts| == 1 then ts[0] else ts[0] + Between(ts[0], ts[1], now) + Spaced(ts[1..], now)
  }

  /** The text printed for some tokens. */
  function Rendered(pretty: bool, ts: seq<string>): string {
    if pretty then Spaced(ts, 0) else Concat(ts)
  }

  // ---------------------------------------------------------------- minified text

  lemma {:induction false} ConcatJoin(a: seq<string>, b: seq<string>)
    ensures Concat(a + b) == Concat(a) + Concat(b)
  {
    if a == [] {
      assert a + b == b;
    } else {
      ConcatJoin(a[1..], b);
      assert (a + b)[1..] == a[1..] + b;
    }
  }

  /** Minified text is the tokens and nothing else. */
  lemma {:induction false} MinifiedIsTokens(depth: nat, v: Value)
    ensures Text(Layout(false, depth, v)) == Concat(Tokens(v))
    decreases v
  {
    match v
    case Array(items) =>
      MinifiedItems(depth + 1, items);
      ConcatJoin(["["], ItemsTokens(items));
    case Object(members) =>
      MinifiedMembers(depth + 1, members);
      ConcatJoin(["{"], MembersTokens(members));
    case _ =>
  }

  lemma {:induction false} MinifiedItems(depth: nat, items: Items)
    requires depth > 0
    ensures ItemsText(LayoutItems(false, depth, items)) == Concat(ItemsTokens(items))
    decreases items
  {
    var t := Text(Layout(false, depth, items.value));
    MinifiedIsTokens(depth, items.value);
    if items.LastItem? {
      ConcatJoin(Tokens(items.value), ["]"]);
      assert "" + (t + ("" + "]")) == t + "]";
    } else {
      MinifiedItems(depth, items.rest);
      ConcatJoin([","], ItemsTokens(items.rest));
      ConcatJoin(Tokens(items.value), [","] + ItemsTokens(items.rest));
      var rest := ItemsText(LayoutItems(false, depth, items.rest));
      assert "" + (t + ("" + ("," + rest))) == t + ("," + rest);
    }
  }

  lemma {:induction false} MinifiedMembers(depth: nat, m: Members)
    requires depth > 0
    ensures MembersText(LayoutMembers(false, depth, m)) == Concat(MembersTokens(m))
    decreases m
  {
    var t := Text(Layout(false, depth, m.value));
    MinifiedIsTokens(depth, m.value);
    var tail := if m.LastMember? then ["}"] else [","] + MembersTokens(m.rest);
    ConcatJoin([m.key, ":"], Tokens(m.value) + tail);
    ConcatJoin(Tokens(m.value), tail);
    assert MembersTokens(m) == [m.key, ":"] + (Tokens(m.value) + tail);
    KeyAndColon(m.key);
    if m.LastMember? {
      MemberPieces(m.key, t, "}");
    } else {
      MinifiedMembers(depth, m.rest);
      ConcatJoin([","], MembersTokens(m.rest));
      MemberPieces(m.key, t, "," + MembersText(LayoutMembers(false, depth, m.rest)));
    }
  }

  lemma KeyAndColon(key: string)
    ensures Concat([key, ":"]) == key + ":"
  {
    assert [key, ":"][1..] == [":"] && [":"][1..] == [];
    assert Concat([":"]) == ":" + Concat([]);
  }

  lemma MemberPieces(key: string, t: string, tail: string)
    ensures "" + (key + ("" + (":" + ("" + (t + ("" + tail)))))) == (key + ":") + (t + tail)
  {}

  // ---------------------------------------------------------------- indented text

  /** A token that is neither a bracket nor a separator. */
  predicate Plain(t: string) {
    !Opens(t) && !Closes(t) && t != "," && t != ":"
  }

  lemma ScalarsArePlain(t: string)
    requires IsLiteral(t) || IsString(t) || IsNumber(t)
    ensures Plain(t)
  {
    if IsNumber(t) {
      NumbersStart(t);
    }
  }

  lemma NumbersStart(t: string)
    requires IsNumber(t)
    ensures t != "" && (t[0] == '-' || IsDigit(t[0]))
  {
    var p: NumberParts :| p.Legal() && t == p.Text();
    assert t == p.minus + (p.whole + (p.frac + p.exp));
  }

  /** What may follow a value. */
  predicate Ends(rest: seq<string>) {
    rest == [] || rest[0] == "," || Closes(rest[0])
  }

  /** The text of what follows a value. */
  function Follow(rest: seq<string>, open: nat): string {
    if rest == [] then "" else (if Closes(rest[0]) && open > 0 then Line(open - 1) else "") + Spaced(rest, open)
  }

  lemma SpacedFirst(t: string, ts: seq<string>, open: nat)
    requires ts != []
    ensures var now := OpenAfter(open, t); Spaced([t] + ts, open) == t + Between(t, ts[0], now) + Spaced(ts, now)
  {
    hide Between;
    assert ([t] + ts)[1..] == ts;
  }

  /** A token after which a value is complete. */
  lemma LastFirst(t: string, rest: seq<string>, open: nat)
    requires Ends(rest) && !Opens(t) && t != "," && t != ":"
    ensures Spaced([t] + rest, open) == t + Follow(rest, OpenAfter(open, t))
  {
    hide Line;
    if rest == [] {
      assert [t] + rest == [t];
    } else {
      SpacedFirst(t, rest, open);
      var now := OpenAfter(open, t);
      assert t + (Between(t, rest[0], now) + Spaced(rest, now)) == t + Between(t, rest[0], now) + Spaced(rest, now);
    }
  }

  lemma FirstToken(v: Value)
    requires Legal(v)
    ensures Tokens(v) != [] && !Closes(Tokens(v)[0])
  {
    hide IsString, IsNumber, IsLiteral;
    if v.Literal? || v.String? || v.Number? {
      ScalarsArePlain(v.token);
    }
  }

  lemma LineIsIndent(open: nat)
    ensures Line(open) == Indent(true, open)
  {}

  /** Indented text is the tokens with the white space that they determine. */
  lemma {:induction false} IndentedValue(open: nat, v: Value, rest: seq<string>)
    requires Legal(v) && Ends(rest)
    ensures Spaced(Tokens(v) + rest, open) == Text(Layout(true, open, v)) + Follow(rest, open)
    decreases v
  {
    hide Spaced, Line, Follow, IsString, IsNumber, IsLiteral, LayoutItems, LayoutMembers, ItemsText, MembersText;
    match v
    case Literal(t) => ScalarsArePlain(t); LastFirst(t, rest, open);
    case String(t) => ScalarsArePlain(t); LastFirst(t, rest, open);
    case Number(t) => ScalarsArePlain(t); LastFirst(t, rest, open);
    case EmptyArray(_) => EmptyContainer("[", "]", rest, open);
    case EmptyObject(_) => EmptyContainer("{", "}", rest, open);
    case Array(items) =>
      FirstToken(items.value);
      IndentedItems(open + 1, items, rest);
      OpenContainer("[", ItemsTokens(items), rest, open, ItemsText(LayoutItems(true, open + 1, items)));
    case Object(members) =>
      ScalarsArePlain(members.key);
      IndentedMembers(open + 1, members, rest);
      OpenContainer("{", MembersTokens(members), rest, open, MembersText(LayoutMembers(true, open + 1, members)));
  }

  lemma EmptyContainer(a: string, b: string, rest: seq<string>, open: nat)
    requires Opens(a) && Closes(b) && Ends(rest)
    ensures Spaced([a, b] + rest, open) == (a + "" + b) + Follow(rest, open)
  {
    hide Spaced, Line, Follow;
    SpacedFirst(a, [b] + rest, open);
    LastFirst(b, rest, open + 1);
    assert [a, b] + rest == [a] + ([b] + rest);
    assert a + "" + (b + Follow(rest, open)) == (a + "" + b) + Follow(rest, open);
  }

  lemma OpenContainer(a: string, ts: seq<string>, rest: seq<string>, open: nat, text: string)
    requires Opens(a) && ts != [] && !Closes(ts[0])
    requires Line(open + 1) + Spaced(ts + rest, open + 1) == text + Follow(rest, open)
    ensures Spaced([a] + ts + rest, open) == (a + text) + Follow(rest, open)
  {
    hide Spaced, Line, Follow;
    SpacedFirst(a, ts + rest, open);
    assert [a] + ts + rest == [a] + (ts + rest);
    assert a + Line(open + 1) + Spaced(ts + rest, open + 1) == a + (Line(open + 1) + Spaced(ts + rest, open + 1));
    assert a + (text + Follow(rest, open)) == (a + text) + Follow(rest, open);
  }

  /** After the value of an item or a member: the end of the container, or a comma and a new line. */
  lemma AfterLast(close: string, rest: seq<string>, open: nat)
    requires Closes(close) && Ends(rest) && open > 0
    ensures Follow([close] + rest, open) == Line(open - 1) + (close + Follow(rest, open - 1))
  {
    hide Line;
    LastFirst(close, rest, open);
  }

  lemma AfterOther(ts: seq<string>, open: nat)
    requires ts != []
    ensures Follow([","] + ts, open) == "," + (Line(open) + Spaced(ts, open))
  {
    hide Line, Spaced;
    SpacedFirst(",", ts, open);
  }

  lemma {:induction false} IndentedItems(open: nat, items: Items, rest: seq<string>)
    requires LegalItems(items) && Ends(rest) && open > 0
    ensures Line(open) + Spaced(ItemsTokens(items) + rest, open)
         == ItemsText(LayoutItems(true, open, items)) + Follow(rest, open - 1)
    decreases items
  {
    hide Spaced, Line, Follow, IsString, IsNumber, IsLiteral, Layout, Text, Indent, Legal;
    var t := Text(Layout(true, open, items.value));
    LineIsIndent(open);
    LineIsIndent(open - 1);
    if items.LastItem? {
      IndentedValue(open, items.value, ["]"] + rest);
      assert ItemsTokens(items) + rest == Tokens(items.value) + (["]"] + rest);
      AfterLast("]", rest, open);
      JoinPieces(Line(open), t, Line(open - 1), "]", Follow(rest, open - 1));
    } else {
      var more := ItemsTokens(items.rest) + rest;
      IndentedValue(open, items.value, [","] + more);
      assert ItemsTokens(items) + rest == Tokens(items.value) + ([","] + more);
      FirstToken(items.rest.value);
      AfterOther(more, open);
      IndentedItems(open, items.rest, rest);
      JoinMore(Line(open), t, ItemsText(LayoutItems(true, open, items.rest)), Follow(rest, open - 1));
    }
  }

  lemma JoinPieces(i: string, t: string, j: string, close: string, rest: string)
    ensures i + (t + (j + (close + rest))) == (i + (t + (j + close))) + rest
  {}

  lemma JoinMore(i: string, t: string, more: string, rest: string)
    ensures i + (t + ("," + (more + rest))) == (i + (t + ("" + ("," + more)))) + rest
  {}

  lemma {:induction false} IndentedMembers(open: nat, m: Members, rest: seq<string>)
    requires LegalMembers(m) && Ends(rest) && open > 0
    ensures Line(open) + Spaced(MembersTokens(m) + rest, open)
         == MembersText(LayoutMembers(true, open, m)) + Follow(rest, open - 1)
    decreases m
  {
    hide Spaced, Line, Follow, IsString, IsNumber, IsLiteral, Layout, Text, Indent, Legal;
    var t := Text(Layout(true, open, m.value));
    LineIsIndent(open);
    LineIsIndent(open - 1);
    ScalarsArePlain(m.key);
    if m.LastMember? {
      var after := ["}"] + rest;
      KeyFirst(m, after, open);
      IndentedValue(open, m.value, after);
      assert MembersTokens(m) + rest == [m.key, ":"] + (Tokens(m.value) + after);
      AfterLast("}", rest, open);
      JoinMember(Line(open), m.key, t, Line(open - 1) + "}", Follow(rest, open - 1));
      assert Line(open - 1) + ("}" + Follow(rest, open - 1)) == (Line(open - 1) + "}") + Follow(rest, open - 1);
    } else {
      var more := MembersTokens(m.rest) + rest;
      KeyFirst(m, [","] + more, open);
      IndentedValue(open, m.value, [","] + more);
      assert MembersTokens(m) + rest == [m.key, ":"] + (Tokens(m.value) + ([","] + more));
      AfterOther(more, open);
      IndentedMembers(open, m.rest, rest);
      var text := MembersText(LayoutMembers(true, open, m.rest));
      assert "," + (text + Follow(rest, open - 1)) == ("" + ("," + text)) + Follow(rest, open - 1);
      JoinMember(Line(open), m.key, t, "" + ("," + text), Follow(rest, open - 1));
    }
  }

  /** A key and its colon, in front of the value. */
  lemma KeyFirst(m: Members, after: seq<string>, open: nat)
    requires Plain(m.key) && Legal(m.value)
    ensures Spaced([m.key, ":"] + (Tokens(m.value) + after), open)
         == m.key + (":" + (" " + Spaced(Tokens(m.value) + after, open)))
  {
    hide Spaced, Line, Legal;
    FirstToken(m.value);
    var ts := Tokens(m.value) + after;
    SpacedFirst(":", ts, open);
    SpacedFirst(m.key, [":"] + ts, open);
    assert [m.key, ":"] + ts == [m.key] + ([":"] + ts);
  }

  lemma JoinMember(i: string, key: string, t: string, tail: string, rest: string)
    ensures i + (key + (":" + (" " + (t + (tail + rest)))))
         == (i + (key + ("" + (":" + (" " + (t + tail)))))) + rest
  {}

  /** Printed text, in either style, is its tokens rendered. */
  lemma PrintedAsRendered(pretty: bool, v: Value)
    requires Legal(v)
    ensures Text(Layout(pretty, 0, v)) == Rendered(pretty, Tokens(v))
  {
    hide Spaced, Legal, Layout, Text, Tokens;
    if pretty {
      IndentedValue(0, v, []);
      assert Tokens(v) + [] == Tokens(v);
    } else {
      MinifiedIsTokens(0, v);
    }
  }
}
