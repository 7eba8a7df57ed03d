/** The recursive parser that validates a text and, run again with an emitter, prints it. */
module JsonParser {
  import opened Options
  import opened JsonGrammar
  import opened JsonSpecParser
  import opened JsonAgreement
  import opened JsonPrinting

  /** Where output goes: one byte stream, written by single characters and by slices, that takes so many characters
      before writes fail. A disabled emitter stands for the null emitter of the validating pass. */
  class Emitter {
    const enabled: bool
    const pretty: bool
    const accepts: nat
    var out: string
    ghost var failed: bool // some write has failed

    constructor (enabled: bool, pretty: bool, accepts: nat)
      ensures this.enabled == enabled && this.pretty == pretty && this.accepts == accepts
      ensures out == "" && Ready()
    {
      this.enabled, this.pretty, this.accepts, out, failed := enabled, pretty, accepts, "", false;
    }

    ghost predicate Sane()
      reads this
    {
      |out| <= accepts && (failed ==> enabled)
    }

    ghost predicate Ready()
      reads this
    {
      Sane() && !failed
    }

    /** The output took the front of what was to be written, and no more. */
    ghost predicate Filled(whole: string)
      reads this
    {
      |out| == accepts && out < whole
    }

    ghost function Shown(t: string): string {
      if enabled then t else ""
    }

    method EmitSlice(t: string) returns (ok: bool)
      requires Ready()
      modifies this
      ensures failed == !ok && Sane()
      ensures ok ==> out == old(out) + Shown(t)
      ensures !ok ==> Filled(old(out) + Shown(t))
    {
      if !enabled || t == "" {
        return true;
      }
      var n := if |t| <= accepts - |out| then |t| else accepts - |out|;
      out := out + t[..n];
      ok := n == |t|;
      failed := !ok;
    }

    method EmitChar(c: char) returns (ok: bool)
      requires Ready()
      modifies this
      ensures failed == !ok && Sane()
      ensures ok ==> out == old(out) + Shown([c])
      ensures !ok ==> Filled(old(out) + Shown([c]))
    {
      ok := EmitSlice([c]);
    }

    method EmitIndentLine(depth: nat) returns (ok: bool)
      requires Ready()
      modifies this
      ensures failed == !ok && Sane()
      ensures ok ==> out == old(out) + Shown(Indent(pretty, depth))
      ensures !ok ==> Filled(old(out) + Shown(Indent(pretty, depth)))
    {
      if !enabled || !pretty {
        return true;
      }
      ok := EmitChar('\n');
      if !ok {
        return;
      }
      for i := 0 to depth * 2
        invariant Ready() && out == old(out) + ("\n" + Spaces(i))
      {
        ok := EmitChar(' ');
        if !ok {
          return;
        }
        assert Spaces(i + 1) == Spaces(i) + [' '];
      }
    }
  }

  /** A step succeeds exactly when the reading does and every write does; a failed reading is
      reported by its first error. */
  predicate Reports<T(!new)>(ok: bool, r: Parse<T>, writeFailed: bool, error: Option<string>, errorPos: nat) {
    if ok then r.Ok? && !writeFailed && error == None
    else writeFailed || (r.Fail? && error == Some(r.why) && errorPos == r.at)
  }

  /** A reading together with the output that it leads to. */
  function ThenValue(out: string, e: bool, pretty: bool, depth: nat, r: Parse<Value>): Parse<string> {
    match r
    case Ok(v, next) => Ok(out + (if e then Text(Layout(pretty, depth, v)) else ""), next)
    case Fail(at, why) => Fail(at, why)
  }

  function ThenItems(out: string, e: bool, pretty: bool, depth: nat, r: Parse<Items>): Parse<string>
    requires depth > 0
  {
    match r
    case Ok(items, next) => Ok(out + (if e then ItemsText(LayoutItems(pretty, depth, items)) else ""), next)
    case Fail(at, why) => Fail(at, why)
  }

  function ThenMembers(out: string, e: bool, pretty: bool, depth: nat, r: Parse<Members>): Parse<string>
    requires depth > 0
  {
    match r
    case Ok(m, next) => Ok(out + (if e then MembersText(LayoutMembers(pretty, depth, m)) else ""), next)
    case Fail(at, why) => Fail(at, why)
  }

  function If(e: bool, t: string): string {
    if e then t else ""
  }

  lemma ScalarText(pretty: bool, depth: nat)
    ensures forall t :: Text(Layout(pretty, depth, String(t))) == t
    ensures forall t :: Text(Layout(pretty, depth, Literal(t))) == t
    ensures forall t :: Text(Layout(pretty, depth, Number(t))) == t
  {}

  /** What has been shown so far starts the whole output. */
  lemma ItemsExtend(out: string, e: bool, pretty: bool, depth: nat, r: Parse<Items>)
    requires depth > 0
    ensures r.Ok? ==> ThenItems(out, e, pretty, depth, r).Ok? && out <= ThenItems(out, e, pretty, depth, r).value
    ensures r.Fail? ==> ThenItems(out, e, pretty, depth, r).Fail?
  {
    hide ItemsText, LayoutItems;
  }

  lemma MembersExtend(out: string, e: bool, pretty: bool, depth: nat, r: Parse<Members>)
    requires depth > 0
    ensures r.Ok? ==> ThenMembers(out, e, pretty, depth, r).Ok? && out <= ThenMembers(out, e, pretty, depth, r).value
    ensures r.Fail? ==> ThenMembers(out, e, pretty, depth, r).Fail?
  {
    hide MembersText, LayoutMembers;
  }

  /** One turn of the loop over items. */
  lemma ItemsStep(s: string, p: nat, depth: nat, out: string, e: bool, pretty: bool)
    requires p <= |s| && depth > 0
    ensures var whole := ThenItems(out, e, pretty, depth, ParseItems(s, p, depth));
            match JsonSpecParser.ParseValue(s, SkipSpaces(s, p), depth)
            case Fail(at, why) => whole == Fail(at, why)
            case Ok(v, p2) =>
              var p3 := SkipSpaces(s, p2);
              var out2 := ItemOut(out, e, pretty, depth, v);
              if Sees(s, p3, ',') then
                whole == ThenItems(out2 + If(e, ","), e, pretty, depth, ParseItems(s, p3 + 1, depth))
              else if Sees(s, p3, ']') then
                whole == Ok(out2 + If(e, Indent(pretty, depth - 1)) + If(e, "]"), p3 + 1)
              else whole == Fail(p3, "expected ',' or ']' in array")
  {
    hide JsonSpecParser.ParseValue, Text, Layout, Indent, SkipSpaces;
    var r := JsonSpecParser.ParseValue(s, SkipSpaces(s, p), depth);
    assert out + "" == out;
    if e && r.Ok? {
      var i, t := Indent(pretty, depth), Text(Layout(pretty, depth, r.value));
      var p3 := SkipSpaces(s, r.next);
      if Sees(s, p3, ',') && ParseItems(s, p3 + 1, depth).Ok? {
        var rest := ItemsText(LayoutItems(pretty, depth, ParseItems(s, p3 + 1, depth).value));
        assert out + (i + (t + ("" + ("," + rest)))) == (((out + i) + t) + ",") + rest;
      } else if Sees(s, p3, ']') {
        var j := Indent(pretty, depth - 1);
        assert out + (i + (t + (j + "]"))) == (((out + i) + t) + j) + "]";
      }
    }
  }

  /** The output of that turn starts the whole output. */
  lemma ItemsShowFirst(s: string, p: nat, depth: nat, out: string, e: bool, pretty: bool)
    requires p <= |s| && depth > 0
    ensures var whole := ThenItems(out, e, pretty, depth, ParseItems(s, p, depth));
            var r := JsonSpecParser.ParseValue(s, SkipSpaces(s, p), depth);
            whole.Ok? ==>
              && r.Ok?
              && var out2 := ItemOut(out, e, pretty, depth, r.value);
                 && out2 <= whole.value
                 && (Sees(s, SkipSpaces(s, r.next), ',') ==> out2 + If(e, ",") <= whole.value)
  {
    hide JsonSpecParser.ParseValue, Indent, SkipSpaces, ParseItems, ThenItems, ItemOut;
    ItemsStep(s, p, depth, out, e, pretty);
    var r := JsonSpecParser.ParseValue(s, SkipSpaces(s, p), depth);
    if r.Ok? {
      var p3 := SkipSpaces(s, r.next);
      var out2 := ItemOut(out, e, pretty, depth, r.value);
      if Sees(s, p3, ',') {
        ItemsExtend(out2 + If(e, ","), e, pretty, depth, ParseItems(s, p3 + 1, depth));
      }
    }
  }

  /** One turn of the loop over members, up to the end of the key and from there. */
  lemma MembersStep(s: string, p: nat, depth: nat, out: string, e: bool, pretty: bool)
    requires p <= |s| && depth > 0
    ensures var whole := ThenMembers(out, e, pretty, depth, ParseMembers(s, p, depth));
            match ParseMember(s, p, depth)
            case Fail(at, why) => whole == Fail(at, why)
            case Ok(m, p5) =>
              var p6 := SkipSpaces(s, p5);
              var out2 := MemberOut(out, e, pretty, depth, m);
              if Sees(s, p6, ',') then
                whole == ThenMembers(out2 + If(e, ","), e, pretty, depth, ParseMembers(s, p6 + 1, depth))
              else if Sees(s, p6, '}') then
                whole == Ok(out2 + If(e, Indent(pretty, depth - 1)) + If(e, "}"), p6 + 1)
              else whole == Fail(p6, "expected ',' or '}' in object")
  {
    hide ParseMember, Text, Layout, Indent, SkipSpaces;
    var r := ParseMember(s, p, depth);
    assert out + "" == out;
    if e && r.Ok? {
      var i, k, t := Indent(pretty, depth), r.value.key, Text(Layout(pretty, depth, r.value.value));
      var b := if pretty then " " else "";
      var p6 := SkipSpaces(s, r.next);
      if Sees(s, p6, ',') && ParseMembers(s, p6 + 1, depth).Ok? {
        var rest := MembersText(LayoutMembers(pretty, depth, ParseMembers(s, p6 + 1, depth).value));
        MemberPieces(out, i, k, b, t, "", "," + rest);
        var o := ((((out + i) + k) + ":") + b) + t;
        assert o + "" == o;
        assert (((((out + i) + k) + ":") + b) + t) + ("," + rest) == ((((((out + i) + k) + ":") + b) + t) + ",") + rest;
      } else if Sees(s, p6, '}') {
        var j := Indent(pretty, depth - 1);
        MemberPieces(out, i, k, b, t, j, "}");
      }
    }
  }

  lemma MembersShowFirst(s: string, p: nat, depth: nat, out: string, e: bool, pretty: bool)
    requires p <= |s| && depth > 0
    ensures var whole := ThenMembers(out, e, pretty, depth, ParseMembers(s, p, depth));
            var r := ParseMember(s, p, depth);
            whole.Ok? ==>
              && r.Ok?
              && var out2 := MemberOut(out, e, pretty, depth, r.value);
                 && out2 <= whole.value
                 && (Sees(s, SkipSpaces(s, r.next), ',') ==> out2 + If(e, ",") <= whole.value)
  {
    hide ParseMember, MemberOut, Indent, SkipSpaces, ParseMembers, ThenMembers;
    MembersStep(s, p, depth, out, e, pretty);
    var r := ParseMember(s, p, depth);
    if r.Ok? {
      var p6 := SkipSpaces(s, r.next);
      var out2 := MemberOut(out, e, pretty, depth, r.value);
      if Sees(s, p6, ',') {
        MembersExtend(out2 + If(e, ","), e, pretty, depth, ParseMembers(s, p6 + 1, depth));
      }
    }
  }

  lemma MemberPieces(out: string, i: string, k: string, b: string, t: string, j: string, tail: string)
    ensures out + (i + (k + ("" + (":" + (b + (t + (j + tail)))))))
            == ((((((out + i) + k) + ":") + b) + t) + j) + tail
  {
    var t3 := t + (j + tail);
    assert "" + (":" + (b + t3)) == ":" + (b + t3);
    assert out + (i + (k + (":" + (b + t3)))) == ((((out + i) + k) + ":") + b) + t3;
    var o5 := (((out + i) + k) + ":") + b;
    assert o5 + (t + (j + tail)) == ((o5 + t) + j) + tail;
  }

  /** The output once an item, or a member, is shown. */
  function ItemOut(out: string, e: bool, pretty: bool, depth: nat, v: Value): string {
    out + If(e, Indent(pretty, depth)) + If(e, Text(Layout(pretty, depth, v)))
  }

  function MemberOut(out: string, e: bool, pretty: bool, depth: nat, m: Member): string {
    out + If(e, Indent(pretty, depth)) + If(e, m.key) + If(e, ":") + If(e, if pretty then " " else "")
    + If(e, Text(Layout(pretty, depth, m.value)))
  }

  lemma SkipTwice(s: string, p: nat)
    requires p <= |s|
    ensures SkipSpaces(s, SkipSpaces(s, p)) == SkipSpaces(s, p)
  {}

  /** White space before an item does not influence the output. */
  lemma ItemsAfterSpaces(s: string, p: nat, depth: nat, out: string, e: bool, pretty: bool)
    requires p <= |s| && depth > 0
    ensures ThenItems(out, e, pretty, depth, ParseItems(s, SkipSpaces(s, p), depth))
            == ThenItems(out, e, pretty, depth, ParseItems(s, p, depth))
  {
    hide ParseValue, Text, Layout;
    SkipTwice(s, p);
  }

  lemma MembersAfterSpaces(s: string, p: nat, depth: nat, out: string, e: bool, pretty: bool)
    requires p <= |s| && depth > 0
    ensures ThenMembers(out, e, pretty, depth, ParseMembers(s, SkipSpaces(s, p), depth))
            == ThenMembers(out, e, pretty, depth, ParseMembers(s, p, depth))
  {
    hide ParseValue, Text, Layout, ScanString, SkipSpaces, MembersText;
    SkipTwice(s, p);
  }

  /** The front of a container: its end if it is empty, and what is inside otherwise. */
  lemma ArrayStep(s: string, p: nat, depth: nat, out: string, e: bool, pretty: bool)
    requires Sees(s, p, '[')
    ensures var whole := ThenValue(out, e, pretty, depth, JsonSpecParser.ParseArray(s, p, depth));
            var p1 := SkipSpaces(s, p + 1);
            var open := out + If(e, "[");
            && (whole.Ok? ==> open <= whole.value)
            && whole ==
               if Sees(s, p1, ']') then Ok(open + If(e, "]"), p1 + 1)
               else if depth + 1 > MAX_DEPTH then Fail(p1, "max nesting depth exceeded")
               else ThenItems(open, e, pretty, depth + 1, ParseItems(s, p1, depth + 1))
  {
    hide SkipSpaces, ParseItems, ItemsText, LayoutItems;
    assert out + "" == out;
    ItemsAfterSpaces(s, p + 1, depth + 1, out + If(e, "["), e, pretty);
    var whole := ThenValue(out, e, pretty, depth, JsonSpecParser.ParseArray(s, p, depth));
    var p1 := SkipSpaces(s, p + 1);
    if e && Sees(s, p1, ']') {
      assert out + ("[" + "" + "]") == (out + "[") + "]";
    } else if e && whole.Ok? {
      var t := ItemsText(LayoutItems(pretty, depth + 1, ParseItems(s, p + 1, depth + 1).value));
      assert out + ("[" + t) == (out + "[") + t;
    }
  }

  lemma ObjectStep(s: string, p: nat, depth: nat, out: string, e: bool, pretty: bool)
    requires Sees(s, p, '{')
    ensures var whole := ThenValue(out, e, pretty, depth, JsonSpecParser.ParseObject(s, p, depth));
            var p1 := SkipSpaces(s, p + 1);
            var open := out + If(e, "{");
            && (whole.Ok? ==> open <= whole.value)
            && whole ==
               if Sees(s, p1, '}') then Ok(open + If(e, "}"), p1 + 1)
               else if depth + 1 > MAX_DEPTH then Fail(p1, "max nesting depth exceeded")
               else ThenMembers(open, e, pretty, depth + 1, ParseMembers(s, p1, depth + 1))
  {
    hide SkipSpaces, ParseMembers, MembersText, LayoutMembers;
    assert out + "" == out;
    MembersAfterSpaces(s, p + 1, depth + 1, out + If(e, "{"), e, pretty);
    var whole := ThenValue(out, e, pretty, depth, JsonSpecParser.ParseObject(s, p, depth));
    var p1 := SkipSpaces(s, p + 1);
    if e && Sees(s, p1, '}') {
      assert out + ("{" + "" + "}") == (out + "{") + "}";
    } else if e && whole.Ok? {
      var t := MembersText(LayoutMembers(pretty, depth + 1, ParseMembers(s, p + 1, depth + 1).value));
      assert out + ("{" + t) == (out + "{") + t;
    }
  }

  class Parser {
    const data: string
    var pos: nat
    var error: Option<string>
    var errorPos: nat
    var depth: nat

    constructor (data: string)
      ensures this.data == data && pos == 0 && depth == 0 && error == None
    {
      this.data, pos, error, errorPos, depth := data, 0, None, 0, 0;
    }

    /** Only the first failure is recorded. */
    method ParserFail(msg: string)
      modifies this`error, this`errorPos
      ensures old(error).Some? ==> error == old(error) && errorPos == old(errorPos)
      ensures old(error).None? ==> error == Some(msg) && errorPos == pos
    {
      if error.None? {
        error := Some(msg);
        errorPos := pos;
      }
    }

    method SkipWs()
      requires pos <= |data|
      modifies this`pos
      ensures pos == SkipSpaces(data, old(pos))
    {
      while pos < |data| && IsSpace(data[pos])
        invariant pos <= |data| && SkipSpaces(data, pos) == SkipSpaces(data, old(pos))
      {
        pos := pos + 1;
      }
    }

    method MatchChar(want: char) returns (matched: bool)
      modifies this`pos
      ensures matched == Sees(data, old(pos), want)
      ensures pos == if matched then old(pos) + 1 else old(pos)
    {
      if pos >= |data| || data[pos] != want {
        return false;
      }
      pos := pos + 1;
      matched := true;
    }

    method ParseLiteral(e: Emitter, text: string) returns (ok: bool)
      requires pos <= |data| && error == None && e.Ready() && text != ""
      modifies this`pos, this`error, this`errorPos, e
      ensures pos <= |data|
      ensures Reports(ok, ScanLiteral(data, old(pos), text), e.failed, error, errorPos) && e.Sane()
      ensures ok ==> pos == old(pos) + |text| && e.out == old(e.out) + e.Shown(text)
      ensures e.failed ==> e.Filled(old(e.out) + e.Shown(text))
    {
      if |data| - pos < |text| {
        ParserFail("unexpected end while reading literal");
        return false;
      }
      if data[pos..pos + |text|] != text {
        ParserFail("invalid literal");
        return false;
      }
      ok := e.EmitSlice(text);
      if !ok {
        ParserFail("failed to write output");
        return;
      }
      pos := pos + |text|;
    }

    /** Scans a string; the slice from its first to its last quotation mark is printed. */
    method ParseString(e: Emitter) returns (ok: bool)
      requires pos <= |data| && error == None && e.Ready()
      modifies this`pos, this`error, this`errorPos, e
      ensures pos <= |data|
      ensures var r := ScanString(data, old(pos));
              && Reports(ok, r, e.failed, error, errorPos) && e.Sane()
              && (ok ==> pos == r.next && e.out == old(e.out) + e.Shown(r.value))
              && (e.failed && r.Ok? ==> e.Filled(old(e.out) + e.Shown(r.value)))
    {
      var start := pos;
      var matched := MatchChar('"');
      if !matched {
        ParserFail("expected string");
        return false;
      }
      while pos < |data|
        invariant start < pos <= |data| && error == None && e.Ready() && e.out == old(e.out)
        invariant ScanStringTail(data, pos) == ScanStringTail(data, start + 1)
        decreases |data| - pos
      {
        var c := data[pos];
        pos := pos + 1;
        if c < ' ' {
          ParserFail("control character in string");
          return false;
        }
        if c == '"' {
          ok := e.EmitSlice(data[start..pos]);
          if !ok {
            ParserFail("failed to write output");
          }
          return;
        }
        if c == '\\' {
          if pos >= |data| {
            ParserFail("unfinished escape sequence");
            return false;
          }
          var esc := data[pos];
          pos := pos + 1;
          if SimpleEscape(esc) {
            continue;
          }
          if esc == 'u' {
            if |data| - pos < 4 {
              ParserFail("short \\u escape");
              return false;
            }
            ok := ParseHex(start + 1);
            if !ok {
              return;
            }
            continue;
          }
          ParserFail("invalid escape sequence");
          return false;
        }
      }
      ParserFail("unterminated string");
      return false;
    }

    /** The four digits of a \u escape. */
    method ParseHex(ghost origin: nat) returns (ok: bool)
      requires 2 <= pos && pos + 4 <= |data| && error == None && origin <= |data|
      requires data[pos - 2] == '\\' && data[pos - 1] == 'u'
      requires ScanStringTail(data, pos - 2) == ScanStringTail(data, origin)
      modifies this`pos, this`error, this`errorPos
      ensures pos <= |data|
      ensures ok ==> error == None && pos == old(pos) + 4
      ensures ok ==> ScanStringTail(data, pos) == ScanStringTail(data, origin)
      ensures !ok ==> ScanStringTail(data, origin).Fail?
      ensures !ok ==> error == Some(ScanStringTail(data, origin).why) && errorPos == ScanStringTail(data, origin).at
    {
      for i := 0 to 4
        invariant pos == old(pos) + i && error == None
        invariant forall j :: old(pos) <= j < pos ==> IsHex(data[j])
      {
        var h := data[pos];
        pos := pos + 1;
        if !IsHex(h) {
          ParserFail("invalid hex in \\u escape");
          return false;
        }
      }
      ok := true;
    }

    method SkipDigitsHere()
      requires pos <= |data|
      modifies this`pos
      ensures pos == SkipDigits(data, old(pos))
    {
      while pos < |data| && IsDigit(data[pos])
        invariant pos <= |data| && SkipDigits(data, pos) == SkipDigits(data, old(pos))
      {
        pos := pos + 1;
      }
    }

    method ParseWhole() returns (ok: bool)
      requires pos <= |data| && error == None
      modifies this`pos, this`error, this`errorPos
      ensures pos <= |data| && Reports(ok, ScanWhole(data, old(pos)), false, error, errorPos)
      ensures ok ==> pos == ScanWhole(data, old(pos)).next
    {
      if pos >= |data| {
        ParserFail("incomplete number");
        return false;
      }
      if data[pos] == '0' {
        pos := pos + 1;
      } else {
        if !IsDigit(data[pos]) {
          ParserFail("invalid number");
          return false;
        }
        SkipDigitsHere();
      }
      ok := true;
    }

    method ParseFraction() returns (ok: bool)
      requires pos <= |data| && error == None
      modifies this`pos, this`error, this`errorPos
      ensures pos <= |data| && Reports(ok, ScanFraction(data, old(pos)), false, error, errorPos)
      ensures ok ==> pos == ScanFraction(data, old(pos)).next
    {
      if pos < |data| && data[pos] == '.' {
        pos := pos + 1;
        if pos >= |data| || !IsDigit(data[pos]) {
          ParserFail("fraction has no digits");
          return false;
        }
        SkipDigitsHere();
      }
      ok := true;
    }

    method ParseExponent() returns (ok: bool)
      requires pos <= |data| && error == None
      modifies this`pos, this`error, this`errorPos
      ensures pos <= |data| && Reports(ok, ScanExponent(data, old(pos)), false, error, errorPos)
      ensures ok ==> pos == ScanExponent(data, old(pos)).next
    {
      if pos < |data| && (data[pos] == 'e' || data[pos] == 'E') {
        pos := pos + 1;
        if pos < |data| && (data[pos] == '+' || data[pos] == '-') {
          pos := pos + 1;
        }
        if pos >= |data| || !IsDigit(data[pos]) {
          ParserFail("exponent has no digits");
          return false;
        }
        SkipDigitsHere();
      }
      ok := true;
    }

    method ParseNumber(e: Emitter) returns (ok: bool)
      requires pos <= |data| && error == None && e.Ready()
      modifies this`pos, this`error, this`errorPos, e
      ensures pos <= |data|
      ensures var r := ScanNumber(data, old(pos));
              && Reports(ok, r, e.failed, error, errorPos) && e.Sane()
              && (ok ==> pos == r.next && e.out == old(e.out) + e.Shown(r.value))
              && (e.failed && r.Ok? ==> e.Filled(old(e.out) + e.Shown(r.value)))
    {
      hide ScanWhole, ScanFraction, ScanExponent;
      var start := pos;
      var minus := MatchChar('-');
      ok := ParseWhole();
      if !ok {
        return;
      }
      ok := ParseFraction();
      if !ok {
        return;
      }
      ok := ParseExponent();
      if !ok {
        return;
      }
      ok := e.EmitSlice(data[start..pos]);
      if !ok {
        ParserFail("failed to write output");
      }
    }

    // ---------------------------------------------------------------- containers

    /** What a container or value parser promises about its result: that of the reading, with the output it leads to. */
    ghost predicate Done(ok: bool, whole: Parse<string>, e: Emitter, depthBefore: nat)
      reads this, e
    {
      && pos <= |data|
      && Reports(ok, whole, e.failed, error, errorPos) && e.Sane()
      && (ok ==> pos == whole.next && depth == depthBefore && e.out == whole.value)
      && (e.failed && whole.Ok? ==> e.Filled(whole.value))
    }

    method ParseValue(e: Emitter) returns (ok: bool)
      requires pos <= |data| && error == None && e.Ready()
      modifies this, e
      ensures var r := JsonSpecParser.ParseValue(data, SkipSpaces(data, old(pos)), old(depth));
              Done(ok, ThenValue(old(e.out), e.enabled, e.pretty, old(depth), r), e, old(depth))
      decreases |data| - pos, 2
    {
      hide SkipSpaces, ScanString, ScanNumber, JsonSpecParser.ParseArray, JsonSpecParser.ParseObject, Text, Layout;
      ScalarText(e.pretty, depth);
      SkipWs();
      if pos >= |data| {
        ParserFail("unexpected end of JSON input");
        return false;
      }
      var c := data[pos];
      if c == '{' {
        ok := ParseObject(e);
      } else if c == '[' {
        ok := ParseArray(e);
      } else if c == '"' {
        ok := ParseString(e);
      } else if c == 't' {
        ok := ParseLiteral(e, "true");
      } else if c == 'f' {
        ok := ParseLiteral(e, "false");
      } else if c == 'n' {
        ok := ParseLiteral(e, "null");
      } else if c == '-' || IsDigit(c) {
        ok := ParseNumber(e);
      } else {
        ParserFail("invalid JSON value");
        ok := false;
      }
    }

    method ParseArray(e: Emitter) returns (ok: bool)
      requires Sees(data, pos, '[') && error == None && e.Ready()
      modifies this, e
      ensures var r := JsonSpecParser.ParseArray(data, old(pos), old(depth));
              Done(ok, ThenValue(old(e.out), e.enabled, e.pretty, old(depth), r), e, old(depth))
      decreases |data| - pos, 1
    {
      hide SkipSpaces, ParseItems, ThenItems, ThenValue, Indent, JsonSpecParser.ParseArray;
      ArrayStep(data, pos, depth, e.out, e.enabled, e.pretty);
      var matched := MatchChar('[');
      ok := e.EmitChar('[');
      if !ok {
        ParserFail("failed to write output");
        return;
      }
      SkipWs();
      matched := MatchChar(']');
      if matched {
        ok := e.EmitChar(']');
        if !ok {
          ParserFail("failed to write output");
        }
        return;
      }
      depth := depth + 1;
      if depth > MAX_DEPTH {
        ParserFail("max nesting depth exceeded");
        return false;
      }
      ok := ParseItemsLoop(e);
      if ok {
        depth := depth - 1;
      }
    }

    /** The loop over the items of an array, up to and including the closing bracket. */
    method ParseItemsLoop(e: Emitter) returns (ok: bool)
      requires pos <= |data| && error == None && e.Ready() && depth > 0
      modifies this, e
      ensures var r := ParseItems(data, old(pos), old(depth));
              Done(ok, ThenItems(old(e.out), e.enabled, e.pretty, old(depth), r), e, old(depth))
      decreases |data| - pos, 4
    {
      hide SkipSpaces, Indent, ParseItems, ThenItems, ItemOut, JsonSpecParser.ParseValue;
      while true
        invariant old(pos) <= pos <= |data| && error == None && e.Ready() && depth == old(depth)
        invariant ThenItems(e.out, e.enabled, e.pretty, depth, ParseItems(data, pos, depth))
                  == ThenItems(old(e.out), e.enabled, e.pretty, depth, ParseItems(data, old(pos), depth))
        decreases |data| - pos
      {
        ItemsStep(data, pos, depth, e.out, e.enabled, e.pretty);
        ItemsShowFirst(data, pos, depth, e.out, e.enabled, e.pretty);
        ok := ParseItemHere(e);
        if !ok {
          return;
        }
        SkipWs();
        var matched := MatchChar(',');
        if matched {
          ok := e.EmitChar(',');
          if !ok {
            ParserFail("failed to write output");
            return;
          }
          ghost var p4 := pos;
          SkipWs();
          ItemsAfterSpaces(data, p4, depth, e.out, e.enabled, e.pretty);
          continue;
        }
        matched := MatchChar(']');
        if matched {
          ok := CloseContainer(e, ']');
          return;
        }
        ParserFail("expected ',' or ']' in array");
        return false;
      }
    }

    /** An item on its own line. */
    method ParseItemHere(e: Emitter) returns (ok: bool)
      requires pos <= |data| && error == None && e.Ready() && depth > 0
      modifies this, e
      ensures var r := JsonSpecParser.ParseValue(data, SkipSpaces(data, old(pos)), old(depth));
              && pos <= |data| && Reports(ok, r, e.failed, error, errorPos) && e.Sane()
              && (ok ==>
                    && pos == r.next && depth == old(depth)
                    && e.out == ItemOut(old(e.out), e.enabled, e.pretty, depth, r.value))
              && (e.failed && r.Ok? ==> e.Filled(ItemOut(old(e.out), e.enabled, e.pretty, old(depth), r.value)))
      decreases |data| - pos, 3
    {
      hide SkipSpaces, Indent, Text, Layout, JsonSpecParser.ParseValue;
      ok := e.EmitIndentLine(depth);
      if !ok {
        ParserFail("failed to write output");
        return;
      }
      ok := ParseValue(e);
    }

    /** The line break before a closing bracket, and the bracket. */
    method CloseContainer(e: Emitter, bracket: char) returns (ok: bool)
      requires pos <= |data| && error == None && e.Ready() && depth > 0
      modifies this`error, this`errorPos, e
      ensures e.failed == !ok && (ok ==> error == None) && e.Sane()
      ensures ok ==> e.out == old(e.out) + e.Shown(Indent(e.pretty, depth - 1)) + e.Shown([bracket])
      ensures !ok ==> e.Filled(old(e.out) + e.Shown(Indent(e.pretty, depth - 1)) + e.Shown([bracket]))
    {
      ok := e.EmitIndentLine(depth - 1);
      if !ok {
        ParserFail("failed to write output");
        return;
      }
      ok := e.EmitChar(bracket);
      if !ok {
        ParserFail("failed to write output");
      }
    }

    method ParseObject(e: Emitter) returns (ok: bool)
      requires Sees(data, pos, '{') && error == None && e.Ready()
      modifies this, e
      ensures var r := JsonSpecParser.ParseObject(data, old(pos), old(depth));
              Done(ok, ThenValue(old(e.out), e.enabled, e.pretty, old(depth), r), e, old(depth))
      decreases |data| - pos, 1
    {
      hide SkipSpaces, ParseMembers, ThenMembers, ThenValue, Indent, JsonSpecParser.ParseObject;
      ObjectStep(data, pos, depth, e.out, e.enabled, e.pretty);
      var matched := MatchChar('{');
      ok := e.EmitChar('{');
      if !ok {
        ParserFail("failed to write output");
        return;
      }
      SkipWs();
      matched := MatchChar('}');
      if matched {
        ok := e.EmitChar('}');
        if !ok {
          ParserFail("failed to write output");
        }
        return;
      }
      depth := depth + 1;
      if depth > MAX_DEPTH {
        ParserFail("max nesting depth exceeded");
        return false;
      }
      SkipTwice(data, old(pos) + 1);
      ok := ParseMembersLoop(e);
      if ok {
        depth := depth - 1;
      }
    }

    /** The loop over the members of an object, up to and including the closing brace. */
    method ParseMembersLoop(e: Emitter) returns (ok: bool)
      requires pos <= |data| && error == None && e.Ready() && depth > 0
      requires pos == SkipSpaces(data, pos)
      modifies this, e
      ensures var r := ParseMembers(data, old(pos), old(depth));
              Done(ok, ThenMembers(old(e.out), e.enabled, e.pretty, old(depth), r), e, old(depth))
      decreases |data| - pos, 4
    {
      hide SkipSpaces, Indent, ParseMembers, ParseMember, ThenMembers, Text, Layout, MemberOut;
      while true
        invariant old(pos) <= pos <= |data| && error == None && e.Ready() && depth == old(depth)
        invariant pos == SkipSpaces(data, pos)
        invariant ThenMembers(e.out, e.enabled, e.pretty, depth, ParseMembers(data, pos, depth))
                  == ThenMembers(old(e.out), e.enabled, e.pretty, depth, ParseMembers(data, old(pos), depth))
        decreases |data| - pos
      {
        MembersStep(data, pos, depth, e.out, e.enabled, e.pretty);
        MembersShowFirst(data, pos, depth, e.out, e.enabled, e.pretty);
        ok := ParseMemberHere(e);
        if !ok {
          return;
        }
        SkipWs();
        var matched := MatchChar(',');
        if matched {
          ok := e.EmitChar(',');
          if !ok {
            ParserFail("failed to write output");
            return;
          }
          ghost var p4 := pos;
          SkipWs();
          SkipTwice(data, p4);
          MembersAfterSpaces(data, p4, depth, e.out, e.enabled, e.pretty);
          continue;
        }
        matched := MatchChar('}');
        if matched {
          ok := CloseContainer(e, '}');
          return;
        }
        ParserFail("expected ',' or '}' in object");
        return false;
      }
    }

    /** A key, the colon and a value. */
    method ParseMemberHere(e: Emitter) returns (ok: bool)
      requires pos <= |data| && error == None && e.Ready() && depth > 0
      requires pos == SkipSpaces(data, pos)
      modifies this, e
      ensures pos <= |data|
      ensures var r := ParseMember(data, old(pos), old(depth));
              && Reports(ok, r, e.failed, error, errorPos) && e.Sane()
              && (ok ==>
                    && pos == r.next && depth == old(depth)
                    && e.out == MemberOut(old(e.out), e.enabled, e.pretty, depth, r.value))
              && (e.failed && r.Ok? ==> e.Filled(MemberOut(old(e.out), e.enabled, e.pretty, old(depth), r.value)))
      decreases |data| - pos, 3
    {
      hide SkipSpaces, Indent, Text, Layout, JsonSpecParser.ParseValue, ScanString;
      ok := ParseKey(e);
      if !ok {
        return;
      }
      SkipWs();
      var matched := MatchChar(':');
      if !matched {
        ParserFail("expected ':' after object key");
        return false;
      }
      ok := EmitColon(e);
      if !ok {
        return;
      }
      ghost var p3 := pos;
      SkipWs();
      SkipTwice(data, p3);
      ok := ParseValue(e);
    }

    method ParseKey(e: Emitter) returns (ok: bool)
      requires pos <= |data| && error == None && e.Ready()
      modifies this`pos, this`error, this`errorPos, e
      ensures pos <= |data|
      ensures var r := ScanString(data, old(pos));
              && Reports(ok, r, e.failed, error, errorPos) && e.Sane()
              && (ok ==> pos == r.next && e.out == old(e.out) + e.Shown(Indent(e.pretty, depth)) + e.Shown(r.value))
              && (e.failed && r.Ok? ==>
                    e.Filled(old(e.out) + e.Shown(Indent(e.pretty, depth)) + e.Shown(r.value)))
    {
      hide Indent, ScanString;
      ok := e.EmitIndentLine(depth);
      if !ok {
        ParserFail("failed to write output");
        return;
      }
      ok := ParseString(e);
    }

    method EmitColon(e: Emitter) returns (ok: bool)
      requires pos <= |data| && error == None && e.Ready()
      modifies this`error, this`errorPos, e
      ensures e.failed == !ok && (ok ==> error == None) && e.Sane()
      ensures ok ==> e.out == old(e.out) + e.Shown(":") + e.Shown(if e.pretty then " " else "")
      ensures !ok ==> e.Filled(old(e.out) + e.Shown(":") + e.Shown(if e.pretty then " " else ""))
    {
      ok := e.EmitChar(':');
      if ok && e.enabled && e.pretty {
        ok := e.EmitChar(' ');
      }
      if !ok {
        ParserFail("failed to write output");
      }
    }

    method ParseDocument(e: Emitter) returns (ok: bool)
      requires pos == 0 && depth == 0 && error == None && e.Ready()
      modifies this, e
      ensures var r := JsonSpecParser.ParseDocument(data);
              && Reports(ok, r, e.failed, error, errorPos) && e.Sane()
              && (ok ==> pos == |data| && e.out == old(e.out) + e.Shown(Text(Layout(e.pretty, 0, r.value))))
              && (e.failed && r.Ok? ==> e.Filled(old(e.out) + e.Shown(Text(Layout(e.pretty, 0, r.value)))))
    {
      hide SkipSpaces, Text, Layout, JsonSpecParser.ParseValue;
      SkipWs();
      SkipTwice(data, 0);
      ok := ParseValue(e);
      if !ok {
        return;
      }
      SkipWs();
      if pos != |data| {
        ParserFail("trailing data after JSON value");
        return false;
      }
    }
  }

  /** The program's two passes, before an output that takes so many characters. The first accepts exactly the JSON
      texts nested at most 128 deep and otherwise knows where the reading broke off. The second prints the text's
      tokens, minified or indented, and fails exactly if they do not fit; whether the line break at the end fits does
      not matter. */
  method Run(data: string, pretty: bool, accepts: nat)
    returns (valid: bool, errorPos: nat, printed: bool, out: string)
    ensures valid == JsonSpecParser.ParseDocument(data).Ok?
    ensures valid <==> IsJsonText(data, MAX_DEPTH)
    ensures !valid ==> errorPos == JsonSpecParser.ParseDocument(data).at <= |data| && !printed && out == ""
    ensures valid ==>
              var whole := Rendered(pretty, Tokens(JsonSpecParser.ParseDocument(data).value)) + "\n";
              && (printed <==> |whole| - 1 <= accepts)
              && out == if |whole| <= accepts then whole else whole[..accepts]
  {
    hide Text, Layout, JsonSpecParser.ParseDocument, Rendered, Tokens, Legal;
    AcceptsExactlyJson(data);
    if JsonSpecParser.ParseDocument(data).Ok? {
      DocumentSound(data);
      PrintedAsRendered(pretty, JsonSpecParser.ParseDocument(data).value);
    }
    var validate := new Parser(data);
    var silent := new Emitter(false, false, accepts);
    valid := validate.ParseDocument(silent);
    errorPos, printed, out := validate.errorPos, false, "";
    if valid {
      var emitParser := new Parser(data);
      var emitter := new Emitter(true, pretty, accepts);
      printed := emitParser.ParseDocument(emitter);
      if printed {
        var last := emitter.EmitChar('\n');
      }
      out := emitter.out;
    }
  }
}
