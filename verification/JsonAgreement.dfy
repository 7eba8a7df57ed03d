/** The deterministic reading accepts exactly the texts of the grammar, and finds their tree. */
module JsonAgreement {
  import opened JsonGrammar
  import opened JsonSpecParser

  /** The text t stands at position p. */
  predicate At(s: string, p: nat, t: string) {
    p + |t| <= |s| && s[p..p + |t|] == t
  }

  lemma AtConcat(s: string, p: nat, a: string, b: string)
    ensures At(s, p, a + b) <==> At(s, p, a) && At(s, p + |a|, b)
  {
    if At(s, p, a + b) {
      assert s[p..p + |a|] == s[p..p + |a + b|][..|a|];
      assert s[p + |a|..p + |a| + |b|] == s[p..p + |a + b|][|a|..];
    }
    if At(s, p, a) && At(s, p + |a|, b) {
      assert s[p..p + |a + b|] == s[p..p + |a|] + s[p + |a|..p + |a| + |b|];
    }
  }

  lemma AtFirst(s: string, p: nat, t: string)
    requires At(s, p, t) && t != ""
    ensures p < |s| && s[p] == t[0]
  {
    assert s[p..p + |t|][0] == t[0];
  }

  /** What the reading may find after a number: nothing that could continue it. */
  predicate Stops(s: string, p: nat) {
    p < |s| ==> !IsDigit(s[p]) && s[p] != '.' && s[p] != 'e' && s[p] != 'E'
  }

  // ---------------------------------------------------------------- white space and digits

  lemma {:induction false} SkipSpacesExactly(s: string, p: nat, w: string)
    requires At(s, p, w) && AllSpaces(w)
    requires p + |w| == |s| || !IsSpace(s[p + |w|])
    ensures SkipSpaces(s, p) == p + |w|
    decreases |w|
  {
    if w != "" {
      AtFirst(s, p, w);
      assert s[p + 1..p + |w|] == s[p..p + |w|][1..];
      assert w[1..] == s[p + 1..p + 1 + |w[1..]|];
      SkipSpacesExactly(s, p + 1, w[1..]);
    }
  }

  lemma {:induction false} SkipDigitsExactly(s: string, p: nat, w: string)
    requires At(s, p, w) && AllDigits(w) && !SeesDigit(s, p + |w|)
    ensures SkipDigits(s, p) == p + |w|
    decreases |w|
  {
    if w != "" {
      AtFirst(s, p, w);
      assert s[p + 1..p + |w|] == s[p..p + |w|][1..];
      assert w[1..] == s[p + 1..p + 1 + |w[1..]|];
      SkipDigitsExactly(s, p + 1, w[1..]);
    }
  }

  // ---------------------------------------------------------------- strings

  lemma {:induction false} StringTailSound(s: string, p: nat)
    requires p <= |s| && ScanStringTail(s, p).Ok?
    ensures IsStringTail(s[p..ScanStringTail(s, p).next])
    decreases |s| - p
  {
    var q := ScanStringTail(s, p).next;
    var t := s[p..q];
    if s[p] == '"' {
    } else if s[p] != '\\' {
      StringTailSound(s, p + 1);
      assert t[1..] == s[p + 1..q];
    } else if SimpleEscape(s[p + 1]) {
      StringTailSound(s, p + 2);
      assert t[2..] == s[p + 2..q];
    } else {
      StringTailSound(s, p + 6);
      assert t[6..] == s[p + 6..q];
    }
  }

  lemma {:induction false} StringTailComplete(s: string, p: nat, t: string)
    requires At(s, p, t) && IsStringTail(t)
    ensures ScanStringTail(s, p) == Ok((), p + |t|)
    decreases |t|
  {
    AtFirst(s, p, t);
    assert forall i :: 0 <= i < |t| ==> s[p + i] == t[i] by {
      assert forall i :: 0 <= i < |t| ==> s[p..p + |t|][i] == t[i];
    }
    if t == "\"" {
    } else if Unescaped(t[0]) && IsStringTail(t[1..]) {
      Drop(s, p, t, 1);
      StringTailComplete(s, p + 1, t[1..]);
    } else if |t| > 1 && t[0] == '\\' && SimpleEscape(t[1]) && IsStringTail(t[2..]) {
      assert s[p + 1] == t[1];
      Drop(s, p, t, 2);
      StringTailComplete(s, p + 2, t[2..]);
    } else {
      assert s[p + 1] == t[1] && s[p + 2] == t[2] && s[p + 3] == t[3] && s[p + 4] == t[4] && s[p + 5] == t[5];
      Drop(s, p, t, 6);
      StringTailComplete(s, p + 6, t[6..]);
    }
  }

  lemma Drop(s: string, p: nat, t: string, k: nat)
    requires At(s, p, t) && k <= |t|
    ensures At(s, p + k, t[k..])
  {
    assert t[..k] + t[k..] == t;
    AtConcat(s, p, t[..k], t[k..]);
  }

  lemma StringSound(s: string, p: nat)
    requires p <= |s| && ScanString(s, p).Ok?
    ensures IsString(ScanString(s, p).value)
  {
    StringTailSound(s, p + 1);
    var q := ScanString(s, p).next;
    assert s[p..q][1..] == s[p + 1..q];
  }

  lemma StringComplete(s: string, p: nat, t: string)
    requires At(s, p, t) && IsString(t)
    ensures ScanString(s, p) == Ok(t, p + |t|)
  {
    AtFirst(s, p, t);
    Drop(s, p, t, 1);
    StringTailComplete(s, p + 1, t[1..]);
  }

  // ---------------------------------------------------------------- numbers

  lemma NumberSound(s: string, p: nat)
    requires p <= |s| && ScanNumber(s, p).Ok?
    ensures IsNumber(ScanNumber(s, p).value)
  {
    hide LegalWhole, LegalFraction, LegalExponent, ScanWhole, ScanFraction, ScanExponent;
    var p0 := if Sees(s, p, '-') then p + 1 else p;
    var p1 := ScanWhole(s, p0).next;
    var p2 := ScanFraction(s, p1).next;
    var p3 := ScanExponent(s, p2).next;
    WholeSound(s, p0);
    FractionSound(s, p1);
    ExponentSound(s, p2);
    var parts := NumberParts(s[p..p0], s[p0..p1], s[p1..p2], s[p2..p3]);
    Join(s, p1, p2, p3);
    Join(s, p0, p1, p3);
    Join(s, p, p0, p3);
    assert parts.Legal() && s[p..p3] == parts.Text();
  }

  lemma Join(s: string, a: nat, b: nat, c: nat)
    requires a <= b <= c <= |s|
    ensures s[a..c] == s[a..b] + s[b..c]
  {}

  lemma WholeSound(s: string, p: nat)
    requires p <= |s| && ScanWhole(s, p).Ok?
    ensures var whole := s[p..ScanWhole(s, p).next];
            LegalWhole(whole)
  {}

  lemma FractionSound(s: string, p: nat)
    requires p <= |s| && ScanFraction(s, p).Ok?
    ensures var frac := s[p..ScanFraction(s, p).next];
            frac == "" || LegalFraction(frac)
  {
    var q := ScanFraction(s, p).next;
    if q > p {
      assert s[p..q][1..] == s[p + 1..q];
    }
  }

  lemma ExponentSound(s: string, p: nat)
    requires p <= |s| && ScanExponent(s, p).Ok?
    ensures var exp := s[p..ScanExponent(s, p).next]; exp == "" || LegalExponent(exp)
  {
    var q := ScanExponent(s, p).next;
    if q > p {
      var exp := s[p..q];
      assert exp[1..] == s[p + 1..q];
      if Sees(s, p + 1, '+') || Sees(s, p + 1, '-') {
        assert exp[2..] == s[p + 2..q];
      } else {
        assert exp[1] == s[p + 1];
      }
    }
  }

  lemma NumberComplete(s: string, p: nat, t: string)
    requires At(s, p, t) && IsNumber(t) && Stops(s, p + |t|)
    ensures ScanNumber(s, p) == Ok(t, p + |t|)
  {
    hide LegalExponent, ScanWhole, ScanFraction, ScanExponent, Stops, At;
    var parts: NumberParts :| parts.Legal() && t == parts.Text();
    var NumberParts(minus, whole, frac, exp) := parts;
    AtConcat(s, p, minus, whole + (frac + exp));
    var p0 := p + |minus|;
    AtConcat(s, p0, whole, frac + exp);
    var p1 := p0 + |whole|;
    AtConcat(s, p1, frac, exp);
    var p2 := p1 + |frac|;
    AtFirst(s, p0, whole);
    if minus != "" {
      AtFirst(s, p, minus);
    } else {
      WholeIsNotMinus(whole);
    }
    ExponentComplete(s, p2, exp);
    FractionComplete(s, p1, frac);
    WholeComplete(s, p0, whole);
    AtSlice(s, p, t);
  }

  lemma WholeIsNotMinus(whole: string)
    requires LegalWhole(whole)
    ensures whole[0] != '-'
  {
    assert whole[0] in whole;
  }

  lemma AtSlice(s: string, p: nat, t: string)
    requires At(s, p, t)
    ensures p + |t| <= |s| && s[p..p + |t|] == t
  {}

  /** After the whole part and after the fraction, what follows does not continue them. */
  predicate NoDigitOrPoint(s: string, p: nat) {
    p < |s| ==> !IsDigit(s[p]) && s[p] != '.'
  }

  lemma DigitsBegin(w: string)
    requires w != "" && AllDigits(w)
    ensures IsDigit(w[0])
  {
    assert w[0] in w;
  }

  lemma ExponentComplete(s: string, p: nat, exp: string)
    requires At(s, p, exp) && (exp == "" || LegalExponent(exp)) && Stops(s, p + |exp|)
    ensures ScanExponent(s, p) == Ok((), p + |exp|)
    ensures NoDigitOrPoint(s, p)
  {
    hide AllDigits, SkipDigits;
    if exp != "" {
      AtFirst(s, p, exp);
      Drop(s, p, exp, 1);
      AtFirst(s, p + 1, exp[1..]);
      var k := if exp[1] == '+' || exp[1] == '-' then 2 else 1;
      Drop(s, p, exp, k);
      AtFirst(s, p + k, exp[k..]);
      DigitsBegin(exp[k..]);
      SkipDigitsExactly(s, p + k, exp[k..]);
    }
  }

  lemma FractionComplete(s: string, p: nat, frac: string)
    requires At(s, p, frac) && (frac == "" || LegalFraction(frac))
    requires NoDigitOrPoint(s, p + |frac|)
    ensures ScanFraction(s, p) == Ok((), p + |frac|) && !SeesDigit(s, p)
  {
    if frac != "" {
      AtFirst(s, p, frac);
      Drop(s, p, frac, 1);
      AtFirst(s, p + 1, frac[1..]);
      SkipDigitsExactly(s, p + 1, frac[1..]);
    }
  }

  lemma WholeComplete(s: string, p: nat, whole: string)
    requires At(s, p, whole) && LegalWhole(whole)
    requires !SeesDigit(s, p + |whole|)
    ensures ScanWhole(s, p) == Ok((), p + |whole|)
  {
    AtFirst(s, p, whole);
    if whole[0] != '0' {
      SkipDigitsExactly(s, p, whole);
    }
  }

  // ---------------------------------------------------------------- values: what is read is legal text

  lemma {:induction false} ValueSound(s: string, p: nat, depth: nat)
    requires p <= |s| && depth <= MAX_DEPTH && ParseValue(s, p, depth).Ok?
    ensures var r := ParseValue(s, p, depth);
            s[p..r.next] == Text(r.value) && Legal(r.value) && depth + Depth(r.value) <= MAX_DEPTH
    decreases |s| - p, 1
  {
    hide IsString, IsNumber, AllSpaces, ScanNumber, ScanString;
    if s[p] == '{' {
      ObjectSound(s, p, depth);
    } else if s[p] == '[' {
      ArraySound(s, p, depth);
    } else if s[p] == '"' {
      StringSound(s, p);
    } else if s[p] == '-' || IsDigit(s[p]) {
      NumberSound(s, p);
    }
  }

  lemma ArraySound(s: string, p: nat, depth: nat)
    requires Sees(s, p, '[') && depth <= MAX_DEPTH && ParseArray(s, p, depth).Ok?
    ensures var r := ParseArray(s, p, depth);
            s[p..r.next] == Text(r.value) && Legal(r.value) && depth + Depth(r.value) <= MAX_DEPTH
    decreases |s| - p, 0
  {
    hide AllSpaces, IsSpace, SkipSpaces, ParseItems, ItemsText, LegalItems, ItemsDepth, MembersText, LegalMembers,
        MembersDepth;
    var p1 := SkipSpaces(s, p + 1);
    var q := ParseArray(s, p, depth).next;
    FirstChar(s, p, q);
    if Sees(s, p1, ']') {
      Join(s, p + 1, p1, q);
    } else {
      ItemsSound(s, p + 1, depth + 1);
    }
  }

  lemma ObjectSound(s: string, p: nat, depth: nat)
    requires Sees(s, p, '{') && depth <= MAX_DEPTH && ParseObject(s, p, depth).Ok?
    ensures var r := ParseObject(s, p, depth);
            s[p..r.next] == Text(r.value) && Legal(r.value) && depth + Depth(r.value) <= MAX_DEPTH
    decreases |s| - p, 0
  {
    hide AllSpaces, IsSpace, SkipSpaces, ParseMembers, ItemsText, LegalItems, ItemsDepth, MembersText, LegalMembers,
        MembersDepth;
    var p1 := SkipSpaces(s, p + 1);
    var q := ParseObject(s, p, depth).next;
    FirstChar(s, p, q);
    if Sees(s, p1, '}') {
      Join(s, p + 1, p1, q);
    } else {
      MembersSound(s, p + 1, depth + 1);
    }
  }

  lemma {:induction false} ItemsSound(s: string, p: nat, depth: nat)
    requires p <= |s| && depth <= MAX_DEPTH && ParseItems(s, p, depth).Ok?
    ensures var r := ParseItems(s, p, depth);
            s[p..r.next] == ItemsText(r.value) && LegalItems(r.value) && depth + ItemsDepth(r.value) <= MAX_DEPTH
    decreases |s| - p, 2
  {
    hide AllSpaces, ParseValue, Text, Legal, Depth;
    var p1 := SkipSpaces(s, p);
    ValueSound(s, p1, depth);
    var p2 := ParseValue(s, p1, depth).next;
    var p3 := SkipSpaces(s, p2);
    var q := ParseItems(s, p, depth).next;
    FourPieces(s, p, p1, p2, p3, q);
    if Sees(s, p3, ',') {
      FirstChar(s, p3, q);
      ItemsSound(s, p3 + 1, depth);
    }
  }

  lemma FourPieces(s: string, a: nat, b: nat, c: nat, d: nat, e: nat)
    requires a <= b <= c <= d <= e <= |s|
    ensures s[a..e] == s[a..b] + (s[b..c] + (s[c..d] + s[d..e]))
  {
    Join(s, a, b, e);
    Join(s, b, c, e);
    Join(s, c, d, e);
  }

  lemma FirstChar(s: string, a: nat, b: nat)
    requires a < b <= |s|
    ensures s[a..b] == [s[a]] + s[a + 1..b]
  {}

  lemma MemberSound(s: string, p: nat, depth: nat)
    requires p <= |s| && depth <= MAX_DEPTH && ParseMember(s, p, depth).Ok?
    ensures var r := ParseMember(s, p, depth); var m := r.value;
            && s[p..r.next] == m.before + (m.key + (m.afterKey + (":" + (m.beforeValue + Text(m.value)))))
            && AllSpaces(m.before) && IsString(m.key) && AllSpaces(m.afterKey) && AllSpaces(m.beforeValue)
            && Legal(m.value) && depth + Depth(m.value) <= MAX_DEPTH
    decreases |s| - p, 2
  {
    hide AllSpaces, IsSpace, SkipSpaces, ParseValue, Text, Legal, Depth, IsString, ScanString;
    var p1 := SkipSpaces(s, p);
    StringSound(s, p1);
    var p2 := ScanString(s, p1).next;
    var p3 := SkipSpaces(s, p2);
    var p4 := SkipSpaces(s, p3 + 1);
    ValueSound(s, p4, depth);
    var q := ParseValue(s, p4, depth).next;
    FourPieces(s, p, p1, p2, p3, q);
    FirstChar(s, p3, q);
    Join(s, p3 + 1, p4, q);
  }

  lemma {:induction false} MembersSound(s: string, p: nat, depth: nat)
    requires p <= |s| && depth <= MAX_DEPTH && ParseMembers(s, p, depth).Ok?
    ensures var r := ParseMembers(s, p, depth);
            s[p..r.next] == MembersText(r.value) && LegalMembers(r.value) && depth + MembersDepth(r.value) <= MAX_DEPTH
    decreases |s| - p, 3
  {
    hide AllSpaces, ParseMember, Text, Legal, Depth, IsString, SkipSpaces;
    MemberSound(s, p, depth);
    var m := ParseMember(s, p, depth).value;
    var p5 := ParseMember(s, p, depth).next;
    var p6 := SkipSpaces(s, p5);
    var q := ParseMembers(s, p, depth).next;
    Join(s, p, p5, q);
    Join(s, p5, p6, q);
    if Sees(s, p6, ',') {
      FirstChar(s, p6, q);
      MembersSound(s, p6 + 1, depth);
    }
    Reassociate(m.before, m.key, m.afterKey, ":", m.beforeValue, Text(m.value), s[p5..q]);
  }

  lemma Reassociate(a: string, b: string, c: string, d: string, e: string, f: string, g: string)
    ensures (a + (b + (c + (d + (e + f))))) + g == a + (b + (c + (d + (e + (f + g)))))
  {
    assert (e + f) + g == e + (f + g);
    assert (d + (e + f)) + g == d + ((e + f) + g);
    assert (c + (d + (e + f))) + g == c + ((d + (e + f)) + g);
    assert (b + (c + (d + (e + f)))) + g == b + ((c + (d + (e + f))) + g);
  }

  // ---------------------------------------------------------------- values: legal text is read

  /** How the text of a value begins. */
  lemma Begins(v: Value)
    requires Legal(v)
    ensures Text(v) != "" && !IsSpace(Text(v)[0]) && Text(v)[0] != ']' && Text(v)[0] != '}'
    ensures v.Array? || v.EmptyArray? ==> Text(v)[0] == '['
    ensures v.Object? || v.EmptyObject? ==> Text(v)[0] == '{'
    ensures v.String? ==> Text(v)[0] == '"'
    ensures v.Literal? ==> Text(v)[0] in {'t', 'f', 'n'} && LiteralOf(Text(v)[0]) == v.token
    ensures v.Number? ==> Text(v)[0] == '-' || IsDigit(Text(v)[0])
  {
    hide IsStringTail;
    if v.Number? {
      NumberBegins(v.token);
    }
  }

  lemma NumberBegins(t: string)
    requires IsNumber(t)
    ensures t != "" && (t[0] == '-' || IsDigit(t[0]))
  {
    var parts: NumberParts :| parts.Legal() && t == parts.Text();
    WholeBegins(parts.whole);
    if parts.minus == "" {
      assert t == parts.whole + (parts.frac + parts.exp);
    }
  }

  lemma WholeBegins(whole: string)
    requires LegalWhole(whole)
    ensures whole != "" && IsDigit(whole[0])
  {
    assert whole[0] in whole;
  }

  /** White space stops before a character that is not white space. */
  lemma SpacesThen(s: string, p: nat, w: string, t: string)
    requires At(s, p, w + t) && AllSpaces(w) && t != "" && !IsSpace(t[0])
    ensures SkipSpaces(s, p) == p + |w| && At(s, p + |w|, t) && s[p + |w|] == t[0]
  {
    AtConcat(s, p, w, t);
    AtFirst(s, p + |w|, t);
    SkipSpacesExactly(s, p, w);
  }

  lemma {:induction false} ValueComplete(s: string, p: nat, depth: nat, v: Value)
    requires Legal(v) && depth + Depth(v) <= MAX_DEPTH
    requires At(s, p, Text(v)) && Stops(s, p + |Text(v)|)
    ensures ParseValue(s, p, depth) == Ok(v, p + |Text(v)|)
    decreases v, 0
  {
    hide IsStringTail, IsNumber, IsString, AllSpaces, ParseObject, ParseArray, ScanNumber, ScanString;
    Begins(v);
    AtFirst(s, p, Text(v));
    match v
    case Literal(t) =>
    case String(t) => StringComplete(s, p, t);
    case Number(t) => NumberComplete(s, p, t);
    case EmptyArray(w) => EmptyArrayComplete(s, p, depth, w);
    case Array(items) => ArrayComplete(s, p, depth, items);
    case EmptyObject(w) => EmptyObjectComplete(s, p, depth, w);
    case Object(members) => ObjectComplete(s, p, depth, members);
  }

  lemma EmptyArrayComplete(s: string, p: nat, depth: nat, w: string)
    requires AllSpaces(w) && At(s, p, "[" + w + "]") && Sees(s, p, '[')
    ensures ParseArray(s, p, depth) == Ok(EmptyArray(w), p + |w| + 2)
  {
    assert "[" + w + "]" == "[" + (w + "]");
    AtConcat(s, p, "[", w + "]");
    SpacesThen(s, p + 1, w, "]");
    AtConcat(s, p + 1, w, "]");
  }

  lemma EmptyObjectComplete(s: string, p: nat, depth: nat, w: string)
    requires AllSpaces(w) && At(s, p, "{" + w + "}") && Sees(s, p, '{')
    ensures ParseObject(s, p, depth) == Ok(EmptyObject(w), p + |w| + 2)
  {
    assert "{" + w + "}" == "{" + (w + "}");
    AtConcat(s, p, "{", w + "}");
    SpacesThen(s, p + 1, w, "}");
    AtConcat(s, p + 1, w, "}");
  }

  lemma {:induction false} ArrayComplete(s: string, p: nat, depth: nat, items: Items)
    requires LegalItems(items) && depth + 1 + ItemsDepth(items) <= MAX_DEPTH
    requires At(s, p, "[" + ItemsText(items)) && Sees(s, p, '[')
    ensures ParseArray(s, p, depth) == Ok(Array(items), p + 1 + |ItemsText(items)|)
    decreases items, 3
  {
    hide ParseItems, AllSpaces;
    AtConcat(s, p, "[", ItemsText(items));
    ItemsBegin(items);
    SpacesThen(s, p + 1, items.before, ItemsText(items)[|items.before|..]);
    ItemsComplete(s, p + 1, depth + 1, items);
  }

  lemma ItemsBegin(items: Items)
    requires LegalItems(items)
    ensures |items.before| < |ItemsText(items)|
    ensures var t := ItemsText(items)[|items.before|..];
            ItemsText(items) == items.before + t && !IsSpace(t[0]) && t[0] != ']'
  {
    Begins(items.value);
  }

  lemma {:induction false} ObjectComplete(s: string, p: nat, depth: nat, m: Members)
    requires LegalMembers(m) && depth + 1 + MembersDepth(m) <= MAX_DEPTH
    requires At(s, p, "{" + MembersText(m)) && Sees(s, p, '{')
    ensures ParseObject(s, p, depth) == Ok(Object(m), p + 1 + |MembersText(m)|)
    decreases m, 3
  {
    hide ParseMembers, AllSpaces;
    AtConcat(s, p, "{", MembersText(m));
    MembersBegin(m);
    SpacesThen(s, p + 1, m.before, MembersText(m)[|m.before|..]);
    MembersComplete(s, p + 1, depth + 1, m);
  }

  lemma MembersBegin(m: Members)
    requires LegalMembers(m)
    ensures |m.before| < |MembersText(m)|
    ensures var t := MembersText(m)[|m.before|..];
            MembersText(m) == m.before + t && !IsSpace(t[0]) && t[0] != '}'
  {}

  /** What may follow a value: white space and then a comma or a closing bracket. */
  lemma StopsAfter(s: string, p: nat, w: string, t: string)
    requires At(s, p, w + t) && AllSpaces(w) && t != "" && t[0] in {',', ']', '}'}
    ensures Stops(s, p)
  {
    AtFirst(s, p, w + t);
    if w != "" {
      assert w[0] in w;
    }
  }

  /** A value between white space, up to the character after it. */
  lemma {:induction false} PaddedValueComplete(s: string, p: nat, depth: nat, before: string, value: Value,
                                               after: string, tail: string)
    requires AllSpaces(before) && Legal(value) && AllSpaces(after) && depth + Depth(value) <= MAX_DEPTH
    requires tail != "" && tail[0] in {',', ']', '}'}
    requires At(s, p, before + (Text(value) + (after + tail)))
    ensures var p1 := p + |before|; var p2 := p1 + |Text(value)|; var p3 := p2 + |after|;
            && p3 < |s| && s[p3] == tail[0] && At(s, p3, tail)
            && SkipSpaces(s, p) == p1 && s[p..p1] == before
            && ParseValue(s, p1, depth) == Ok(value, p2)
            && SkipSpaces(s, p2) == p3 && s[p2..p3] == after
    decreases value, 1
  {
    hide AllSpaces, ParseValue, Text, Legal, Depth, Stops, At;
    var t := Text(value);
    var p1 := p + |before|;
    var p2 := p1 + |t|;
    Begins(value);
    assert (t + (after + tail))[0] == t[0];
    SpacesThen(s, p, before, t + (after + tail));
    AtConcat(s, p, before, t + (after + tail));
    AtSlice(s, p, before);
    AtConcat(s, p1, t, after + tail);
    SpacesThen(s, p2, after, tail);
    StopsAfter(s, p2, after, tail);
    AtConcat(s, p2, after, tail);
    AtSlice(s, p2, after);
    ValueComplete(s, p1, depth, value);
  }

  lemma ParseItemsUnfold(s: string, p: nat, depth: nat, v: Value, p2: nat)
    requires p <= |s|
    ensures ParseValue(s, SkipSpaces(s, p), depth) == Ok(v, p2) ==>
              var p1 := SkipSpaces(s, p); var p3 := SkipSpaces(s, p2);
              && (Sees(s, p3, ']') ==> ParseItems(s, p, depth) == Ok(LastItem(s[p..p1], v, s[p2..p3]), p3 + 1))
              && (Sees(s, p3, ',') && ParseItems(s, p3 + 1, depth).Ok? ==>
                    var r := ParseItems(s, p3 + 1, depth);
                    ParseItems(s, p, depth) == Ok(MoreItems(s[p..p1], v, s[p2..p3], r.value), r.next))
  {
    hide SkipSpaces, IsSpace, AllSpaces;
  }

  lemma {:induction false} ItemsComplete(s: string, p: nat, depth: nat, items: Items)
    requires LegalItems(items) && depth + ItemsDepth(items) <= MAX_DEPTH && At(s, p, ItemsText(items))
    ensures ParseItems(s, p, depth) == Ok(items, p + |ItemsText(items)|)
    decreases items, 2
  {
    hide AllSpaces, ParseValue, ParseItems, Text, Legal, Depth, At, SkipSpaces, IsSpace;
    AtSlice(s, p, ItemsText(items));
    ParseItemsUnfold(s, p, depth, items.value, p + |items.before| + |Text(items.value)|);
    if items.LastItem? {
      PaddedValueComplete(s, p, depth, items.before, items.value, items.after, "]");
    } else {
      PaddedValueComplete(s, p, depth, items.before, items.value, items.after, "," + ItemsText(items.rest));
      var p3 := p + |items.before| + |Text(items.value)| + |items.after|;
      AtConcat(s, p3, ",", ItemsText(items.rest));
      ItemsComplete(s, p3 + 1, depth, items.rest);
    }
  }

  /** A key between white space, up to the character after it. */
  lemma PaddedKeyComplete(s: string, p: nat, before: string, key: string, after: string, tail: string)
    requires AllSpaces(before) && IsString(key) && AllSpaces(after) && tail != "" && !IsSpace(tail[0])
    requires At(s, p, before + (key + (after + tail)))
    ensures var p1 := p + |before|; var p2 := p1 + |key|; var p3 := p2 + |after|;
            && p3 < |s| && s[p3] == tail[0] && At(s, p3, tail)
            && SkipSpaces(s, p) == p1 && s[p..p1] == before
            && ScanString(s, p1) == Ok(key, p2)
            && SkipSpaces(s, p2) == p3 && s[p2..p3] == after
  {
    hide AllSpaces, At, IsStringTail, ScanString;
    var p1 := p + |before|;
    var p2 := p1 + |key|;
    assert (key + (after + tail))[0] == key[0];
    SpacesThen(s, p, before, key + (after + tail));
    AtConcat(s, p, before, key + (after + tail));
    AtSlice(s, p, before);
    AtConcat(s, p1, key, after + tail);
    StringComplete(s, p1, key);
    SpacesThen(s, p2, after, tail);
    AtConcat(s, p2, after, tail);
    AtSlice(s, p2, after);
  }

  function MemberEnd(m: Members, p: nat): nat {
    p + |m.before| + |m.key| + |m.afterKey| + 1 + |m.beforeValue| + |Text(m.value)|
  }

  lemma {:induction false} MemberComplete(s: string, p: nat, depth: nat, m: Members, tail: string)
    requires LegalMembers(m) && depth + Depth(m.value) <= MAX_DEPTH
    requires tail != "" && tail[0] in {',', '}'}
    requires At(s, p, m.before + (m.key + (m.afterKey + (":" + (m.beforeValue + (Text(m.value) + (m.after + tail)))))))
    ensures ParseMember(s, p, depth)
            == Ok(Member(m.before, m.key, m.afterKey, m.beforeValue, m.value), MemberEnd(m, p))
    ensures var p5 := MemberEnd(m, p); var p6 := p5 + |m.after|;
            && p6 < |s| && s[p6] == tail[0] && At(s, p6, tail)
            && SkipSpaces(s, p5) == p6 && s[p5..p6] == m.after
    decreases m, 1
  {
    hide AllSpaces, ParseValue, Text, Legal, Depth, At, IsString, ScanString, SkipSpaces, MembersText, MembersDepth;
    var t4 := m.beforeValue + (Text(m.value) + (m.after + tail));
    PaddedKeyComplete(s, p, m.before, m.key, m.afterKey, ":" + t4);
    var p3 := p + |m.before| + |m.key| + |m.afterKey|;
    AtConcat(s, p3, ":", t4);
    PaddedValueComplete(s, p3 + 1, depth, m.beforeValue, m.value, m.after, tail);
  }

  lemma {:induction false} MembersComplete(s: string, p: nat, depth: nat, m: Members)
    requires LegalMembers(m) && depth + MembersDepth(m) <= MAX_DEPTH && At(s, p, MembersText(m))
    ensures ParseMembers(s, p, depth) == Ok(m, p + |MembersText(m)|)
    decreases m, 2
  {
    hide AllSpaces, ParseMember, Text, Legal, Depth, At, IsString;
    if m.LastMember? {
      MemberComplete(s, p, depth, m, "}");
    } else {
      MemberComplete(s, p, depth, m, "," + MembersText(m.rest));
      var p6 := MemberEnd(m, p) + |m.after|;
      AtConcat(s, p6, ",", MembersText(m.rest));
      MembersComplete(s, p6 + 1, depth, m.rest);
    }
  }

  // ---------------------------------------------------------------- whole texts

  /** The reading accepts exactly the JSON texts with at most 128 nested non-empty containers. */
  lemma AcceptsExactlyJson(s: string)
    ensures ParseDocument(s).Ok? <==> IsJsonText(s, MAX_DEPTH)
  {
    if ParseDocument(s).Ok? {
      DocumentSound(s);
    }
    if IsJsonText(s, MAX_DEPTH) {
      var before, v, after :| IsDocument(s, MAX_DEPTH, before, v, after);
      DocumentComplete(s, before, v, after);
    }
  }

  lemma DocumentSound(s: string)
    requires ParseDocument(s).Ok?
    ensures IsJsonText(s, MAX_DEPTH) && Legal(ParseDocument(s).value) && Depth(ParseDocument(s).value) <= MAX_DEPTH
  {
    hide AllSpaces, ParseValue, Text, Legal, Depth;
    var p := SkipSpaces(s, 0);
    ValueSound(s, p, 0);
    var r := ParseValue(s, p, 0);
    Join(s, 0, p, |s|);
    Join(s, p, r.next, |s|);
    assert s == s[0..|s|];
    assert IsDocument(s, MAX_DEPTH, s[0..p], r.value, s[r.next..|s|]);
  }

  /** The tree of a text is unique. */
  lemma DocumentComplete(s: string, before: string, v: Value, after: string)
    requires IsDocument(s, MAX_DEPTH, before, v, after)
    ensures ParseDocument(s) == Ok(v, |s|)
  {
    hide AllSpaces, IsSpace, SkipSpaces, ParseValue, Text, Legal, Depth, Stops, At;
    Begins(v);
    var t := Text(v);
    WholeAt(s);
    AtConcat(s, 0, before, t + after);
    assert (t + after)[0] == t[0];
    SpacesThen(s, 0, before, t + after);
    var p := |before|;
    AtConcat(s, p, t, after);
    StopsAtSpaces(s, p + |t|, after);
    ValueComplete(s, p, 0, v);
    SkipSpacesExactly(s, p + |t|, after);
  }

  lemma WholeAt(s: string)
    ensures At(s, 0, s)
  {}

  lemma StopsAtSpaces(s: string, p: nat, w: string)
    requires At(s, p, w) && AllSpaces(w) && p + |w| == |s|
    ensures Stops(s, p)
  {
    if w != "" {
      AtFirst(s, p, w);
      assert w[0] in w;
    }
  }

  // ---------------------------------------------------------------- printing

  /** What the program writes for an accepted text: its value laid out, and a line break. */
  function Printed(pretty: bool, v: Value): string {
    Text(Layout(pretty, 0, v)) + "\n"
  }

  /** The output is accepted again, with the tree of the chosen layout. */
  lemma PrintedIsAccepted(pretty: bool, v: Value)
    requires Legal(v) && Depth(v) <= MAX_DEPTH
    ensures ParseDocument(Printed(pretty, v)) == Ok(Layout(pretty, 0, v), |Printed(pretty, v)|)
  {
    hide Legal, Text, Depth, ParseDocument, Layout;
    LayoutKeepsTokens(pretty, 0, v);
    var l := Layout(pretty, 0, v);
    assert "" + (Text(l) + "\n") == Text(l) + "\n";
    DocumentComplete(Printed(pretty, v), "", l, "\n");
  }

  /** Printing an accepted text keeps its tokens, and printing the output again in any layout
      gives what printing the input in that layout gives: both modes are idempotent, and minifying
      an indented text is minifying the original. */
  lemma PrintingTwice(s: string, p: bool, q: bool)
    requires IsJsonText(s, MAX_DEPTH)
    ensures ParseDocument(s).Ok?
    ensures var v := ParseDocument(s).value; var out := Printed(q, v);
            && ParseDocument(out).Ok?
            && Tokens(ParseDocument(out).value) == Tokens(v)
            && Printed(p, ParseDocument(out).value) == Printed(p, v)
  {
    hide Legal, Text, Depth, ParseDocument, Layout;
    AcceptsExactlyJson(s);
    DocumentSound(s);
    var v := ParseDocument(s).value;
    PrintedIsAccepted(q, v);
    LayoutKeepsTokens(q, 0, v);
    LayoutOfLayout(p, q, 0, v);
  }
}
