/** A deterministic reading of JSON texts. A parse starts at a position of the text and yields what
    was read and the next position, or where and why it failed. */
module JsonSpecParser {
  import opened JsonGrammar

  const MAX_DEPTH: nat := 128

  datatype Parse<+T> = Ok(value: T, next: nat) | Fail(at: nat, why: string)

  /** The character at a position; beyond the end there is none. */
  predicate Sees(s: string, p: nat, c: char) {
    p < |s| && s[p] == c
  }

  predicate SeesDigit(s: string, p: nat) {
    p < |s| && IsDigit(s[p])
  }

  function SkipSpaces(s: string, p: nat): (q: nat)
    requires p <= |s|
    ensures p <= q <= |s| && AllSpaces(s[p..q]) && (q == |s| || !IsSpace(s[q]))
    decreases |s| - p
  {
    if p < |s| && IsSpace(s[p]) then
      var q := SkipSpaces(s, p + 1);
      assert s[p..q] == [s[p]] + s[p + 1..q];
      q
    else p
  }

  function SkipDigits(s: string, p: nat): (q: nat)
    requires p <= |s|
    ensures p <= q <= |s| && AllDigits(s[p..q]) && !SeesDigit(s, q)
    decreases |s| - p
  {
    if SeesDigit(s, p) then
      var q := SkipDigits(s, p + 1);
      assert s[p..q] == [s[p]] + s[p + 1..q];
      q
    else p
  }

  // ---------------------------------------------------------------- tokens

  function ScanLiteral(s: string, p: nat, word: string): (r: Parse<string>)
    requires p <= |s| && word != ""
    ensures r.Ok? ==> p < r.next <= |s|
    ensures r.Fail? ==> r.at <= |s|
  {
    if |s| - p < |word| then Fail(p, "unexpected end while reading literal")
    else if s[p..p + |word|] != word then Fail(p, "invalid literal")
    else Ok(word, p + |word|)
  }

  /** The rest of a string, from after its opening quotation mark; the value is not used. */
  function ScanStringTail(s: string, p: nat): (r: Parse<()>)
    requires p <= |s|
    ensures r.Ok? ==> p < r.next <= |s|
    ensures r.Fail? ==> r.at <= |s|
    decreases |s| - p
  {
    if p == |s| then Fail(p, "unterminated string")
    else if s[p] < ' ' then Fail(p + 1, "control character in string")
    else if s[p] == '"' then Ok((), p + 1)
    else if s[p] != '\\' then ScanStringTail(s, p + 1)
    else if p + 1 == |s| then Fail(p + 1, "unfinished escape sequence")
    else if SimpleEscape(s[p + 1]) then ScanStringTail(s, p + 2)
    else if s[p + 1] != 'u' then Fail(p + 2, "invalid escape sequence")
    else if |s| - (p + 2) < 4 then Fail(p + 2, "short \\u escape")
    else if !IsHex(s[p + 2]) then Fail(p + 3, "invalid hex in \\u escape")
    else if !IsHex(s[p + 3]) then Fail(p + 4, "invalid hex in \\u escape")
    else if !IsHex(s[p + 4]) then Fail(p + 5, "invalid hex in \\u escape")
    else if !IsHex(s[p + 5]) then Fail(p + 6, "invalid hex in \\u escape")
    else ScanStringTail(s, p + 6)
  }

  function ScanString(s: string, p: nat): (r: Parse<string>)
    requires p <= |s|
    ensures r.Ok? ==> p < r.next <= |s| && r.value == s[p..r.next]
    ensures r.Fail? ==> r.at <= |s|
  {
    if !Sees(s, p, '"') then Fail(p, "expected string")
    else
      match ScanStringTail(s, p + 1)
      case Fail(at, why) => Fail(at, why)
      case Ok(_, q) => Ok(s[p..q], q)
  }

  function ScanWhole(s: string, p: nat): (r: Parse<()>)
    requires p <= |s|
    ensures r.Ok? ==> p < r.next <= |s|
    ensures r.Fail? ==> r.at <= |s|
  {
    if p == |s| then Fail(p, "incomplete number")
    else if s[p] == '0' then Ok((), p + 1)
    else if !IsDigit(s[p]) then Fail(p, "invalid number")
    else Ok((), SkipDigits(s, p))
  }

  function ScanFraction(s: string, p: nat): (r: Parse<()>)
    requires p <= |s|
    ensures r.Ok? ==> p <= r.next <= |s|
    ensures r.Fail? ==> r.at <= |s|
  {
    if !Sees(s, p, '.') then Ok((), p)
    else if !SeesDigit(s, p + 1) then Fail(p + 1, "fraction has no digits")
    else Ok((), SkipDigits(s, p + 1))
  }

  function ScanExponent(s: string, p: nat): (r: Parse<()>)
    requires p <= |s|
    ensures r.Ok? ==> p <= r.next <= |s|
    ensures r.Fail? ==> r.at <= |s|
  {
    if !Sees(s, p, 'e') && !Sees(s, p, 'E') then Ok((), p)
    else
      var q := if Sees(s, p + 1, '+') || Sees(s, p + 1, '-') then p + 2 else p + 1;
      if !SeesDigit(s, q) then Fail(q, "exponent has no digits") else Ok((), SkipDigits(s, q))
  }

  function ScanNumber(s: string, p: nat): (r: Parse<string>)
    requires p <= |s|
    ensures r.Ok? ==> p < r.next <= |s| && r.value == s[p..r.next]
    ensures r.Fail? ==> r.at <= |s|
  {
    match ScanWhole(s, if Sees(s, p, '-') then p + 1 else p)
    case Fail(at, why) => Fail(at, why)
    case Ok(_, p1) =>
      match ScanFraction(s, p1)
      case Fail(at, why) => Fail(at, why)
      case Ok(_, p2) =>
        match ScanExponent(s, p2)
        case Fail(at, why) => Fail(at, why)
        case Ok(_, p3) => Ok(s[p..p3], p3)
  }

  // ---------------------------------------------------------------- values

  /** The value whose first character is at p, inside depth non-empty containers. */
  function ParseValue(s: string, p: nat, depth: nat): (r: Parse<Value>)
    requires p <= |s|
    ensures r.Ok? ==> p < r.next <= |s|
    ensures r.Fail? ==> r.at <= |s|
    decreases |s| - p, 1
  {
    if p == |s| then Fail(p, "unexpected end of JSON input")
    else if s[p] == '{' then ParseObject(s, p, depth)
    else if s[p] == '[' then ParseArray(s, p, depth)
    else if s[p] == '"' then
      (match ScanString(s, p)
       case Fail(at, why) => Fail(at, why)
       case Ok(t, q) => Ok(String(t), q))
    else if s[p] == 't' || s[p] == 'f' || s[p] == 'n' then
      (match ScanLiteral(s, p, LiteralOf(s[p]))
       case Fail(at, why) => Fail(at, why)
       case Ok(t, q) => Ok(Literal(t), q))
    else if s[p] == '-' || IsDigit(s[p]) then
      (match ScanNumber(s, p)
       case Fail(at, why) => Fail(at, why)
       case Ok(t, q) => Ok(Number(t), q))
    else Fail(p, "invalid JSON value")
  }

  function LiteralOf(c: char): (r: string)
    ensures IsLiteral(r)
  {
    if c == 't' then "true" else if c == 'f' then "false" else "null"
  }

  function ParseArray(s: string, p: nat, depth: nat): (r: Parse<Value>)
    requires Sees(s, p, '[')
    ensures r.Ok? ==> p < r.next <= |s|
    ensures r.Fail? ==> r.at <= |s|
    decreases |s| - p, 0
  {
    var p1 := SkipSpaces(s, p + 1);
    if Sees(s, p1, ']') then Ok(EmptyArray(s[p + 1..p1]), p1 + 1)
    else if depth + 1 > MAX_DEPTH then Fail(p1, "max nesting depth exceeded")
    else
      match ParseItems(s, p + 1, depth + 1)
      case Fail(at, why) => Fail(at, why)
      case Ok(items, q) => Ok(Array(items), q)
  }

  /** Items up to the closing bracket. */
  function ParseItems(s: string, p: nat, depth: nat): (r: Parse<Items>)
    requires p <= |s|
    ensures r.Ok? ==> p < r.next <= |s|
    ensures r.Fail? ==> r.at <= |s|
    decreases |s| - p, 2
  {
    var p1 := SkipSpaces(s, p);
    match ParseValue(s, p1, depth)
    case Fail(at, why) => Fail(at, why)
    case Ok(v, p2) =>
      var p3 := SkipSpaces(s, p2);
      if Sees(s, p3, ',') then
        (match ParseItems(s, p3 + 1, depth)
         case Fail(at, why) => Fail(at, why)
         case Ok(items, q) => Ok(MoreItems(s[p..p1], v, s[p2..p3], items), q))
      else if Sees(s, p3, ']') then Ok(LastItem(s[p..p1], v, s[p2..p3]), p3 + 1)
      else Fail(p3, "expected ',' or ']' in array")
  }

  function ParseObject(s: string, p: nat, depth: nat): (r: Parse<Value>)
    requires Sees(s, p, '{')
    ensures r.Ok? ==> p < r.next <= |s|
    ensures r.Fail? ==> r.at <= |s|
    decreases |s| - p, 0
  {
    var p1 := SkipSpaces(s, p + 1);
    if Sees(s, p1, '}') then Ok(EmptyObject(s[p + 1..p1]), p1 + 1)
    else if depth + 1 > MAX_DEPTH then Fail(p1, "max nesting depth exceeded")
    else
      match ParseMembers(s, p + 1, depth + 1)
      case Fail(at, why) => Fail(at, why)
      case Ok(members, q) => Ok(Object(members), q)
  }

  /** A member up to the end of its value. */
  datatype Member = Member(before: string, key: string, afterKey: string, beforeValue: string, value: Value)

  function ParseMember(s: string, p: nat, depth: nat): (r: Parse<Member>)
    requires p <= |s|
    ensures r.Ok? ==> p < r.next <= |s|
    ensures r.Fail? ==> r.at <= |s|
    decreases |s| - p, 2
  {
    var p1 := SkipSpaces(s, p);
    match ScanString(s, p1)
    case Fail(at, why) => Fail(at, why)
    case Ok(key, p2) =>
      var p3 := SkipSpaces(s, p2);
      if !Sees(s, p3, ':') then Fail(p3, "expected ':' after object key")
      else
        var p4 := SkipSpaces(s, p3 + 1);
        match ParseValue(s, p4, depth)
        case Fail(at, why) => Fail(at, why)
        case Ok(v, p5) => Ok(Member(s[p..p1], key, s[p2..p3], s[p3 + 1..p4], v), p5)
  }

  /** Members up to the closing brace. */
  function ParseMembers(s: string, p: nat, depth: nat): (r: Parse<Members>)
    requires p <= |s|
    ensures r.Ok? ==> p < r.next <= |s|
    ensures r.Fail? ==> r.at <= |s|
    decreases |s| - p, 3
  {
    match ParseMember(s, p, depth)
    case Fail(at, why) => Fail(at, why)
    case Ok(m, p5) =>
      var p6 := SkipSpaces(s, p5);
      var after := s[p5..p6];
      if Sees(s, p6, ',') then
        (match ParseMembers(s, p6 + 1, depth)
         case Fail(at, why) => Fail(at, why)
         case Ok(rest, q) => Ok(MoreMembers(m.before, m.key, m.afterKey, m.beforeValue, m.value, after, rest), q))
      else if Sees(s, p6, '}') then
        Ok(LastMember(m.before, m.key, m.afterKey, m.beforeValue, m.value, after), p6 + 1)
      else Fail(p6, "expected ',' or '}' in object")
  }

  function ParseDocument(s: string): (r: Parse<Value>)
    ensures r.Ok? ==> r.next == |s|
    ensures r.Fail? ==> r.at <= |s|
  {
    match ParseValue(s, SkipSpaces(s, 0), 0)
    case Fail(at, why) => Fail(at, why)
    case Ok(v, q) =>
      var end := SkipSpaces(s, q);
      if end == |s| then Ok(v, end) else Fail(end, "trailing data after JSON value")
  }
}
