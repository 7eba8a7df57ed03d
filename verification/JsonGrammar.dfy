/** JSON texts as concrete syntax trees, after sections 2 to 7 of RFC 8259. The tree of a text
    records every token and every run of white space, so the text is the tree read off. */
module JsonGrammar {
  predicate IsSpace(c: char) {
    c == ' ' || c == '\t' || c == '\r' || c == '\n'
  }

  predicate IsDigit(c: char) {
    '0' <= c <= '9'
  }

  predicate IsHex(c: char) {
    IsDigit(c) || 'a' <= c <= 'f' || 'A' <= c <= 'F'
  }

  predicate AllSpaces(s: string) {
    forall c :: c in s ==> IsSpace(c)
  }

  predicate AllDigits(s: string) {
    forall c :: c in s ==> IsDigit(c)
  }

  // ---------------------------------------------------------------- tokens

  /** number = [ minus ] int [ frac ] [ exp ] (section 6) */
  datatype NumberParts = NumberParts(minus: string, whole: string, frac: string, exp: string) {
    ghost predicate Legal() {
      && (minus == "" || minus == "-") && LegalWhole(whole)
      && (frac == "" || LegalFraction(frac)) && (exp == "" || LegalExponent(exp))
    }

    function Text(): string {
      minus + (whole + (frac + exp))
    }
  }

  predicate LegalWhole(whole: string) {
    whole == "0" || (whole != "" && AllDigits(whole) && whole[0] != '0')
  }

  predicate LegalFraction(frac: string) {
    |frac| > 1 && frac[0] == '.' && AllDigits(frac[1..])
  }

  predicate LegalExponent(exp: string) {
    && |exp| > 1 && (exp[0] == 'e' || exp[0] == 'E')
    && var digits := if exp[1] == '+' || exp[1] == '-' then exp[2..] else exp[1..];
       digits != "" && AllDigits(digits)
  }

  ghost predicate IsNumber(token: string) {
    exists p: NumberParts :: p.Legal() && token == p.Text()
  }

  predicate SimpleEscape(c: char) {
    c == '"' || c == '\\' || c == '/' || c == 'b' || c == 'f' || c == 'n' || c == 'r' || c == 't'
  }

  predicate Unescaped(c: char) {
    c >= ' ' && c != '"' && c != '\\'
  }

  /** What follows the opening quotation mark of a string (section 7). */
  predicate IsStringTail(s: string)
    decreases |s|
  {
    || s == "\""
    || (|s| > 0 && Unescaped(s[0]) && IsStringTail(s[1..]))
    || (|s| > 1 && s[0] == '\\' && SimpleEscape(s[1]) && IsStringTail(s[2..]))
    || (|s| > 5 && s[0] == '\\' && s[1] == 'u' && (forall i :: 2 <= i < 6 ==> IsHex(s[i])) && IsStringTail(s[6..]))
  }

  /** The character classes by their code points, as RFC 8259 lists them: ws, DIGIT and HEXDIG, and the characters of
      strings that stand for themselves or follow a backslash. */
  lemma CharacterClasses(c: char)
    ensures IsSpace(c) <==> c as int in {0x20, 0x09, 0x0A, 0x0D}
    ensures IsDigit(c) <==> 0x30 <= c as int <= 0x39
    ensures IsHex(c) <==> 0x30 <= c as int <= 0x39 || 0x41 <= c as int <= 0x46 || 0x61 <= c as int <= 0x66
    ensures Unescaped(c) <==> 0x20 <= c as int <= 0x21 || 0x23 <= c as int <= 0x5B || 0x5D <= c as int
    ensures SimpleEscape(c) <==> c as int in {0x22, 0x5C, 0x2F, 0x62, 0x66, 0x6E, 0x72, 0x74}
  {}

  predicate IsString(token: string) {
    token != "" && token[0] == '"' && IsStringTail(token[1..])
  }

  predicate IsLiteral(token: string) {
    token == "true" || token == "false" || token == "null"
  }

  // ---------------------------------------------------------------- trees

  datatype Value =
    | Literal(token: string)
    | String(token: string)
    | Number(token: string)
    | EmptyArray(space: string)
    | Array(items: Items)
    | EmptyObject(space: string)
    | Object(members: Members)

  datatype Items =
    | LastItem(before: string, value: Value, after: string)
    | MoreItems(before: string, value: Value, after: string, rest: Items)

  datatype Members =
    | LastMember(before: string, key: string, afterKey: string, beforeValue: string, value: Value, after: string)
    | MoreMembers(before: string, key: string, afterKey: string, beforeValue: string, value: Value, after: string,
                  rest: Members)

  ghost predicate Legal(v: Value) {
    match v
    case Literal(t) => IsLiteral(t)
    case String(t) => IsString(t)
    case Number(t) => IsNumber(t)
    case EmptyArray(w) => AllSpaces(w)
    case Array(items) => LegalItems(items)
    case EmptyObject(w) => AllSpaces(w)
    case Object(members) => LegalMembers(members)
  }

  ghost predicate LegalItems(items: Items) {
    && AllSpaces(items.before) && Legal(items.value) && AllSpaces(items.after)
    && (items.MoreItems? ==> LegalItems(items.rest))
  }

  ghost predicate LegalMembers(m: Members) {
    && AllSpaces(m.before) && IsString(m.key) && AllSpaces(m.afterKey)
    && AllSpaces(m.beforeValue) && Legal(m.value) && AllSpaces(m.after)
    && (m.MoreMembers? ==> LegalMembers(m.rest))
  }

  /** The text of a value. */
  function Text(v: Value): string {
    match v
    case Literal(t) => t
    case String(t) => t
    case Number(t) => t
    case EmptyArray(w) => "[" + w + "]"
    case Array(items) => "[" + ItemsText(items)
    case EmptyObject(w) => "{" + w + "}"
    case Object(members) => "{" + MembersText(members)
  }

  /** The items of an array, with the closing bracket. */
  function ItemsText(items: Items): string {
    items.before + (Text(items.value) + (items.after +
      if items.LastItem? then "]" else "," + ItemsText(items.rest)))
  }

  function MembersText(m: Members): string {
    m.before + (m.key + (m.afterKey + (":" + (m.beforeValue + (Text(m.value) + (m.after +
      if m.LastMember? then "}" else "," + MembersText(m.rest)))))))
  }

  function Max(a: nat, b: nat): nat {
    if a < b then b else a
  }

  /** How deeply non-empty containers are nested. */
  function Depth(v: Value): nat {
    match v
    case Array(items) => 1 + ItemsDepth(items)
    case Object(members) => 1 + MembersDepth(members)
    case _ => 0
  }

  function ItemsDepth(items: Items): nat {
    if items.LastItem? then Depth(items.value) else Max(Depth(items.value), ItemsDepth(items.rest))
  }

  function MembersDepth(m: Members): nat {
    if m.LastMember? then Depth(m.value) else Max(Depth(m.value), MembersDepth(m.rest))
  }

  /** JSON-text = ws value ws (section 2), within a nesting limit. */
  ghost predicate IsJsonText(s: string, limit: nat) {
    exists before, v, after :: IsDocument(s, limit, before, v, after)
  }

  ghost predicate IsDocument(s: string, limit: nat, before: string, v: Value, after: string) {
    AllSpaces(before) && Legal(v) && Depth(v) <= limit && AllSpaces(after) && s == before + (Text(v) + after)
  }

  // ---------------------------------------------------------------- tokens of a tree, and printing

  function Tokens(v: Value): seq<string> {
    match v
    case Literal(t) => [t]
    case String(t) => [t]
    case Number(t) => [t]
    case EmptyArray(w) => ["[", "]"]
    case Array(items) => ["["] + ItemsTokens(items)
    case EmptyObject(w) => ["{", "}"]
    case Object(members) => ["{"] + MembersTokens(members)
  }

  function ItemsTokens(items: Items): seq<string> {
    Tokens(items.value) + if items.LastItem? then ["]"] else [","] + ItemsTokens(items.rest)
  }

  function MembersTokens(m: Members): seq<string> {
    [m.key, ":"] + Tokens(m.value) + if m.LastMember? then ["}"] else [","] + MembersTokens(m.rest)
  }

  function Spaces(n: nat): (r: string)
    ensures AllSpaces(r)
  {
    seq(n, _ => ' ')
  }

  /** A line break and the indentation of a nesting depth. */
  function IndentLine(depth: nat): (r: string)
    ensures AllSpaces(r)
  {
    "\n" + Spaces(2 * depth)
  }

  /** White space put before an item or a closing bracket. */
  function Indent(pretty: bool, depth: nat): (r: string)
    ensures AllSpaces(r)
  {
    if pretty then IndentLine(depth) else ""
  }

  /** The same tokens, with the white space of the minified or indented layout. */
  function Layout(pretty: bool, depth: nat, v: Value): Value
    decreases v
  {
    match v
    case EmptyArray(_) => EmptyArray("")
    case EmptyObject(_) => EmptyObject("")
    case Array(items) => Array(LayoutItems(pretty, depth + 1, items))
    case Object(members) => Object(LayoutMembers(pretty, depth + 1, members))
    case _ => v
  }

  function LayoutItems(pretty: bool, depth: nat, items: Items): Items
    requires depth > 0
    decreases items
  {
    var before, v := Indent(pretty, depth), Layout(pretty, depth, items.value);
    match items
    case LastItem(_, _, _) => LastItem(before, v, Indent(pretty, depth - 1))
    case MoreItems(_, _, _, rest) => MoreItems(before, v, "", LayoutItems(pretty, depth, rest))
  }

  function LayoutMembers(pretty: bool, depth: nat, m: Members): Members
    requires depth > 0
    decreases m
  {
    var before, v := Indent(pretty, depth), Layout(pretty, depth, m.value);
    var beforeValue := if pretty then " " else "";
    match m
    case LastMember(_, key, _, _, _, _) => LastMember(before, key, "", beforeValue, v, Indent(pretty, depth - 1))
    case MoreMembers(_, key, _, _, _, _, rest) =>
      MoreMembers(before, key, "", beforeValue, v, "", LayoutMembers(pretty, depth, rest))
  }

  lemma {:induction false} LayoutKeepsTokens(pretty: bool, depth: nat, v: Value)
    ensures Tokens(Layout(pretty, depth, v)) == Tokens(v) && Depth(Layout(pretty, depth, v)) == Depth(v)
    ensures Legal(v) ==> Legal(Layout(pretty, depth, v))
    decreases v
  {
    match v
    case Array(items) => LayoutItemsKeepsTokens(pretty, depth + 1, items);
    case Object(members) => LayoutMembersKeepsTokens(pretty, depth + 1, members);
    case _ =>
  }

  lemma {:induction false} LayoutItemsKeepsTokens(pretty: bool, depth: nat, items: Items)
    requires depth > 0
    ensures ItemsTokens(LayoutItems(pretty, depth, items)) == ItemsTokens(items)
    ensures ItemsDepth(LayoutItems(pretty, depth, items)) == ItemsDepth(items)
    ensures LegalItems(items) ==> LegalItems(LayoutItems(pretty, depth, items))
    decreases items
  {
    LayoutKeepsTokens(pretty, depth, items.value);
    if items.MoreItems? {
      LayoutItemsKeepsTokens(pretty, depth, items.rest);
    }
  }

  lemma {:induction false} LayoutMembersKeepsTokens(pretty: bool, depth: nat, m: Members)
    requires depth > 0
    ensures MembersTokens(LayoutMembers(pretty, depth, m)) == MembersTokens(m)
    ensures MembersDepth(LayoutMembers(pretty, depth, m)) == MembersDepth(m)
    ensures LegalMembers(m) ==> LegalMembers(LayoutMembers(pretty, depth, m))
    decreases m
  {
    LayoutKeepsTokens(pretty, depth, m.value);
    if m.MoreMembers? {
      LayoutMembersKeepsTokens(pretty, depth, m.rest);
    }
  }

  /** A layout does not depend on the white space it replaces. */
  lemma {:induction false} LayoutOfLayout(p: bool, q: bool, depth: nat, v: Value)
    ensures Layout(p, depth, Layout(q, depth, v)) == Layout(p, depth, v)
    decreases v
  {
    match v
    case Array(items) => LayoutOfLayoutItems(p, q, depth + 1, items);
    case Object(members) => LayoutOfLayoutMembers(p, q, depth + 1, members);
    case _ =>
  }

  lemma {:induction false} LayoutOfLayoutItems(p: bool, q: bool, depth: nat, items: Items)
    requires depth > 0
    ensures LayoutItems(p, depth, LayoutItems(q, depth, items)) == LayoutItems(p, depth, items)
    decreases items
  {
    LayoutOfLayout(p, q, depth, items.value);
    if items.MoreItems? {
      LayoutOfLayoutItems(p, q, depth, items.rest);
    }
  }

  lemma {:induction false} LayoutOfLayoutMembers(p: bool, q: bool, depth: nat, m: Members)
    requires depth > 0
    ensures LayoutMembers(p, depth, LayoutMembers(q, depth, m)) == LayoutMembers(p, depth, m)
    decreases m
  {
    LayoutOfLayout(p, q, depth, m.value);
    if m.MoreMembers? {
      LayoutOfLayoutMembers(p, q, depth, m.rest);
    }
  }
}
