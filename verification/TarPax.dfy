/** The path record of an extended (PAX) header. */
module TarPax {
  import opened Numbers
  import opened Options
  import opened TarNames

  datatype Pax = Path(path: string) | NoPath | Malformed | TooLong

  predicate IsDigit(c: char) {
    '0' <= c <= '9'
  }

  function DigitCount(s: string): (n: nat)
    ensures n <= |s|
  {
    if s == "" || !IsDigit(s[0]) then 0 else 1 + DigitCount(s[1..])
  }

  /** The leading digits as a 32-bit number, after some digits already read. */
  function Decimal(s: string, v: nat): nat {
    if s == "" || !IsDigit(s[0]) then v
    else Decimal(s[1..], (v * 10 + (s[0] as nat - '0' as nat)) % TWO_TO_32)
  }

  /** One record of the text: its length in characters and, if it is one, its path. */
  datatype Record = Record(len: nat, path: Option<string>) | Bad | Oversize

  function EqualsAt(s: string): (n: nat)
    ensures n <= |s|
  {
    if s == "" || s[0] == '=' then 0 else 1 + EqualsAt(s[1..])
  }

  function Body(body: string): Option<string> {
    var eq := EqualsAt(body);
    if eq < |body| && body[..eq] == "path" then Some(body[eq + 1..]) else None
  }

  function DropNewline(body: string): string
    requires body != ""
  {
    if body[|body| - 1] == '\n' then body[..|body| - 1] else body
  }

  function FirstRecord(s: string): (r: Record)
    requires s != ""
    ensures r.Record? ==> 2 <= r.len <= |s|
  {
    var digits := DigitCount(s);
    var len := Decimal(s, 0);
    if digits == 0 || digits >= |s| || s[digits] != ' ' then Bad
    else if len < digits + 2 || len > |s| then Bad
    else
      var path := Body(DropNewline(s[digits + 1..len]));
      if path.Some? && |path.value| + 1 > PATH_MAX then Oversize else Record(len, path)
  }

  /** The last path record of a payload. */
  function PaxPath(s: string, found: Option<string>): Pax
    decreases |s|
  {
    if s == "" then (if found.Some? then Path(found.value) else NoPath)
    else
      match FirstRecord(s)
      case Bad => Malformed
      case Oversize => TooLong
      case Record(len, path) => PaxPath(s[len..], if path.Some? then path else found)
  }

  // ---------------------------------------------------------------- records as they are written

  datatype Attribute = Attribute(digits: string, key: string, value: string)

  function Text(e: Attribute): string {
    e.digits + " " + (e.key + "=" + e.value) + "\n"
  }

  /** The digits state the length of the whole record. */
  predicate WellFormed(e: Attribute) {
    && e.digits != "" && (forall c :: c in e.digits ==> IsDigit(c)) && '=' !in e.key
    && Decimal(e.digits, 0) == |Text(e)|
  }

  function Texts(es: seq<Attribute>): string {
    if es == [] then "" else Text(es[0]) + Texts(es[1..])
  }

  /** What well-formed records mean: the last path among them, as long as each path fits. */
  function LastPath(es: seq<Attribute>, found: Option<string>): Pax {
    if es == [] then (if found.Some? then Path(found.value) else NoPath)
    else if es[0].key != "path" then LastPath(es[1..], found)
    else if |es[0].value| + 1 > PATH_MAX then TooLong
    else LastPath(es[1..], Some(es[0].value))
  }

  lemma {:induction false} DigitsThenSpace(d: string, rest: string, v: nat)
    requires forall c :: c in d ==> IsDigit(c)
    requires rest != "" && !IsDigit(rest[0])
    ensures DigitCount(d + rest) == |d| && Decimal(d + rest, v) == Decimal(d, v)
    decreases |d|
  {
    if d == "" {
      assert d + rest == rest;
    } else {
      DigitsThenSpace(d[1..], rest, (v * 10 + (d[0] as nat - '0' as nat)) % TWO_TO_32);
      assert (d + rest)[1..] == d[1..] + rest;
    }
  }

  lemma {:induction false} FirstEquals(key: string, value: string)
    requires '=' !in key
    ensures EqualsAt(key + "=" + value) == |key|
  {
    if key != "" {
      FirstEquals(key[1..], value);
      assert (key + "=" + value)[1..] == key[1..] + "=" + value;
    }
  }

  lemma BodyOf(key: string, value: string)
    requires '=' !in key
    ensures Body(key + "=" + value) == if key == "path" then Some(value) else None
    ensures DropNewline(key + "=" + value + "\n") == key + "=" + value
  {
    hide EqualsAt;
    var body := key + "=" + value;
    FirstEquals(key, value);
    assert body[..|key|] == key && body[|key| + 1..] == value;
    assert (body + "\n")[..|body|] == body;
  }

  lemma FirstRecordOf(e: Attribute, rest: string)
    requires WellFormed(e)
    ensures FirstRecord(Text(e) + rest) ==
      if e.key == "path" && |e.value| + 1 > PATH_MAX then Oversize
      else Record(|Text(e)|, if e.key == "path" then Some(e.value) else None)
  {
    hide Decimal, DigitCount, EqualsAt, Body, DropNewline;
    var body := e.key + "=" + e.value;
    var tail := " " + body + "\n" + rest;
    assert Text(e) + rest == e.digits + tail;
    DigitsThenSpace(e.digits, tail, 0);
    BodyOf(e.key, e.value);
    assert (Text(e) + rest)[|e.digits| + 1..|Text(e)|] == body + "\n";
  }

  /** The path of well-formed records is found. */
  lemma {:induction false} PaxRoundTrip(es: seq<Attribute>, found: Option<string>)
    requires forall i :: 0 <= i < |es| ==> WellFormed(es[i])
    ensures PaxPath(Texts(es), found) == LastPath(es, found)
    decreases |es|
  {
    hide WellFormed, FirstRecord, Text;
    if es != [] {
      var e, rest := es[0], Texts(es[1..]);
      FirstRecordOf(e, rest);
      assert (Text(e) + rest)[|Text(e)|..] == rest;
      TextNotEmpty(e, rest);
      PaxRoundTrip(es[1..], if e.key == "path" then Some(e.value) else found);
    }
  }

  lemma TextNotEmpty(e: Attribute, rest: string)
    ensures Text(e) + rest != ""
  {}

  // ---------------------------------------------------------------- the parser

  method ParseDecimal(s: string) returns (value: nat, digits: nat)
    ensures value == Decimal(s, 0) && digits == DigitCount(s)
  {
    value, digits := 0, 0;
    assert s[0..] == s;
    while digits < |s| && '0' <= s[digits] <= '9'
      invariant digits <= |s|
      invariant Decimal(s[digits..], value) == Decimal(s, 0) && digits + DigitCount(s[digits..]) == DigitCount(s)
    {
      assert s[digits..][1..] == s[digits + 1..];
      value := (value * 10 + (s[digits] as nat - '0' as nat)) % TWO_TO_32;
      digits := digits + 1;
    }
  }

  method FindEquals(body: string) returns (eq: nat)
    ensures eq == EqualsAt(body)
  {
    eq := 0;
    assert body[0..] == body;
    while eq < |body| && body[eq] != '='
      invariant eq <= |body| && eq + EqualsAt(body[eq..]) == EqualsAt(body)
    {
      assert body[eq..][1..] == body[eq + 1..];
      eq := eq + 1;
    }
  }

  method ParseRecord(rest: string) returns (r: Record)
    requires rest != ""
    ensures r == FirstRecord(rest)
  {
    hide Decimal, DigitCount, EqualsAt;
    var len, digits := ParseDecimal(rest);
    if digits == 0 || digits >= |rest| || rest[digits] != ' ' {
      return Bad;
    }
    if len < digits + 2 {
      return Bad;
    }
    if len > |rest| {
      return Bad;
    }
    var body := rest[digits + 1..len];
    if body[|body| - 1] == '\n' {
      body := body[..|body| - 1];
    }
    var eq := FindEquals(body);
    if eq < |body| && body[..eq] == "path" {
      var value := body[eq + 1..];
      return if |value| + 1 > PATH_MAX then Oversize else Record(len, Some(value));
    }
    return Record(len, None);
  }

  method ParsePaxPath(payload: string) returns (r: Pax)
    ensures r == PaxPath(payload, None)
  {
    hide FirstRecord;
    var pos := 0;
    var found: Option<string> := None;
    assert payload[0..] == payload;
    while pos < |payload|
      invariant 0 <= pos <= |payload| && PaxPath(payload[pos..], found) == PaxPath(payload, None)
      decreases |payload| - pos
    {
      var record := ParseRecord(payload[pos..]);
      if record.Bad? {
        return Malformed;
      }
      if record.Oversize? {
        return TooLong;
      }
      if record.path.Some? {
        found := record.path;
      }
      assert payload[pos..][record.len..] == payload[pos + record.len..];
      pos := pos + record.len;
    }
    assert payload[pos..] == "";
    return if found.Some? then Path(found.value) else NoPath;
  }
}
