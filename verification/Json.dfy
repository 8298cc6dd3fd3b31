// The JSON text of a value tree, and a decoder that recovers the tree from it.

module Json {
  import opened Machine

  datatype Json = Str(s: string) | Num(n: int) | Bool(b: bool) | Null | Arr(items: seq<Json>) | Obj(fields: seq<Field>)

  datatype Field = Field(name: string, value: Json)

  // ----- text

  /** The escapes of jsonw_puts. */
  function Escape(c: char): (r: string)
    ensures 1 <= |r| <= 2
  {
    match c
    case '\t' => "\\t"
    case '\n' => "\\n"
    case '\r' => "\\r"
    case '\U{000C}' => "\\f"
    case '\U{0008}' => "\\b"
    case '\\' => "\\\\"
    case '\"' => "\\\""
    case '\'' => "\\\'"
    case _ => [c]
  }

  function Escaped(s: string): string {
    if s == "" then "" else Escape(s[0]) + Escaped(s[1..])
  }

  function Quoted(s: string): string {
    "\"" + Escaped(s) + "\""
  }

  function Digit(d: nat): char
    requires d < 10
  {
    '0' + d as char
  }

  function Digits(n: nat): (r: string)
    ensures |r| > 0
  {
    if n < 10 then [Digit(n)] else Digits(n / 10) + [Digit(n % 10)]
  }

  /** What printf writes for %d, %u and their wider forms. */
  function Decimal(n: int): string {
    if n < 0 then "-" + Digits(-n) else Digits(n)
  }

  function Text(v: Json): string
    decreases v
  {
    match v
    case Str(s) => Quoted(s)
    case Num(n) => Decimal(n)
    case Bool(b) => if b then "true" else "false"
    case Null => "null"
    case Arr(items) => "[" + ItemsText(items) + "]"
    case Obj(fields) => "{" + FieldsText(fields) + "}"
  }

  function ItemsText(items: seq<Json>): string
    decreases items
  {
    if items == [] then ""
    else if |items| == 1 then Text(items[0])
    else Text(items[0]) + "," + ItemsText(items[1..])
  }

  function FieldText(f: Field): string
    decreases f
  {
    Quoted(f.name) + ":" + Text(f.value)
  }

  function FieldsText(fields: seq<Field>): string
    decreases fields
  {
    if fields == [] then ""
    else if |fields| == 1 then FieldText(fields[0])
    else FieldText(fields[0]) + "," + FieldsText(fields[1..])
  }

  // ----- decoder

  datatype Parsed<T> = Fail | Parsed(value: T, rest: string)

  /** The two-character escapes, including \' which section 7 of RFC 8259 does not list. */
  function Unescape(c: char): Option<char> {
    match c
    case 't' => Some('\t')
    case 'n' => Some('\n')
    case 'r' => Some('\r')
    case 'f' => Some('\U{000C}')
    case 'b' => Some('\U{0008}')
    case '\\' => Some('\\')
    case '\"' => Some('\"')
    case '\'' => Some('\'')
    case _ => None
  }

  /** A string whose opening quote has been read. */
  function ParseString(s: string): (r: Parsed<string>)
    ensures r.Parsed? ==> |r.rest| < |s|
  {
    if s == "" then Fail
    else if s[0] == '\"' then Parsed("", s[1..])
    else if s[0] != '\\' then
      match ParseString(s[1..])
      case Fail => Fail
      case Parsed(t, rest) => Parsed([s[0]] + t, rest)
    else if |s| == 1 || Unescape(s[1]) == None then Fail
    else
      match ParseString(s[2..])
      case Fail => Fail
      case Parsed(t, rest) => Parsed([Unescape(s[1]).value] + t, rest)
  }

  predicate IsDigit(c: char) {
    '0' <= c <= '9'
  }

  /** Reads digits as long as there are any, after a number `acc`. */
  function ParseDigits(s: string, acc: nat): (r: (nat, string))
    ensures |r.1| <= |s|
    decreases |s|
  {
    if s == "" || !IsDigit(s[0]) then (acc, s) else ParseDigits(s[1..], 10 * acc + (s[0] - '0') as nat)
  }

  function ParseNumber(s: string): (r: Parsed<Json>)
    ensures r.Parsed? ==> |r.rest| < |s|
  {
    if s == "" then Fail
    else if IsDigit(s[0]) then
      var (n, rest) := ParseDigits(s[1..], (s[0] - '0') as nat);
      Parsed(Num(n), rest)
    else if s[0] == '-' && |s| > 1 && IsDigit(s[1]) then
      var (n, rest) := ParseDigits(s[2..], (s[1] - '0') as nat);
      Parsed(Num(0 - n as int), rest)
    else Fail
  }

  function ParseWord(s: string): (r: Parsed<Json>)
    ensures r.Parsed? ==> |r.rest| < |s|
  {
    if "true" <= s then Parsed(Bool(true), s[4..])
    else if "false" <= s then Parsed(Bool(false), s[5..])
    else if "null" <= s then Parsed(Null, s[4..])
    else Fail
  }

  function ParseValue(s: string): (r: Parsed<Json>)
    ensures r.Parsed? ==> |r.rest| < |s|
    decreases |s|, 0
  {
    if s == "" then Fail
    else if s[0] == '\"' then
      match ParseString(s[1..])
      case Fail => Fail
      case Parsed(t, rest) => Parsed(Str(t), rest)
    else if s[0] == '[' then
      if |s| > 1 && s[1] == ']' then Parsed(Arr([]), s[2..])
      else
        match ParseItems(s[1..])
        case Fail => Fail
        case Parsed(items, rest) => Parsed(Arr(items), rest)
    else if s[0] == '{' then
      if |s| > 1 && s[1] == '}' then Parsed(Obj([]), s[2..])
      else
        match ParseFields(s[1..])
        case Fail => Fail
        case Parsed(fields, rest) => Parsed(Obj(fields), rest)
    else if s[0] == '-' || IsDigit(s[0]) then ParseNumber(s)
    else ParseWord(s)
  }

  /** At least one value, separated by commas and ended by a bracket. */
  function ParseItems(s: string): (r: Parsed<seq<Json>>)
    ensures r.Parsed? ==> |r.rest| < |s|
    decreases |s|, 1
  {
    match ParseValue(s)
    case Fail => Fail
    case Parsed(v, rest) =>
      if rest == "" then Fail
      else if rest[0] == ']' then Parsed([v], rest[1..])
      else if rest[0] != ',' then Fail
      else
        match ParseItems(rest[1..])
        case Fail => Fail
        case Parsed(more, last) => Parsed([v] + more, last)
  }

  function ParseField(s: string): (r: Parsed<Field>)
    ensures r.Parsed? ==> |r.rest| < |s|
    decreases |s|, 1
  {
    if s == "" || s[0] != '\"' then Fail
    else
      match ParseString(s[1..])
      case Fail => Fail
      case Parsed(name, rest) =>
        if rest == "" || rest[0] != ':' then Fail
        else
          match ParseValue(rest[1..])
          case Fail => Fail
          case Parsed(v, last) => Parsed(Field(name, v), last)
  }

  function ParseFields(s: string): (r: Parsed<seq<Field>>)
    ensures r.Parsed? ==> |r.rest| < |s|
    decreases |s|, 2
  {
    match ParseField(s)
    case Fail => Fail
    case Parsed(f, rest) =>
      if rest == "" then Fail
      else if rest[0] == '}' then Parsed([f], rest[1..])
      else if rest[0] != ',' then Fail
      else
        match ParseFields(rest[1..])
        case Fail => Fail
        case Parsed(more, last) => Parsed([f] + more, last)
  }

  // ----- the decoder undoes the text

  lemma UnescapeEscape(c: char)
    ensures |Escape(c)| == 2 ==> Escape(c)[0] == '\\' && Unescape(Escape(c)[1]) == Some(c)
    ensures |Escape(c)| == 1 ==> Escape(c) == [c] && c != '\\' && c != '\"'
  {
  }

  /** Reading one escaped character. */
  lemma CharBack(c: char, tail: string, t: string, rest: string)
    requires ParseString(tail) == Parsed(t, rest)
    ensures ParseString(Escape(c) + tail) == Parsed([c] + t, rest)
  {
    hide Escape, Unescape;
    UnescapeEscape(c);
    var e := Escape(c);
    assert (e + tail)[|e|..] == tail;
  }

  lemma StringEnd(rest: string)
    ensures ParseString("\"" + rest) == Parsed("", rest)
  {
    assert ("\"" + rest)[1..] == rest;
  }

  lemma {:induction false} StringBack(s: string, rest: string)
    ensures ParseString(Escaped(s) + ("\"" + rest)) == Parsed(s, rest)
  {
    hide Escape, Unescape, ParseString;
    if s == "" {
      StringEnd(rest);
      assert Escaped(s) + ("\"" + rest) == "\"" + rest;
    } else {
      var tail := Escaped(s[1..]) + ("\"" + rest);
      StringBack(s[1..], rest);
      CharBack(s[0], tail, s[1..], rest);
      assert Escaped(s) + ("\"" + rest) == Escape(s[0]) + tail;
      assert s == [s[0]] + s[1..];
    }
  }

  /** The text of a value ends where a digit could not follow. */
  predicate Stops(rest: string) {
    rest == "" || !IsDigit(rest[0])
  }

  lemma {:induction false} DigitsBack(n: nat, rest: string)
    ensures ParseDigits(Digits(n) + rest, 0) == ParseDigits(rest, n)
    ensures IsDigit(Digits(n)[0])
  {
    if n < 10 {
      assert (Digits(n) + rest)[1..] == rest;
    } else {
      var d := [Digit(n % 10)];
      DigitsBack(n / 10, d + rest);
      assert Digits(n) + rest == Digits(n / 10) + (d + rest);
      assert (d + rest)[1..] == rest;
    }
  }

  lemma NumberBack(n: int, rest: string)
    requires Stops(rest)
    ensures ParseNumber(Decimal(n) + rest) == Parsed(Num(n), rest)
  {
    hide Digits;
    var d := Digits(if n < 0 then -n else n);
    DigitsBack(if n < 0 then -n else n, rest);
    var all := d + rest;
    assert ParseDigits(all, 0) == ParseDigits(all[1..], (all[0] - '0') as nat);
    if n < 0 {
      var s := Decimal(n) + rest;
      assert s == "-" + all;
      assert s[1] == all[0] && s[2..] == all[1..];
    }
  }

  /** How a text starts says which case of the decoder reads it. */
  lemma TextStart(v: Json)
    ensures Text(v) != "" && Text(v)[0] != ']' && Text(v)[0] != '}'
    ensures v.Num? ==> Text(v)[0] == '-' || IsDigit(Text(v)[0])
  {
    if v.Num? {
      DigitsBack(if v.n < 0 then -v.n else v.n, "");
    }
  }

  lemma {:induction false} TextBack(v: Json, rest: string)
    requires Stops(rest)
    ensures ParseValue(Text(v) + rest) == Parsed(v, rest)
    decreases v
  {
    var s := Text(v) + rest;
    TextStart(v);
    match v
    case Str(t) =>
      assert s[1..] == Escaped(t) + ("\"" + rest);
      StringBack(t, rest);
    case Num(n) => NumberBack(n, rest);
    case Bool(b) => WordBack(v, rest);
    case Null => WordBack(v, rest);
    case Arr(items) => ArrBack(items, rest);
    case Obj(fields) => ObjBack(fields, rest);
  }

  lemma WordBack(v: Json, rest: string)
    requires v.Bool? || v.Null?
    ensures ParseValue(Text(v) + rest) == Parsed(v, rest)
  {
    var s := Text(v) + rest;
    assert Text(v) <= s && s[|Text(v)|..] == rest;
  }

  lemma {:induction false} ArrBack(items: seq<Json>, rest: string)
    ensures ParseValue(Text(Arr(items)) + rest) == Parsed(Arr(items), rest)
    decreases items, 1
  {
    var s := Text(Arr(items)) + rest;
    assert s[1..] == ItemsText(items) + ("]" + rest);
    if items == [] {
      assert s[2..] == rest;
    } else {
      TextStart(items[0]);
      ItemsBack(items, rest);
    }
  }

  lemma ItemsStep(s: string, v: Json, rest: string)
    requires ParseValue(s) == Parsed(v, rest)
    ensures "]" <= rest ==> ParseItems(s) == Parsed([v], rest[1..])
    ensures "," <= rest && ParseItems(rest[1..]).Parsed? ==>
      ParseItems(s) == Parsed([v] + ParseItems(rest[1..]).value, ParseItems(rest[1..]).rest)
  {
    hide ParseValue;
  }

  lemma {:induction false} ItemsBack(items: seq<Json>, rest: string)
    requires items != []
    ensures ParseItems(ItemsText(items) + ("]" + rest)) == Parsed(items, rest)
    decreases items, 0
  {
    hide ParseItems, ParseValue, Text;
    var s := ItemsText(items) + ("]" + rest);
    if |items| == 1 {
      TextBack(items[0], "]" + rest);
      ItemsStep(s, items[0], "]" + rest);
      assert items == [items[0]];
    } else {
      var more := ItemsText(items[1..]) + ("]" + rest);
      TextBack(items[0], "," + more);
      assert s == Text(items[0]) + ("," + more);
      ItemsBack(items[1..], rest);
      ItemsStep(s, items[0], "," + more);
      assert ("," + more)[1..] == more;
      assert items == [items[0]] + items[1..];
    }
  }

  lemma {:induction false} FieldBack(f: Field, rest: string)
    requires Stops(rest)
    ensures ParseField(FieldText(f) + rest) == Parsed(f, rest)
    decreases f
  {
    hide ParseString, ParseValue, Text, Escaped;
    var s := FieldText(f) + rest;
    var after := ":" + (Text(f.value) + rest);
    assert s[1..] == Escaped(f.name) + ("\"" + after);
    StringBack(f.name, after);
    TextBack(f.value, rest);
  }

  lemma {:induction false} ObjBack(fields: seq<Field>, rest: string)
    ensures ParseValue(Text(Obj(fields)) + rest) == Parsed(Obj(fields), rest)
    decreases fields, 1
  {
    var s := Text(Obj(fields)) + rest;
    assert s[1..] == FieldsText(fields) + ("}" + rest);
    if fields == [] {
      assert s[2..] == rest;
    } else {
      FieldsBack(fields, rest);
    }
  }

  lemma FieldsStep(s: string, f: Field, rest: string)
    requires ParseField(s) == Parsed(f, rest)
    ensures "}" <= rest ==> ParseFields(s) == Parsed([f], rest[1..])
    ensures "," <= rest && ParseFields(rest[1..]).Parsed? ==>
      ParseFields(s) == Parsed([f] + ParseFields(rest[1..]).value, ParseFields(rest[1..]).rest)
  {
    hide ParseField;
  }

  lemma {:induction false} FieldsBack(fields: seq<Field>, rest: string)
    requires fields != []
    ensures ParseFields(FieldsText(fields) + ("}" + rest)) == Parsed(fields, rest)
    decreases fields, 0
  {
    hide ParseFields, ParseField, FieldText;
    var s := FieldsText(fields) + ("}" + rest);
    if |fields| == 1 {
      FieldBack(fields[0], "}" + rest);
      FieldsStep(s, fields[0], "}" + rest);
      assert fields == [fields[0]];
    } else {
      var more := FieldsText(fields[1..]) + ("}" + rest);
      FieldBack(fields[0], "," + more);
      assert s == FieldText(fields[0]) + ("," + more);
      FieldsBack(fields[1..], rest);
      FieldsStep(s, fields[0], "," + more);
      assert ("," + more)[1..] == more;
      assert fields == [fields[0]] + fields[1..];
    }
  }

  /** A tree is determined by its text, whatever text follows it. */
  lemma TextIsUnique(v: Json, w: Json, r: string, q: string)
    requires Stops(r) && Stops(q) && Text(v) + r == Text(w) + q
    ensures v == w && r == q
  {
    TextBack(v, r);
    TextBack(w, q);
  }

  // ----- no raw control character that has an escape

  predicate Clean(s: string) {
    forall i :: 0 <= i < |s| ==>
      s[i] != '\t' && s[i] != '\n' && s[i] != '\r' && s[i] != '\U{000C}' && s[i] != '\U{0008}'
  }

  lemma {:induction false} EscapedIsClean(s: string)
    ensures Clean(Escaped(s))
  {
    if s != "" {
      assert Clean(Escape(s[0]));
      EscapedIsClean(s[1..]);
    }
  }

  lemma {:induction false} DigitsAreClean(n: nat)
    ensures Clean(Digits(n))
  {
    if n >= 10 {
      DigitsAreClean(n / 10);
    }
  }

  /** No text of any tree, names and nested strings included, holds a tab, line feed, carriage
      return, form feed or backspace as it is: each is written as an escape. */
  lemma {:induction false} TextIsClean(v: Json)
    ensures Clean(Text(v))
    decreases v
  {
    hide Escaped, Digits;
    match v
    case Str(s) => EscapedIsClean(s);
    case Num(n) => DigitsAreClean(if n < 0 then -n else n);
    case Bool(_) =>
    case Null =>
    case Arr(items) => ItemsAreClean(items);
    case Obj(fields) => FieldsAreClean(fields);
  }

  lemma {:induction false} ItemsAreClean(items: seq<Json>)
    ensures Clean(ItemsText(items))
    decreases items
  {
    hide Text;
    if items != [] {
      TextIsClean(items[0]);
      ItemsAreClean(items[1..]);
    }
  }

  lemma {:induction false} FieldsAreClean(fields: seq<Field>)
    ensures Clean(FieldsText(fields))
    decreases fields
  {
    hide FieldText;
    if fields != [] {
      FieldIsClean(fields[0]);
      FieldsAreClean(fields[1..]);
    }
  }

  lemma {:induction false} FieldIsClean(f: Field)
    ensures Clean(FieldText(f))
    decreases f
  {
    hide Text, Escaped;
    EscapedIsClean(f.name);
    TextIsClean(f.value);
  }
}
