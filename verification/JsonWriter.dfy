// afxdp/lib/util/json_writer.c in its compact mode: calls that append to an output and keep a
// nesting depth and a pending separator.

module JsonWriter {
  import opened Machine
  import opened Json

  const NUL: char := '\0'

  /** What jsonw_eor puts before the next element. */
  ghost function Lead(sep: char): string {
    if sep != NUL then [sep] else ""
  }

  lemma {:induction false} EscapedAppend(s: string, c: char)
    ensures Escaped(s + [c]) == Escaped(s) + Escape(c)
  {
    hide Escape;
    if s != "" {
      assert (s + [c])[1..] == s[1..] + [c];
      EscapedAppend(s[1..], c);
    }
  }

  lemma NoText()
    ensures ItemsText([]) == "" && FieldsText([]) == ""
  {
  }

  lemma EscapedEmpty()
    ensures Escaped("") == ""
  {
  }

  lemma {:induction false} ItemsTextAppend(items: seq<Json>, v: Json)
    ensures ItemsText(items + [v]) == (if items == [] then "" else ItemsText(items) + ",") + Text(v)
  {
    hide Text;
    if |items| > 0 {
      assert (items + [v])[1..] == items[1..] + [v];
      ItemsTextAppend(items[1..], v);
    }
  }

  lemma {:induction false} FieldsTextAppend(fields: seq<Field>, f: Field)
    ensures FieldsText(fields + [f]) == (if fields == [] then "" else FieldsText(fields) + ",") + FieldText(f)
  {
    hide FieldText;
    if |fields| > 0 {
      assert (fields + [f])[1..] == fields[1..] + [f];
      FieldsTextAppend(fields[1..], f);
    }
  }

  /** How deep the containers of a value nest. */
  ghost function Nesting(v: Json): nat {
    match v
    case Arr(items) => 1 + ItemsNesting(items)
    case Obj(fields) => 1 + FieldsNesting(fields)
    case _ => 0
  }

  ghost function Max(a: nat, b: nat): nat {
    if a < b then b else a
  }

  ghost function ItemsNesting(items: seq<Json>): (n: nat)
    ensures forall i :: 0 <= i < |items| ==> Nesting(items[i]) <= n
  {
    if items == [] then 0
    else
      var n := Max(Nesting(items[0]), ItemsNesting(items[1..]));
      assert forall i :: 1 <= i < |items| ==> items[i] == items[1..][i - 1];
      n
  }

  ghost function FieldsNesting(fields: seq<Field>): (n: nat)
    ensures forall i :: 0 <= i < |fields| ==> Nesting(fields[i].value) <= n
  {
    if fields == [] then 0
    else
      var n := Max(Nesting(fields[0].value), FieldsNesting(fields[1..]));
      assert forall i :: 1 <= i < |fields| ==> fields[i] == fields[1..][i - 1];
      n
  }

  class Writer {
    var out: string
    var depth: u32
    var sep: char

    /** jsonw_new */
    constructor ()
      ensures out == "" && depth == 0 && sep == NUL
    {
      out, depth, sep := "", 0, NUL;
    }

    /** jsonw_eor */
    method Eor()
      modifies this`out, this`sep
      ensures out == old(out) + Lead(old(sep)) && sep == ','
    {
      if sep != NUL {
        out := out + [sep];
      }
      sep := ',';
    }

    /** The cases of jsonw_puts. */
    method PutChar(c: char)
      modifies this`out
      ensures out == old(out) + Escape(c)
    {
      match c {
        case '\t' => out := out + "\\t";
        case '\n' => out := out + "\\n";
        case '\r' => out := out + "\\r";
        case '\U{000C}' => out := out + "\\f";
        case '\U{0008}' => out := out + "\\b";
        case '\\' => out := out + "\\\\";
        case '\"' => out := out + "\\\"";
        case '\'' => out := out + "\\\'";
        case _ => out := out + [c];
      }
    }

    /** jsonw_puts, on a C string without its NUL. */
    method Puts(str: string)
      modifies this`out
      ensures out == old(out) + Quoted(str)
    {
      hide Escape, Escaped;
      out := out + "\"";
      EscapedEmpty();
      var i := 0;
      while i < |str|
        invariant 0 <= i <= |str| && out == old(out) + ("\"" + Escaped(str[..i]))
      {
        EscapedAppend(str[..i], str[i]);
        assert str[..i] + [str[i]] == str[..i + 1];
        PutChar(str[i]);
        i := i + 1;
      }
      assert str[..i] == str;
      out := out + "\"";
    }

    /** jsonw_begin */
    method Begin(c: char)
      modifies this
      ensures out == old(out) + Lead(old(sep)) + [c] && depth == (old(depth) + 1) % TWO32 && sep == NUL
    {
      Eor();
      out := out + [c];
      depth := (depth + 1) % TWO32;
      sep := NUL;
    }

    /** jsonw_end: the source asserts that a container is open. */
    method End(c: char)
      requires depth > 0
      modifies this
      ensures out == old(out) + [c] && depth == old(depth) - 1 && sep == ','
    {
      depth := depth - 1;
      out := out + [c];
      sep := ',';
    }

    /** jsonw_name */
    method Name(name: string)
      modifies this`out, this`sep
      ensures out == old(out) + Lead(old(sep)) + Quoted(name) + ":" && sep == NUL
    {
      Eor();
      sep := NUL;
      Puts(name);
      out := out + ":";
    }

    /** jsonw_printf, given what the format makes of its arguments. */
    method Printf(text: string)
      modifies this`out, this`sep
      ensures out == old(out) + Lead(old(sep)) + text && sep == ','
    {
      Eor();
      out := out + text;
    }

    /** jsonw_string */
    method PutString(value: string)
      modifies this`out, this`sep
      ensures out == old(out) + Lead(old(sep)) + Quoted(value) && sep == ','
    {
      Eor();
      Puts(value);
    }

    /** A caller that writes a whole value tree. It appends the pending separator and the
        tree's text, closes what it opens and leaves a comma pending. */
    method Emit(v: Json)
      requires depth + Nesting(v) < TWO32
      modifies this
      ensures out == old(out) + Lead(old(sep)) + Text(v) && depth == old(depth) && sep == ','
      decreases v, 1
    {
      hide ItemsText, FieldsText, Quoted, Decimal, ItemsNesting, FieldsNesting;
      match v
      case Str(s) => PutString(s);
      case Num(n) => Printf(Decimal(n));
      case Bool(b) => Printf(if b then "true" else "false");
      case Null => Printf("null");
      case Arr(items) => EmitArray(items);
      case Obj(fields) => EmitObject(fields);
    }

    /** jsonw_start_array, the items, jsonw_end_array. */
    method EmitArray(items: seq<Json>)
      requires depth + 1 + ItemsNesting(items) < TWO32
      modifies this
      ensures out == old(out) + Lead(old(sep)) + ("[" + ItemsText(items) + "]")
      ensures depth == old(depth) && sep == ','
      decreases items, 1
    {
      hide ItemsText, ItemsNesting, Lead;
      Begin('[');
      EmitItems(items);
      sep := NUL;
      End(']');
    }

    /** jsonw_start_object, the fields, jsonw_end_object. */
    method EmitObject(fields: seq<Field>)
      requires depth + 1 + FieldsNesting(fields) < TWO32
      modifies this
      ensures out == old(out) + Lead(old(sep)) + ("{" + FieldsText(fields) + "}")
      ensures depth == old(depth) && sep == ','
      decreases fields, 1
    {
      hide FieldsText, FieldsNesting, Lead;
      Begin('{');
      EmitFields(fields);
      End('}');
    }

    /** The values inside an open array, or one after the other on a new stream. */
    method EmitItems(items: seq<Json>)
      requires depth + ItemsNesting(items) < TWO32 && sep == NUL
      modifies this
      ensures out == old(out) + ItemsText(items) && depth == old(depth)
      ensures sep == if items == [] then NUL else ','
      decreases items, 0
    {
      hide Text, ItemsText, FieldText, FieldsText, Quoted, ItemsNesting, FieldsNesting, Nesting;
      NoText();
      var i := 0;
      while i < |items|
        invariant 0 <= i <= |items| && depth == old(depth)
        invariant out == old(out) + ItemsText(items[..i]) && sep == if i == 0 then NUL else ','
        invariant i == 0 ==> out == old(out)
      {
        ItemsTextAppend(items[..i], items[i]);
        assert items[..i] + [items[i]] == items[..i + 1];
        Emit(items[i]);
        i := i + 1;
      }
      assert items[..i] == items;
    }

    /** A name and its value. */
    method EmitField(f: Field)
      requires depth + Nesting(f.value) < TWO32
      modifies this
      ensures out == old(out) + Lead(old(sep)) + FieldText(f) && depth == old(depth) && sep == ','
      decreases f, 0
    {
      hide Text, Quoted, Nesting;
      Name(f.name);
      Emit(f.value);
    }

    method EmitFields(fields: seq<Field>)
      requires depth + FieldsNesting(fields) < TWO32 && sep == NUL
      modifies this
      ensures out == old(out) + FieldsText(fields) && depth == old(depth)
      ensures sep == if fields == [] then NUL else ','
      decreases fields, 0
    {
      hide Text, ItemsText, FieldText, FieldsText, Quoted, ItemsNesting, FieldsNesting, Nesting;
      NoText();
      var i := 0;
      while i < |fields|
        invariant 0 <= i <= |fields| && depth == old(depth)
        invariant out == old(out) + FieldsText(fields[..i]) && sep == if i == 0 then NUL else ','
        invariant i == 0 ==> out == old(out)
      {
        FieldsTextAppend(fields[..i], fields[i]);
        assert fields[..i] + [fields[i]] == fields[..i + 1];
        EmitField(fields[i]);
        i := i + 1;
      }
      assert fields[..i] == fields;
    }

    /** jsonw_destroy, without the release: the source asserts that nothing is open. */
    method Destroy()
      requires depth == 0
      modifies this`out
      ensures out == old(out) + "\n"
    {
      out := out + "\n";
    }
  }

  /** A session that writes one tree passes every assertion of the writer, and the tree can be
      read back from the output, which ends in a line feed. */
  method WriteDocument(v: Json) returns (w: Writer)
    requires Nesting(v) < TWO32
    ensures fresh(w) && w.out == Text(v) + "\n" && ParseValue(w.out) == Parsed(v, "\n")
  {
    w := new Writer();
    w.Emit(v);
    w.Destroy();
    TextBack(v, "\n");
  }
}
