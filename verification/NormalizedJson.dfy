// The JSON normaliser (lib/chainlink/core/utils/json_normalization.go): a printer with sorted keys,
// before Unicode normalisation, and a reader that accepts exactly its output.
module NormalizedJson {
  import opened Basics
  import opened Sorting

  // What json.Unmarshal leaves in an interface{}.  A float64 is the text that "%e" prints for it.
  datatype Value =
    | Null
    | Bool(b: bool)
    | Number(text: string)
    | String(s: string)
    | Array(items: seq<Value>)
    | Object(members: map<string, Value>)

  // ---- Numbers ------------------------------------------------------------------------------

  // d.dddddde+dd: one digit, six decimals, a signed exponent of at least two digits.
  predicate IsUnsignedFloat(t: string) {
    && |t| >= 12 && IsDigit(t[0]) && t[1] == '.' && AllDigits(t[2..8]) && t[8] == 'e'
    && (t[9] == '+' || t[9] == '-') && AllDigits(t[10..])
  }

  predicate IsFloat(t: string) {
    if t != "" && t[0] == '-' then IsUnsignedFloat(t[1..]) else IsUnsignedFloat(t)
  }

  // ---- Strings ------------------------------------------------------------------------------

  const HEX := "0123456789abcdef"

  // How json.Marshal writes one character inside a string.
  function Escaped(c: char): (e: string)
    ensures e != "" && (e[0] == '\\' || e == [c])
    ensures e[0] != '"'
  {
    if c == '"' || c == '\\' then ['\\', c]
    else if c == '\n' then "\\n"
    else if c == '\r' then "\\r"
    else if c == '\t' then "\\t"
    else if c < ' ' || c == '<' || c == '>' || c == '&'
    then "\\u00" + [HEX[c as int / 16], HEX[c as int % 16]]
    else if c == '\U{2028}' then "\\u2028"
    else if c == '\U{2029}' then "\\u2029"
    else [c]
  }

  function EscapedAll(s: string): string {
    if s == "" then "" else Escaped(s[0]) + EscapedAll(s[1..])
  }

  function Quoted(s: string): (q: string)
    ensures q != "" && q[0] == '"'
  {
    "\"" + EscapedAll(s) + "\""
  }

  // ---- The printer --------------------------------------------------------------------------

  ghost function Print(v: Value): string
    decreases v
  {
    match v
    case Null => "null"
    case Bool(b) => if b then "true" else "false"
    case Number(text) => text
    case String(s) => Quoted(s)
    case Array(items) => "[" + PrintItems(items) + "]"
    case Object(members) => "{" + PrintMembers(v, SortedKeys(members.Keys)) + "}"
  }

  ghost function PrintItems(items: seq<Value>): string
    decreases items
  {
    if items == [] then ""
    else Print(items[0]) + if |items| == 1 then "" else "," + PrintItems(items[1..])
  }

  ghost function PrintMembers(v: Value, keys: seq<string>): string
    requires v.Object? && forall k :: k in keys ==> k in v.members
    decreases v, |keys|
  {
    if keys == [] then ""
    else Quoted(keys[0]) + ":" + Print(v.members[keys[0]])
         + if |keys| == 1 then "" else "," + PrintMembers(v, keys[1..])
  }

  lemma PrintItemsFrom(items: seq<Value>, i: nat)
    requires i < |items|
    ensures PrintItems(items[i..])
         == Print(items[i]) + if i == |items| - 1 then "" else "," + PrintItems(items[i + 1..])
  {
    hide Print;
    assert items[i..][1..] == items[i + 1..];
  }

  lemma PrintMembersFrom(v: Value, keys: seq<string>, i: nat)
    requires v.Object? && (forall k :: k in keys ==> k in v.members) && i < |keys|
    ensures PrintMembers(v, keys[i..])
         == Quoted(keys[i]) + ":" + Print(v.members[keys[i]])
            + if i == |keys| - 1 then "" else "," + PrintMembers(v, keys[i + 1..])
  {
    hide Print, Quoted;
    assert keys[i..][1..] == keys[i + 1..];
  }

  lemma PrintNothing(v: Value, items: seq<Value>, keys: seq<string>)
    ensures PrintItems(items[|items|..]) == ""
    ensures v.Object? ==> PrintMembers(v, keys[|keys|..]) == ""
  {
  }

  // ---- What the text looks like -------------------------------------------------------------

  // The escapes, character by character; any other character stands for itself.
  lemma EscapesAre(c: char)
    ensures c == '"' ==> Escaped(c) == "\\\""
    ensures c == '\\' ==> Escaped(c) == "\\\\"
    ensures c == '\n' ==> Escaped(c) == "\\n"
    ensures c == '\r' ==> Escaped(c) == "\\r"
    ensures c == '\t' ==> Escaped(c) == "\\t"
    ensures c == '<' ==> Escaped(c) == "\\u003c"
    ensures c == '>' ==> Escaped(c) == "\\u003e"
    ensures c == '&' ==> Escaped(c) == "\\u0026"
    ensures c == '\U{2028}' ==> Escaped(c) == "\\u2028"
    ensures c == '\U{2029}' ==> Escaped(c) == "\\u2029"
    ensures c < ' ' && c !in "\n\r\t" ==>
              Escaped(c) == "\\u00" + ["01"[c as int / 16], "0123456789abcdef"[c as int % 16]]
    ensures c >= ' ' && c !in "\"\\<>&" && c != '\U{2028}' && c != '\U{2029}' ==> Escaped(c) == [c]
  {
  }

  // The text of a number: one digit, six decimals, and an exponent with a sign and at least two
  // digits, possibly after a minus.
  lemma FloatsAre(minus: bool, first: char, decimals: string, sign: char, exponent: string)
    requires IsDigit(first) && AllDigits(decimals) && (sign == '+' || sign == '-') && AllDigits(exponent)
    ensures IsFloat((if minus then "-" else "") + [first] + "." + decimals + "e" + [sign] + exponent)
        <==> |decimals| == 6 && |exponent| >= 2
  {
    var t := [first] + "." + decimals + "e" + [sign] + exponent;
    assert (if minus then "-" else "") + [first] + "." + decimals + "e" + [sign] + exponent
        == if minus then "-" + t else t;
    assert minus ==> ("-" + t)[1..] == t;
    if |decimals| == 6 {
      assert t[2..8] == decimals && t[10..] == exponent;
    } else if |decimals| < 6 {
      assert t[2 + |decimals|] == 'e';
      assert |t| >= 12 ==> t[2..8][|decimals|] == 'e';
    } else {
      assert t[8] == decimals[6];
    }
  }

  lemma OnlyFloatsAre(t: string)
    requires IsFloat(t)
    ensures t != ""
    ensures var u := if t[0] == '-' then t[1..] else t;
            && |u| >= 12 && u[1] == '.' && u[8] == 'e' && (u[9] == '+' || u[9] == '-')
            && forall i :: 0 <= i < |u| && i != 1 && i != 8 && i != 9 ==> IsDigit(u[i])
  {
    var u := if t[0] == '-' then t[1..] else t;
    assert forall i :: 2 <= i < 8 ==> u[i] == u[2..8][i - 2];
    assert forall i :: 10 <= i < |u| ==> u[i] == u[10..][i - 10];
  }

  // Strings are escaped character by character between quotation marks.
  lemma QuotedAre(a: string, c: char)
    ensures Quoted("") == "\"\""
    ensures Quoted([c] + a) == "\"" + Escaped(c) + Quoted(a)[1..]
  {
    assert ([c] + a)[1..] == a;
    assert Quoted(a)[1..] == EscapedAll(a) + "\"";
  }

  // The normal form, with keys in increasing order and no white space.
  lemma PrintedAre(v: Value, w: Value, t: string, j: string, k: string)
    requires Precedes(j, k)
    ensures Print(Null) == "null" && Print(Bool(true)) == "true" && Print(Bool(false)) == "false"
    ensures Print(Number(t)) == t && Print(String(t)) == Quoted(t)
    ensures Print(Array([])) == "[]" && Print(Array([v])) == "[" + Print(v) + "]"
    ensures Print(Array([v, w])) == "[" + Print(v) + "," + Print(w) + "]"
    ensures Print(Object(map[])) == "{}" && Print(Object(map[k := v])) == "{" + Quoted(k) + ":" + Print(v) + "}"
    ensures Print(Object(map[k := w, j := v]))
         == "{" + Quoted(j) + ":" + Print(v) + "," + Quoted(k) + ":" + Print(w) + "}"
  {
    PrintedArrays(v, w);
    PrintedObjects(v, w, j, k);
    PrintEmptyObject();
  }

  lemma PrintedArrays(v: Value, w: Value)
    ensures Print(Array([])) == "[]" && Print(Array([v])) == "[" + Print(v) + "]"
    ensures Print(Array([v, w])) == "[" + Print(v) + "," + Print(w) + "]"
  {
    PrintItemsFrom([v], 0);
    PrintItemsFrom([v, w], 0);
    PrintItemsFrom([v, w], 1);
    assert [v][0..] == [v] && [v, w][0..] == [v, w];
    PrintNothing(Null, [v], []);
    PrintNothing(Null, [], []);
  }

  lemma PrintedObjects(v: Value, w: Value, j: string, k: string)
    requires Precedes(j, k)
    ensures Print(Object(map[k := v])) == "{" + Quoted(k) + ":" + Print(v) + "}"
    ensures Print(Object(map[k := w, j := v]))
         == "{" + Quoted(j) + ":" + Print(v) + "," + Quoted(k) + ":" + Print(w) + "}"
  {
    hide Print, Quoted, Before, Precedes, PrintMembers;
    var one: map<string, Value>, two: map<string, Value> := map[k := v], map[k := w, j := v];
    BeforeMeans(j, k);
    BeforeIsOrder();
    assert Elements([k]) == one.Keys && Elements([j, k]) == two.Keys;
    PrintObject(one, [k]);
    PrintObject(two, [j, k]);
    PrintMembersFrom(Object(one), [k], 0);
    PrintMembersFrom(Object(two), [j, k], 0);
    PrintMembersFrom(Object(two), [j, k], 1);
    assert [k][0..] == [k] && [j, k][0..] == [j, k];
  }

  // ---- The source's writer ------------------------------------------------------------------

  class Writer {
    var out: string

    constructor ()
      ensures out == ""
    {
      out := "";
    }

    method Write(s: string)
      modifies this
      ensures out == old(out) + s
    {
      out := out + s;
    }

    method Marshal(v: Value)
      modifies this
      ensures out == old(out) + Print(v)
      decreases v
    {
      match v {
        case Null => Write("null");
        case Bool(b) => Write(if b then "true" else "false");
        case Number(text) => Write(text);
        case String(s) => Write(Quoted(s));
        case Array(items) => MarshalArray(items);
        case Object(members) => MarshalObject(v);
      }
    }

    method MarshalArray(items: seq<Value>)
      modifies this
      ensures out == old(out) + "[" + PrintItems(items) + "]"
      decreases items
    {
      hide Print, PrintItems;
      PrintNothing(Null, items, []);
      Write("[");
      var i := 0;
      while i < |items|
        invariant i <= |items|
        invariant out + PrintItems(items[i..]) == old(out) + "[" + PrintItems(items)
      {
        PrintItemsFrom(items, i);
        Marshal(items[i]);
        if i == |items| - 1 {
          break;
        }
        Write(",");
        i := i + 1;
      }
      Write("]");
    }

    method MarshalObject(v: Value)
      requires v.Object?
      modifies this
      ensures out == old(out) + "{" + PrintMembers(v, SortedKeys(v.members.Keys)) + "}"
      decreases v, 1
    {
      Write("{");
      var keys := OrderedKeys(v.members);
      MarshalMapOrderedKeys(keys, v);
      Write("}");
    }

    method MarshalMapOrderedKeys(keys: seq<string>, v: Value)
      requires v.Object? && forall k :: k in keys ==> k in v.members
      modifies this
      ensures out == old(out) + PrintMembers(v, keys)
      decreases v, 0
    {
      hide Quoted, Print, PrintMembers;
      PrintNothing(v, [], keys);
      var i := 0;
      while i < |keys|
        invariant i <= |keys|
        invariant out + PrintMembers(v, keys[i..]) == old(out) + PrintMembers(v, keys)
      {
        PrintMembersFrom(v, keys, i);
        Write(Quoted(keys[i]));
        Write(":");
        Marshal(v.members[keys[i]]);
        if i == |keys| - 1 {
          break;
        }
        Write(",");
        i := i + 1;
      }
    }
  }

  // ---- The reader ---------------------------------------------------------------------------

  // A hexadecimal digit as json.Marshal writes it; other characters count as zero.
  function HexValue(c: char): nat {
    if IsDigit(c) then c as int - '0' as int
    else if 'a' <= c <= 'f' then c as int - 'a' as int + 10
    else 0
  }

  // The character that t can only begin with an escape of.
  function Guess(t: string): char
    requires t != ""
  {
    if t[0] != '\\' || |t| == 1 then t[0]
    else if t[1] == 'n' then '\n'
    else if t[1] == 'r' then '\r'
    else if t[1] == 't' then '\t'
    else if t[1] == 'u' && |t| >= 6 then
      var code := ((HexValue(t[2]) * 16 + HexValue(t[3])) * 16 + HexValue(t[4])) * 16 + HexValue(t[5]);
      if code < 0xD800 then code as char else 'u'
    else t[1]
  }

  function ReadChar(t: string): (r: Option<(char, string)>)
    requires t != ""
    ensures r.Some? ==> |r.value.1| < |t|
  {
    var e := Escaped(Guess(t));
    if e <= t then Some((Guess(t), t[|e|..])) else None
  }

  // The rest of a string, with its closing quote.
  function ReadChars(t: string): (r: Option<(string, string)>)
    ensures r.Some? ==> |r.value.1| < |t|
    decreases |t|
  {
    if t == "" then None
    else if t[0] == '"' then Some(("", t[1..]))
    else match ReadChar(t)
         case None => None
         case Some((c, t')) =>
           match ReadChars(t')
           case None => None
           case Some((s, rest)) => Some(([c] + s, rest))
  }

  function ReadString(t: string): (r: Option<(string, string)>)
    ensures r.Some? ==> |r.value.1| < |t|
  {
    if t == "" || t[0] != '"' then None else ReadChars(t[1..])
  }

  function LeadingDigits(s: string): (n: nat)
    ensures n <= |s|
  {
    if s == "" || !IsDigit(s[0]) then 0 else 1 + LeadingDigits(s[1..])
  }

  function ReadFloat(t: string): (r: Option<(string, string)>)
    ensures r.Some? ==> |r.value.1| < |t|
  {
    var start := if t != "" && t[0] == '-' then 11 else 10;
    if |t| < start then None
    else
      var n := start + LeadingDigits(t[start..]);
      if IsFloat(t[..n]) then Some((t[..n], t[n..])) else None
  }

  function ReadWord(t: string, word: string, v: Value): (r: Option<(Value, string)>)
    ensures r.Some? && word != "" ==> |r.value.1| < |t|
  {
    if word <= t then Some((v, t[|word|..])) else None
  }

  function Read(t: string): (r: Option<(Value, string)>)
    ensures r.Some? ==> |r.value.1| < |t|
    decreases |t|, 1
  {
    if t == "" then None
    else if t[0] == 'n' then ReadWord(t, "null", Null)
    else if t[0] == 't' then ReadWord(t, "true", Bool(true))
    else if t[0] == 'f' then ReadWord(t, "false", Bool(false))
    else if t[0] == '"' then
      match ReadString(t) case None => None case Some((s, rest)) => Some((String(s), rest))
    else if t[0] == '[' then
      if |t| > 1 && t[1] == ']' then Some((Array([]), t[2..]))
      else match ReadItems(t[1..]) case None => None case Some((items, rest)) => Some((Array(items), rest))
    else if t[0] == '{' then
      if |t| > 1 && t[1] == '}' then Some((Object(map[]), t[2..]))
      else match ReadMembers(t[1..])
           case None => None
           case Some((_, members, rest)) => Some((Object(members), rest))
    else
      match ReadFloat(t) case None => None case Some((text, rest)) => Some((Number(text), rest))
  }

  // One or more values separated by commas, and the closing bracket.
  function ReadItems(t: string): (r: Option<(seq<Value>, string)>)
    ensures r.Some? ==> |r.value.1| < |t|
    decreases |t|, 2
  {
    match Read(t)
    case None => None
    case Some((v, t')) =>
      if t' == "" then None
      else if t'[0] == ']' then Some(([v], t'[1..]))
      else if t'[0] != ',' then None
      else match ReadItems(t'[1..])
           case None => None
           case Some((vs, rest)) => Some(([v] + vs, rest))
  }

  // A key, a colon and a value.
  function ReadMember(t: string): (r: Option<(string, Value, string)>)
    ensures r.Some? ==> |r.value.2| < |t|
    decreases |t|, 2
  {
    match ReadString(t)
    case None => None
    case Some((key, t')) =>
      if t' == "" || t'[0] != ':' then None
      else match Read(t'[1..])
           case None => None
           case Some((v, rest)) => Some((key, v, rest))
  }

  // One or more members with increasing keys, and the closing brace.
  function ReadMembers(t: string): (r: Option<(seq<string>, map<string, Value>, string)>)
    ensures r.Some? ==> |r.value.2| < |t| && r.value.0 != []
    decreases |t|, 3
  {
    match ReadMember(t)
    case None => None
    case Some((key, v, t')) =>
      if t' == "" then None
      else if t'[0] == '}' then Some(([key], map[key := v], t'[1..]))
      else if t'[0] != ',' then None
      else match ReadMembers(t'[1..])
           case None => None
           case Some((keys, members, rest)) =>
             if Before(key, keys[0]) then Some(([key] + keys, members[key := v], rest)) else None
  }

  // ---- Characters, strings and numbers ------------------------------------------------------

  // Characters written as two hexadecimal digits.
  lemma GuessHex(c: char, rest: string)
    requires c < '@'
    ensures Guess("\\u00" + [HEX[c as int / 16], HEX[c as int % 16]] + rest) == c
  {
    HexDigits(c as int / 16);
    HexDigits(c as int % 16);
  }

  lemma HexDigits(d: nat)
    requires d < 16
    ensures HexValue(HEX[d]) == d
  {
  }

  lemma GuessEscaped(c: char, rest: string)
    ensures Guess(Escaped(c) + rest) == c
  {
    if c < '@' { GuessHex(c, rest); }
  }

  lemma ReadCharEscaped(c: char, rest: string)
    ensures ReadChar(Escaped(c) + rest) == Some((c, rest))
  {
    hide Escaped, Guess;
    GuessEscaped(c, rest);
    assert (Escaped(c) + rest)[|Escaped(c)|..] == rest;
  }

  lemma {:induction false} ReadCharsEscaped(s: string, rest: string)
    ensures ReadChars(EscapedAll(s) + "\"" + rest) == Some((s, rest))
  {
    hide Escaped, ReadChar;
    if s == "" {
      assert EscapedAll(s) + "\"" + rest == "\"" + rest;
    } else {
      var e, more := Escaped(s[0]), EscapedAll(s[1..]) + "\"" + rest;
      assert EscapedAll(s) + "\"" + rest == e + more;
      ReadCharEscaped(s[0], more);
      ReadCharsEscaped(s[1..], rest);
      assert s == [s[0]] + s[1..];
    }
  }

  lemma ReadQuoted(s: string, rest: string)
    ensures ReadString(Quoted(s) + rest) == Some((s, rest))
  {
    hide ReadChars, EscapedAll;
    ReadCharsEscaped(s, rest);
    assert (Quoted(s) + rest)[1..] == EscapedAll(s) + "\"" + rest;
  }

  lemma {:induction false} CharsRead(t: string)
    requires ReadChars(t).Some?
    ensures var (s, rest) := ReadChars(t).value; t == EscapedAll(s) + "\"" + rest
    decreases |t|
  {
    hide Escaped, Guess;
    var (s, rest) := ReadChars(t).value;
    if t[0] == '"' {
      assert t == "\"" + t[1..];
    } else {
      var (c, t') := ReadChar(t).value;
      CharsRead(t');
      assert t == Escaped(c) + t';
      assert s[1..] == ReadChars(t').value.0;
    }
  }

  lemma StringRead(t: string)
    requires ReadString(t).Some?
    ensures var (s, rest) := ReadString(t).value; t == Quoted(s) + rest
  {
    CharsRead(t[1..]);
    assert t == "\"" + t[1..];
  }

  // Text after a number that cannot be part of it.
  predicate Ends(rest: string) { rest == "" || !IsDigit(rest[0]) }

  lemma {:induction false} LeadingDigitsStop(digits: string, rest: string)
    requires AllDigits(digits) && Ends(rest)
    ensures LeadingDigits(digits + rest) == |digits|
  {
    if digits == "" {
      assert digits + rest == rest;
    } else {
      LeadingDigitsStop(digits[1..], rest);
      assert (digits + rest)[1..] == digits[1..] + rest;
    }
  }

  lemma ReadPrintedFloat(text: string, rest: string)
    requires IsFloat(text) && Ends(rest)
    ensures ReadFloat(text + rest) == Some((text, rest))
  {
    var start := if text[0] == '-' then 11 else 10;
    assert text[1..][10..] == text[11..];
    assert AllDigits(text[start..]);
    LeadingDigitsStop(text[start..], rest);
    assert (text + rest)[start..] == text[start..] + rest;
    assert (text + rest)[..|text|] == text && (text + rest)[|text|..] == rest;
  }

  // ---- The reader inverts the printer -------------------------------------------------------

  // Every number in v is a float's text.
  ghost predicate WellFormed(v: Value)
    decreases v
  {
    match v
    case Number(text) => IsFloat(text)
    case Array(items) => forall i :: 0 <= i < |items| ==> WellFormed(items[i])
    case Object(members) => forall k :: k in members ==> WellFormed(members[k])
    case _ => true
  }

  // What a printed value begins with.
  lemma FirstChar(v: Value)
    requires WellFormed(v)
    ensures Print(v) != ""
    ensures Print(v)[0] == match v
      case Null => 'n'
      case Bool(b) => if b then 't' else 'f'
      case String(_) => '"'
      case Array(_) => '['
      case Object(_) => '{'
      case Number(text) => text[0]
    ensures v.Number? ==> v.text[0] == '-' || IsDigit(v.text[0])
  {
  }

  lemma ReadPrintedWord(word: string, v: Value, rest: string)
    ensures ReadWord(word + rest, word, v) == Some((v, rest))
  {
    assert (word + rest)[|word|..] == rest;
  }

  // Reading a printed value, whatever comes after it.
  lemma {:induction false} ReadPrinted(v: Value, rest: string)
    requires WellFormed(v) && Ends(rest)
    ensures Read(Print(v) + rest) == Some((v, rest))
    decreases v, 1
  {
    hide ReadString, ReadItems, ReadMembers, ReadFloat, ReadWord, Quoted, SortedKeys, PrintItems, PrintMembers, IsFloat;
    FirstChar(v);
    assert (Print(v) + rest)[0] == Print(v)[0];
    match v
    case Null => ReadPrintedWord("null", v, rest);
    case Bool(b) => ReadPrintedWord(if b then "true" else "false", v, rest);
    case Number(text) => ReadPrintedFloat(text, rest);
    case String(s) => ReadQuoted(s, rest);
    case Array(items) => ReadPrintedArray(items, rest);
    case Object(members) => ReadPrintedObject(v, rest);
  }

  lemma {:induction false} ReadPrintedArray(items: seq<Value>, rest: string)
    requires Ends(rest) && forall i :: 0 <= i < |items| ==> WellFormed(items[i])
    ensures Read("[" + PrintItems(items) + "]" + rest) == Some((Array(items), rest))
    decreases items, 1
  {
    hide Print, WellFormed, ReadItems;
    var t := "[" + PrintItems(items) + "]" + rest;
    if items == [] {
      assert t == "[]" + rest;
      assert t[2..] == rest;
    } else {
      ReadPrintedItems(items, rest);
      assert t[1..] == PrintItems(items) + "]" + rest;
      FirstChar(items[0]);
      assert t[1] == Print(items[0])[0];
    }
  }

  lemma {:induction false} ReadPrintedItems(items: seq<Value>, rest: string)
    requires items != [] && forall i :: 0 <= i < |items| ==> WellFormed(items[i])
    ensures ReadItems(PrintItems(items) + "]" + rest) == Some((items, rest))
    decreases items, 0
  {
    hide Read, Print, WellFormed;
    var t := PrintItems(items) + "]" + rest;
    if |items| == 1 {
      assert t == Print(items[0]) + ("]" + rest);
      ReadPrinted(items[0], "]" + rest);
      assert items == [items[0]];
    } else {
      var more := PrintItems(items[1..]) + "]" + rest;
      assert t == Print(items[0]) + ("," + more);
      ReadPrinted(items[0], "," + more);
      ReadPrintedItems(items[1..], rest);
      assert ("," + more)[1..] == more;
      assert items == [items[0]] + items[1..];
    }
  }

  lemma Unwrap(opening: char, body: string, closing: string, rest: string)
    ensures ([opening] + body + closing + rest)[1..] == body + closing + rest
  {
  }

  ghost function Restrict(m: map<string, Value>, keys: seq<string>): map<string, Value>
    requires forall k :: k in keys ==> k in m
  {
    map k | k in keys :: m[k]
  }

  lemma RestrictMore(m: map<string, Value>, keys: seq<string>)
    requires keys != [] && forall k :: k in keys ==> k in m
    ensures Restrict(m, keys) == Restrict(m, keys[1..])[keys[0] := m[keys[0]]]
  {
    assert forall k :: k in keys <==> k == keys[0] || k in keys[1..];
  }

  ghost predicate WellFormedMembers(v: Value, keys: seq<string>) {
    v.Object? && forall k :: k in keys ==> k in v.members && WellFormed(v.members[k]) && v.members[k] < v
  }

  lemma MembersWellFormed(v: Value, keys: seq<string>)
    requires v.Object? && WellFormed(v) && forall k :: k in keys ==> k in v.members
    ensures WellFormedMembers(v, keys)
  {
  }

  lemma ReadObject(t: string, keys: seq<string>, members: map<string, Value>, rest: string)
    requires |t| > 1 && t[0] == '{' && t[1] != '}'
    requires ReadMembers(t[1..]) == Some((keys, members, rest))
    ensures Read(t) == Some((Object(members), rest))
  {
    hide ReadMembers;
  }

  lemma {:induction false} ReadPrintedObject(v: Value, rest: string)
    requires v.Object? && WellFormed(v) && Ends(rest)
    ensures Read(Print(v) + rest) == Some((v, rest))
    decreases v, 0, 1
  {
    hide ReadMembers, Quoted, WellFormed, Read;
    var keys := SortedKeys(v.members.Keys);
    assert forall k :: k in keys <==> k in Elements(keys);
    var t := Print(v) + rest;
    assert Print(v) == "{" + PrintMembers(v, keys) + "}";
    if keys == [] {
      assert v.members == map[];
      assert t == "{}" + rest;
      ReadEmptyObject(rest);
    } else {
      MembersWellFormed(v, keys);
      ReadPrintedMembers(v, keys, rest);
      Unwrap('{', PrintMembers(v, keys), "}", rest);
      assert t[1] == Quoted(keys[0])[0];
      assert Restrict(v.members, keys) == v.members;
      ReadObject(t, keys, v.members, rest);
    }
  }

  lemma ReadEmptyObject(rest: string)
    ensures Read("{}" + rest) == Some((Object(map[]), rest))
  {
    assert ("{}" + rest)[2..] == rest;
  }

  lemma ReadLastMember(t: string, key: string, v: Value, rest: string)
    requires ReadMember(t) == Some((key, v, "}" + rest))
    ensures ReadMembers(t) == Some(([key], map[key := v], rest))
  {
    hide ReadMember;
    assert ("}" + rest)[1..] == rest;
  }

  lemma ReadMoreMembers(t: string, key: string, v: Value, more: string,
                        keys: seq<string>, members: map<string, Value>, rest: string)
    requires ReadMember(t) == Some((key, v, "," + more))
    requires ReadMembers(more) == Some((keys, members, rest)) && Before(key, keys[0])
    ensures ReadMembers(t) == Some(([key] + keys, members[key := v], rest))
  {
    hide ReadMember, Before;
    assert ("," + more)[1..] == more;
  }

  lemma {:induction false} ReadPrintedMembers(v: Value, keys: seq<string>, rest: string)
    requires WellFormedMembers(v, keys) && keys != [] && Increasing(Before, keys)
    ensures ReadMembers(PrintMembers(v, keys) + "}" + rest) == Some((keys, Restrict(v.members, keys), rest))
    decreases v, 0, 0, |keys|
  {
    hide ReadMember, ReadMembers, Print, WellFormed, Before, Quoted;
    var key := keys[0];
    var t := PrintMembers(v, keys) + "}" + rest;
    RestrictMore(v.members, keys);
    if |keys| == 1 {
      assert t == Quoted(key) + ":" + Print(v.members[key]) + ("}" + rest);
      ReadPrintedMember(v, key, "}" + rest);
      ReadLastMember(t, key, v.members[key], rest);
      assert keys == [key];
    } else {
      var more := PrintMembers(v, keys[1..]) + "}" + rest;
      assert t == Quoted(key) + ":" + Print(v.members[key]) + ("," + more);
      ReadPrintedMember(v, key, "," + more);
      ReadPrintedMembers(v, keys[1..], rest);
      ReadMoreMembers(t, key, v.members[key], more, keys[1..], Restrict(v.members, keys[1..]), rest);
      assert keys == [key] + keys[1..];
    }
  }

  lemma {:induction false} ReadPrintedMember(v: Value, key: string, rest: string)
    requires v.Object? && key in v.members && WellFormed(v.members[key]) && Ends(rest)
    ensures ReadMember(Quoted(key) + ":" + Print(v.members[key]) + rest) == Some((key, v.members[key], rest))
    decreases v, 0, 0, 0
  {
    hide ReadString, Read, Print, WellFormed, Quoted;
    var more := ":" + Print(v.members[key]) + rest;
    assert Quoted(key) + ":" + Print(v.members[key]) + rest == Quoted(key) + more;
    ReadQuoted(key, more);
    ReadPrinted(v.members[key], rest);
    assert more[1..] == Print(v.members[key]) + rest;
  }

  // ---- The reader accepts nothing else ------------------------------------------------------

  lemma {:induction false} ReadIsPrinted(t: string)
    requires Read(t).Some?
    ensures var (v, rest) := Read(t).value; WellFormed(v) && t == Print(v) + rest
    decreases |t|, 1
  {
    hide ReadString, ReadItems, ReadMembers, ReadFloat, Quoted, SortedKeys, PrintItems, PrintMembers, IsFloat;
    var (v, rest) := Read(t).value;
    if t[0] == '"' {
      StringRead(t);
    } else if t[0] == '[' {
      ArrayIsPrinted(t);
    } else if t[0] == '{' {
      ObjectIsPrinted(t);
    } else if t[0] != 'n' && t[0] != 't' && t[0] != 'f' {
      FloatRead(t);
    } else {
      assert t == Print(v) + t[|Print(v)|..];
    }
  }

  lemma FloatRead(t: string)
    requires ReadFloat(t).Some?
    ensures var (text, rest) := ReadFloat(t).value; IsFloat(text) && t == text + rest
  {
  }

  lemma {:induction false} ArrayIsPrinted(t: string)
    requires t != "" && t[0] == '[' && Read(t).Some?
    ensures var (v, rest) := Read(t).value; WellFormed(v) && t == Print(v) + rest
    decreases |t|, 0
  {
    hide ReadItems;
    var (v, rest) := Read(t).value;
    if |t| > 1 && t[1] == ']' {
      assert t == "[]" + t[2..];
      assert Print(v) == "[" + PrintItems([]) + "]" == "[]";
    } else {
      ItemsArePrinted(t[1..]);
      assert t == "[" + t[1..];
    }
  }

  lemma {:induction false} ItemsArePrinted(t: string)
    requires ReadItems(t).Some?
    ensures var (items, rest) := ReadItems(t).value;
            && items != [] && (forall i :: 0 <= i < |items| ==> WellFormed(items[i]))
            && t == PrintItems(items) + "]" + rest
    decreases |t|, 2
  {
    hide Read, Print, WellFormed;
    ReadIsPrinted(t);
    var (v, t') := Read(t).value;
    var (items, rest) := ReadItems(t).value;
    if t'[0] == ']' {
      assert t' == "]" + t'[1..];
    } else {
      ItemsArePrinted(t'[1..]);
      assert t' == "," + t'[1..];
      assert items[1..] == ReadItems(t'[1..]).value.0;
    }
  }

  lemma {:induction false} MemberIsPrinted(t: string)
    requires ReadMember(t).Some?
    ensures var (key, v, rest) := ReadMember(t).value;
            WellFormed(v) && t == Quoted(key) + ":" + Print(v) + rest
    decreases |t|, 2
  {
    hide ReadString, Read, Print, WellFormed, Quoted;
    var (key, t') := ReadString(t).value;
    StringRead(t);
    ReadIsPrinted(t'[1..]);
    assert t' == ":" + t'[1..];
  }

  // Members printed from two objects that agree on the keys.
  lemma {:induction false} PrintMembersAgree(v: Value, w: Value, keys: seq<string>)
    requires v.Object? && w.Object?
    requires forall k :: k in keys ==> k in v.members && k in w.members && v.members[k] == w.members[k]
    ensures PrintMembers(v, keys) == PrintMembers(w, keys)
    decreases |keys|
  {
    hide Print, Quoted;
    if keys != [] {
      PrintMembersAgree(v, w, keys[1..]);
    }
  }

  ghost predicate GoodMembers(keys: seq<string>, members: map<string, Value>) {
    && keys != [] && AreSortedKeys(keys, members.Keys)
    && (forall k :: k in keys ==> k in members)
    && forall k :: k in members ==> WellFormed(members[k])
  }

  // One more member in front.
  lemma GoodMembersMore(key: string, v: Value, keys: seq<string>, members: map<string, Value>)
    requires GoodMembers(keys, members) && WellFormed(v) && Before(key, keys[0])
    ensures GoodMembers([key] + keys, members[key := v])
    ensures key !in keys
  {
    hide WellFormed, Before;
    BeforeIsOrder();
    forall i | 0 <= i < |keys|
      ensures Before(key, keys[i])
    {
      assert i > 0 ==> Before(keys[0], keys[i]);
    }
    var more := [key] + keys;
    assert forall i :: 1 <= i < |more| ==> more[i] == keys[i - 1];
    assert forall x :: x in more <==> x == key || x in keys;
    assert forall x :: x in keys <==> x in Elements(keys);
    assert Elements(more) == members.Keys + {key};
  }

  lemma PrintMembersMore(v: Value, key: string, keys: seq<string>)
    requires v.Object? && key in v.members && forall k :: k in keys ==> k in v.members
    ensures PrintMembers(v, [key] + keys)
         == Quoted(key) + ":" + Print(v.members[key]) + if keys == [] then "" else "," + PrintMembers(v, keys)
  {
    hide Print, Quoted;
    assert ([key] + keys)[1..] == keys;
  }

  lemma LastMemberIsPrinted(t: string, key: string, v: Value, t': string)
    requires ReadMember(t) == Some((key, v, t')) && WellFormed(v)
    requires t == Quoted(key) + ":" + Print(v) + t' && t' != "" && t'[0] == '}'
    ensures GoodMembers([key], map[key := v])
    ensures t == PrintMembers(Object(map[key := v]), [key]) + "}" + t'[1..]
  {
    hide ReadMember, Print, WellFormed, Before, Quoted;
    assert t' == "}" + t'[1..];
    assert Elements([key]) == {key};
    PrintMembersMore(Object(map[key := v]), key, []);
    assert [key] + [] == [key];
  }

  lemma MoreMembersArePrinted(t: string, key: string, v: Value, t': string,
                              keys: seq<string>, members: map<string, Value>, rest: string)
    requires t == Quoted(key) + ":" + Print(v) + t' && WellFormed(v) && t' != "" && t'[0] == ','
    requires GoodMembers(keys, members) && Before(key, keys[0])
    requires t'[1..] == PrintMembers(Object(members), keys) + "}" + rest
    ensures GoodMembers([key] + keys, members[key := v])
    ensures t == PrintMembers(Object(members[key := v]), [key] + keys) + "}" + rest
  {
    hide Print, WellFormed, Before, Quoted, PrintMembers;
    assert t' == "," + t'[1..];
    GoodMembersMore(key, v, keys, members);
    var more := Object(members[key := v]);
    PrintMembersAgree(Object(members), more, keys);
    PrintMembersMore(more, key, keys);
  }

  lemma {:induction false} MembersArePrinted(t: string)
    requires ReadMembers(t).Some?
    ensures var (keys, members, rest) := ReadMembers(t).value;
            GoodMembers(keys, members) && t == PrintMembers(Object(members), keys) + "}" + rest
    decreases |t|, 3
  {
    hide ReadMember, Print, WellFormed, Before, Quoted, PrintMembers, GoodMembers;
    var (key, v, t') := ReadMember(t).value;
    MemberIsPrinted(t);
    if t'[0] == '}' {
      LastMemberIsPrinted(t, key, v, t');
    } else {
      var (keys, members, rest) := ReadMembers(t'[1..]).value;
      MembersArePrinted(t'[1..]);
      MoreMembersArePrinted(t, key, v, t', keys, members, rest);
    }
  }

  lemma {:induction false} ObjectIsPrinted(t: string)
    requires t != "" && t[0] == '{' && Read(t).Some?
    ensures var (v, rest) := Read(t).value; WellFormed(v) && t == Print(v) + rest
    decreases |t|, 0
  {
    hide ReadMembers, WellFormed, Print, PrintMembers, AreSortedKeys;
    if |t| > 1 && t[1] == '}' {
      assert t == "{}" + t[2..];
      PrintEmptyObject();
    } else {
      var (keys, members, rest) := ReadMembers(t[1..]).value;
      MembersArePrinted(t[1..]);
      PrintObject(members, keys);
      assert t == "{" + t[1..];
      ObjectWellFormed(members);
    }
  }

  lemma PrintObject(members: map<string, Value>, keys: seq<string>)
    requires AreSortedKeys(keys, members.Keys) && forall k :: k in keys ==> k in members
    ensures Print(Object(members)) == "{" + PrintMembers(Object(members), keys) + "}"
  {
    hide PrintMembers;
    SortedKeysUnique(keys, members.Keys);
  }

  lemma PrintEmptyObject()
    ensures Print(Object(map[])) == "{}" && WellFormed(Object(map[]))
  {
    hide SortedKeys;
    var v: Value := Object(map[]);
    SortedKeysUnique([], v.members.Keys);
    assert PrintMembers(v, []) == "";
  }

  lemma ObjectWellFormed(members: map<string, Value>)
    requires forall k :: k in members ==> WellFormed(members[k])
    ensures WellFormed(Object(members))
  {
  }

  // The reader and the printer are inverse to each other: a text is the normal form of a value
  // exactly when the reader takes all of it and returns that value.
  lemma ReadExactlyPrinted(t: string, v: Value)
    ensures Read(t) == Some((v, "")) <==> WellFormed(v) && t == Print(v)
  {
    hide Read, Print, WellFormed;
    if Read(t) == Some((v, "")) {
      ReadIsPrinted(t);
      assert Print(v) + "" == Print(v);
    }
    if WellFormed(v) && t == Print(v) {
      ReadPrinted(v, "");
      assert Print(v) + "" == Print(v);
    }
  }

  // So two values have the same normal form only if they are the same.
  lemma NormalFormIsUnambiguous(v: Value, w: Value)
    requires WellFormed(v) && WellFormed(w) && Print(v) == Print(w)
    ensures v == w
  {
    hide Read, Print, WellFormed;
    ReadExactlyPrinted(Print(v), v);
    ReadExactlyPrinted(Print(v), w);
  }
}
