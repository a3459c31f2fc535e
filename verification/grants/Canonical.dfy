/** `stableStringify`: arguments printed with their object keys sorted. */
module Canonical {
  import opened Prelude
  import opened Text

  // Argument values: JSON with integer numbers, plus undefined. Fields are in insertion order.
  datatype Value =
    | Undefined
    | Null
    | Bool(b: bool)
    | Int(n: int)
    | Str(s: string)
    | Arr(items: seq<Value>)
    | Obj(fields: seq<Field<Value>>)

  datatype Field<T> = Field(key: string, value: T)

  // The same values without key order: what a canonical key has to tell apart.
  datatype Meaning =
    | MUndefined
    | MNull
    | MBool(b: bool)
    | MInt(n: int)
    | MStr(s: string)
    | MArr(items: seq<Meaning>)
    | MObj(fields: map<string, Meaning>)

  // Object keys are distinct, at every depth.
  predicate WellFormed(v: Value)
    decreases v
  {
    match v
    case Arr(items) => forall i :: 0 <= i < |items| ==> WellFormed(items[i])
    case Obj(fields) => DistinctKeys(fields) && forall i :: 0 <= i < |fields| ==> WellFormed(fields[i].value)
    case _ => true
  }

  predicate DistinctKeys<T>(fields: seq<Field<T>>) {
    forall i, j :: 0 <= i < j < |fields| ==> fields[i].key != fields[j].key
  }

  function MeaningOf(v: Value): Meaning
    decreases v, 0
  {
    match v
    case Undefined => MUndefined
    case Null => MNull
    case Bool(b) => MBool(b)
    case Int(n) => MInt(n)
    case Str(s) => MStr(s)
    case Arr(items) => MArr(MeaningsOf(items))
    case Obj(fields) => MObj(FieldsMeaning(fields))
  }

  function MeaningsOf(items: seq<Value>): (r: seq<Meaning>)
    ensures |r| == |items|
    decreases items, 0
  {
    if items == [] then [] else [MeaningOf(items[0])] + MeaningsOf(items[1..])
  }

  function FieldsMeaning(fields: seq<Field<Value>>): map<string, Meaning>
    decreases fields, 0
  {
    if fields == [] then map[]
    else FieldsMeaning(fields[1..])[fields[0].key := MeaningOf(fields[0].value)]
  }

  // --- JSON.stringify of scalars ---

  function Hex(n: nat): char
    requires n < 16
  {
    if n < 10 then '0' + n as char else 'a' + (n - 10) as char
  }

  // The letter of a two-character escape.
  function ShortEscape(c: char): Option<char> {
    if c == '"' then Some('"')
    else if c == '\\' then Some('\\')
    else if c == '\U{8}' then Some('b')
    else if c == '\t' then Some('t')
    else if c == '\n' then Some('n')
    else if c == '\U{C}' then Some('f')
    else if c == '\r' then Some('r')
    else None
  }

  function EscapeChar(c: char): (r: string)
    ensures r != ""
  {
    if ShortEscape(c).Some? then ['\\', ShortEscape(c).value]
    else if c < ' ' then ['\\', 'u', '0', '0', Hex(c as int / 16), Hex(c as int % 16)]
    else [c]
  }

  function Escape(s: string): string {
    if s == "" then "" else EscapeChar(s[0]) + Escape(s[1..])
  }

  function QuoteString(s: string): string {
    "\"" + Escape(s) + "\""
  }

  function PrintInt(n: int): string {
    if n < 0 then "-" + Decimal(-n) else Decimal(n)
  }

  // --- sorted printing ---

  // The UTF-16 code units of a character and of a string.
  function CharUnits(c: char): seq<int> {
    if c as int < 0x1_0000 then [c as int]
    else
      var n := c as int - 0x1_0000;
      [0xD800 + n / 0x400, 0xDC00 + n % 0x400]
  }

  function Units(s: string): seq<int> {
    if s == "" then [] else CharUnits(s[0]) + Units(s[1..])
  }

  predicate UnitsLess(a: seq<int>, b: seq<int>) {
    b != [] && (a == [] || a[0] < b[0] || (a[0] == b[0] && UnitsLess(a[1..], b[1..])))
  }

  // `a < b` on JavaScript strings
  predicate Less(a: string, b: string) {
    UnitsLess(Units(a), Units(b))
  }

  // `sort` by key.
  function Insert<T>(f: Field<T>, fields: seq<Field<T>>): seq<Field<T>> {
    if fields == [] || Less(f.key, fields[0].key) then [f] + fields
    else [fields[0]] + Insert(f, fields[1..])
  }

  function Sort<T>(fields: seq<Field<T>>): seq<Field<T>> {
    if fields == [] then [] else Insert(fields[0], Sort(fields[1..]))
  }

  function Print(v: Value): string
    decreases v, 0
  {
    match v
    case Undefined => "undefined"
    case Null => "null"
    case Bool(b) => if b then "true" else "false"
    case Int(n) => PrintInt(n)
    case Str(s) => QuoteString(s)
    case Arr(items) => "[" + JoinItems(PrintItems(items)) + "]"
    case Obj(fields) => "{" + JoinFields(Sort(PrintFields(fields))) + "}"
  }

  function PrintItems(items: seq<Value>): (r: seq<string>)
    ensures |r| == |items|
    decreases items, 0
  {
    if items == [] then [] else [Print(items[0])] + PrintItems(items[1..])
  }

  // The values are printed before the sort, which only looks at the keys.
  function PrintFields(fields: seq<Field<Value>>): (r: seq<Field<string>>)
    ensures |r| == |fields|
    decreases fields, 0
  {
    if fields == [] then []
    else [Field(fields[0].key, Print(fields[0].value))] + PrintFields(fields[1..])
  }

  function JoinItems(texts: seq<string>): string {
    if texts == [] then ""
    else texts[0] + (if |texts| == 1 then "" else "," + JoinItems(texts[1..]))
  }

  function JoinFields(fields: seq<Field<string>>): string {
    if fields == [] then ""
    else
      QuoteString(fields[0].key) + ":" + fields[0].value
      + (if |fields| == 1 then "" else "," + JoinFields(fields[1..]))
  }
}
