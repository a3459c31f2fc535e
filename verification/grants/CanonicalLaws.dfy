/** Canonical printing is injective up to key order, and never prints U+0000. */
module CanonicalLaws {
  import opened Prelude
  import opened Text
  import opened Canonical
  import opened KeyOrder
  import opened Scalars

  // --- sorting and printing commute ---

  lemma {:induction false} PrintFieldsAt(fields: seq<Field<Value>>, i: nat)
    requires i < |fields|
    ensures PrintFields(fields)[i] == Field(fields[i].key, Print(fields[i].value))
  {
    if i > 0 {
      PrintFieldsAt(fields[1..], i - 1);
    }
  }

  lemma {:induction false} InsertPrinted(f: Field<Value>, fields: seq<Field<Value>>)
    ensures Insert(Field(f.key, Print(f.value)), PrintFields(fields)) == PrintFields(Insert(f, fields))
  {
    hide Print;
    var g := Field(f.key, Print(f.value));
    if fields == [] || Less(f.key, fields[0].key) {
      assert ([f] + fields)[1..] == fields;
    } else {
      InsertPrinted(f, fields[1..]);
      var r := Insert(f, fields);
      assert r[0] == fields[0] && r[1..] == Insert(f, fields[1..]);
      assert PrintFields(fields)[1..] == PrintFields(fields[1..]);
    }
  }

  lemma {:induction false} SortPrinted(fields: seq<Field<Value>>)
    ensures Sort(PrintFields(fields)) == PrintFields(Sort(fields))
  {
    hide Print;
    if fields != [] {
      SortPrinted(fields[1..]);
      assert PrintFields(fields)[1..] == PrintFields(fields[1..]);
      InsertPrinted(fields[0], Sort(fields[1..]));
    }
  }

  // --- what fields map ---

  lemma {:induction false} FieldsMeaningAt(fields: seq<Field<Value>>, i: nat)
    requires DistinctKeys(fields) && i < |fields|
    ensures fields[i].key in FieldsMeaning(fields)
    ensures FieldsMeaning(fields)[fields[i].key] == MeaningOf(fields[i].value)
  {
    if i > 0 {
      FieldsMeaningAt(fields[1..], i - 1);
    }
  }

  lemma {:induction false} FieldsMeaningKeys(fields: seq<Field<Value>>)
    ensures FieldsMeaning(fields).Keys == KeysOf(fields)
  {
    if fields != [] {
      FieldsMeaningKeys(fields[1..]);
      forall k | k in KeysOf(fields)
        ensures k in {fields[0].key} + KeysOf(fields[1..])
      {
        var i :| 0 <= i < |fields| && fields[i].key == k;
        if i > 0 {
          assert fields[1..][i - 1].key == k;
        }
      }
      forall k | k in KeysOf(fields[1..])
        ensures k in KeysOf(fields)
      {
        var i :| 0 <= i < |fields| - 1 && fields[1..][i].key == k;
        assert fields[i + 1].key == k;
      }
    }
  }

  lemma SortKeys(fields: seq<Field<Value>>)
    ensures KeysOf(Sort(fields)) == KeysOf(fields)
  {
    SortMembers(fields);
    forall k | k in KeysOf(fields)
      ensures k in KeysOf(Sort(fields))
    {
      var i :| 0 <= i < |fields| && fields[i].key == k;
      assert fields[i] in Sort(fields);
    }
    forall k | k in KeysOf(Sort(fields))
      ensures k in KeysOf(fields)
    {
      var i :| 0 <= i < |Sort(fields)| && Sort(fields)[i].key == k;
      assert Sort(fields)[i] in fields;
    }
  }

  // Sorting does not change what the fields map.
  lemma SortKeepsMeaning(fields: seq<Field<Value>>)
    requires DistinctKeys(fields)
    ensures FieldsMeaning(Sort(fields)) == FieldsMeaning(fields)
  {
    hide Sort, FieldsMeaning;
    var s := Sort(fields);
    SortKeys(fields);
    FieldsMeaningKeys(fields);
    FieldsMeaningKeys(s);
    SortSorts(fields);
    SortedIsDistinct(s);
    SortMembers(fields);
    forall k | k in FieldsMeaning(s)
      ensures k in FieldsMeaning(fields) && FieldsMeaning(s)[k] == FieldsMeaning(fields)[k]
    {
      var i :| 0 <= i < |s| && s[i].key == k;
      assert s[i] in fields;
      var j :| 0 <= j < |fields| && fields[j] == s[i];
      FieldsMeaningAt(s, i);
      FieldsMeaningAt(fields, j);
    }
  }

  // --- the first character of a printed value ---

  lemma PrintStarts(v: Value)
    ensures Print(v) != "" && !Stop(Print(v))
    ensures match v
            case Undefined => Print(v)[0] == 'u'
            case Null => Print(v)[0] == 'n'
            case Bool(b) => Print(v)[0] == if b then 't' else 'f'
            case Int(n) => Print(v)[0] == '-' || Digit(Print(v)[0])
            case Str(_) => Print(v)[0] == '"'
            case Arr(_) => Print(v)[0] == '['
            case Obj(_) => Print(v)[0] == '{'
  {
    hide PrintInt, Escape;
    if v.Int? {
      IntStarts(v.n);
    }
  }

  // The same first character: the same kind of value, and the same text if it is a word.
  lemma SameKind(a: Value, x: string, b: Value, y: string)
    requires Print(a) + x == Print(b) + y
    ensures a.Undefined? == b.Undefined? && a.Null? == b.Null? && a.Bool? == b.Bool? && a.Int? == b.Int?
    ensures a.Str? == b.Str? && a.Arr? == b.Arr? && a.Obj? == b.Obj?
    ensures a.Bool? && b.Bool? ==> a.b == b.b
  {
    hide Print;
    PrintStarts(a);
    PrintStarts(b);
    assert (Print(a) + x)[0] == Print(a)[0];
    assert (Print(b) + y)[0] == Print(b)[0];
  }

  // Text behind the first of several items, up to and with the closing bracket.
  function ItemsRest(texts: seq<string>, x: string): string {
    if texts == [] then "]" + x else "," + (JoinItems(texts) + ("]" + x))
  }

  function FieldsRest(fields: seq<Field<string>>, x: string): string {
    if fields == [] then "}" + x else "," + (JoinFields(fields) + ("}" + x))
  }

  lemma JoinItemsSplit(texts: seq<string>, x: string)
    requires texts != []
    ensures JoinItems(texts) + ("]" + x) == texts[0] + ItemsRest(texts[1..], x)
  {
    if |texts| > 1 {
      assert JoinItems(texts) == texts[0] + ("," + JoinItems(texts[1..]));
    } else {
      assert texts[1..] == [] && texts[0] + "" == texts[0];
    }
  }

  lemma JoinFieldsUnfold(fields: seq<Field<string>>)
    requires fields != []
    ensures JoinFields(fields) ==
            QuoteString(fields[0].key) + ":" + fields[0].value + CommaRest(fields[1..])
  {
  }

  lemma JoinFieldsSplit(fields: seq<Field<string>>, x: string)
    requires fields != []
    ensures JoinFields(fields) + ("}" + x) ==
            QuoteString(fields[0].key) + (":" + (fields[0].value + FieldsRest(fields[1..], x)))
  {
    hide QuoteString, JoinFields, FieldsRest;
    JoinFieldsUnfold(fields);
    RestIsFieldsRest(fields[1..], x);
  }

  function CommaRest(fields: seq<Field<string>>): string {
    if fields == [] then "" else "," + JoinFields(fields)
  }

  lemma RestIsFieldsRest(fields: seq<Field<string>>, x: string)
    ensures CommaRest(fields) + ("}" + x) == FieldsRest(fields, x)
  {
    hide JoinFields;
    if fields == [] {
      assert "" + ("}" + x) == "}" + x;
    } else {
      assert "," + JoinFields(fields) + ("}" + x) == "," + (JoinFields(fields) + ("}" + x));
    }
  }

  // --- printing is injective up to key order ---

  lemma {:induction false} ItemsArePrefixFree(a: seq<Value>, x: string, b: seq<Value>, y: string)
    requires forall i :: 0 <= i < |a| ==> WellFormed(a[i])
    requires forall i :: 0 <= i < |b| ==> WellFormed(b[i])
    requires JoinItems(PrintItems(a)) + ("]" + x) == JoinItems(PrintItems(b)) + ("]" + y)
    ensures MeaningsOf(a) == MeaningsOf(b) && x == y
    decreases a, 0, 0
  {
    hide Print, MeaningOf, WellFormed, Stop, JoinItems;
    if a == [] || b == [] {
      NoItems(a, x, b, y);
    } else {
      var p, q := PrintItems(a), PrintItems(b);
      var p', q' := PrintItems(a[1..]), PrintItems(b[1..]);
      assert p[1..] == p' && q[1..] == q';
      JoinItemsSplit(p, x);
      JoinItemsSplit(q, y);
      ItemsRestStops(p', x);
      ItemsRestStops(q', y);
      PrefixFree(a[0], ItemsRest(p', x), b[0], ItemsRest(q', y));
      ItemsRestsAlike(p', x, q', y);
      if p' == [] {
        assert a[1..] == [] && b[1..] == [];
      } else {
        ItemsArePrefixFree(a[1..], x, b[1..], y);
      }
    }
  }

  lemma ItemsRestStops(texts: seq<string>, x: string)
    ensures Stop(ItemsRest(texts, x))
  {
  }

  lemma ItemsRestsAlike(p: seq<string>, x: string, q: seq<string>, y: string)
    requires ItemsRest(p, x) == ItemsRest(q, y)
    ensures p == [] <==> q == []
    ensures if p == [] then x == y else JoinItems(p) + ("]" + x) == JoinItems(q) + ("]" + y)
  {
    hide JoinItems;
    var r, s := ItemsRest(p, x), ItemsRest(q, y);
    assert r[0] == s[0] && r[1..] == s[1..];
    assert r[1..] == if p == [] then x else JoinItems(p) + ("]" + x);
    assert s[1..] == if q == [] then y else JoinItems(q) + ("]" + y);
  }

  lemma NoItems(a: seq<Value>, x: string, b: seq<Value>, y: string)
    requires a == [] || b == []
    requires JoinItems(PrintItems(a)) + ("]" + x) == JoinItems(PrintItems(b)) + ("]" + y)
    ensures a == b == [] && x == y
  {
    hide Print, Stop, JoinItems;
    JoinedStart(a, x);
    JoinedStart(b, y);
    var s := JoinItems(PrintItems(a)) + ("]" + x);
    assert s[1..] == x && s[1..] == y;
  }

  lemma JoinedStart(a: seq<Value>, x: string)
    ensures JoinItems(PrintItems(a)) + ("]" + x) != ""
    ensures a == [] <==> (JoinItems(PrintItems(a)) + ("]" + x))[0] == ']'
    ensures a == [] ==> JoinItems(PrintItems(a)) + ("]" + x) == "]" + x
  {
    hide Print;
    if a != [] {
      PrintStarts(a[0]);
      JoinItemsSplit(PrintItems(a), x);
      assert (Print(a[0]) + ItemsRest(PrintItems(a)[1..], x))[0] == Print(a[0])[0];
    }
  }

  // Fields of the object `whole`, in the order they are printed.
  lemma {:induction false} FieldsArePrefixFree(a: seq<Field<Value>>, x: string, b: seq<Field<Value>>, y: string, whole: Value)
    requires forall i :: 0 <= i < |a| ==> WellFormed(a[i].value) && a[i].value < whole
    requires forall i :: 0 <= i < |b| ==> WellFormed(b[i].value)
    requires JoinFields(PrintFields(a)) + ("}" + x) == JoinFields(PrintFields(b)) + ("}" + y)
    ensures FieldsMeaning(a) == FieldsMeaning(b) && x == y
    decreases whole, 0, |a|
  {
    hide Print, MeaningOf, WellFormed, Stop, JoinFields, QuoteString;
    if a == [] || b == [] {
      NoFields(a, x, b, y);
    } else {
      var p, q := PrintFields(a), PrintFields(b);
      var p', q' := PrintFields(a[1..]), PrintFields(b[1..]);
      assert p[1..] == p' && q[1..] == q';
      JoinFieldsSplit(p, x);
      JoinFieldsSplit(q, y);
      var u, w := p[0].value + FieldsRest(p', x), q[0].value + FieldsRest(q', y);
      QuoteIsPrefixFree(p[0].key, ":" + u, q[0].key, ":" + w);
      assert u == (":" + u)[1..] == (":" + w)[1..] == w;
      FieldsRestStops(p', x);
      FieldsRestStops(q', y);
      PrefixFree(a[0].value, FieldsRest(p', x), b[0].value, FieldsRest(q', y));
      FieldsRestsAlike(p', x, q', y);
      if p' == [] {
        assert a[1..] == [] && b[1..] == [];
      } else {
        FieldsArePrefixFree(a[1..], x, b[1..], y, whole);
      }
    }
  }

  lemma FieldsRestStops(fields: seq<Field<string>>, x: string)
    ensures Stop(FieldsRest(fields, x))
  {
  }

  lemma FieldsRestsAlike(p: seq<Field<string>>, x: string, q: seq<Field<string>>, y: string)
    requires FieldsRest(p, x) == FieldsRest(q, y)
    ensures p == [] <==> q == []
    ensures if p == [] then x == y else JoinFields(p) + ("}" + x) == JoinFields(q) + ("}" + y)
  {
    hide JoinFields;
    var r, s := FieldsRest(p, x), FieldsRest(q, y);
    assert r[0] == s[0] && r[1..] == s[1..];
    assert r[1..] == if p == [] then x else JoinFields(p) + ("}" + x);
    assert s[1..] == if q == [] then y else JoinFields(q) + ("}" + y);
  }

  lemma NoFields(a: seq<Field<Value>>, x: string, b: seq<Field<Value>>, y: string)
    requires a == [] || b == []
    requires JoinFields(PrintFields(a)) + ("}" + x) == JoinFields(PrintFields(b)) + ("}" + y)
    ensures a == b == [] && x == y
  {
    hide Print, JoinFields;
    JoinedFieldsStart(a, x);
    JoinedFieldsStart(b, y);
    var s := JoinFields(PrintFields(a)) + ("}" + x);
    assert s[1..] == x && s[1..] == y;
  }

  lemma JoinedFieldsStart(a: seq<Field<Value>>, x: string)
    ensures JoinFields(PrintFields(a)) + ("}" + x) != ""
    ensures a == [] <==> (JoinFields(PrintFields(a)) + ("}" + x))[0] == '}'
    ensures a == [] ==> JoinFields(PrintFields(a)) + ("}" + x) == "}" + x
  {
    hide Print, Escape;
    if a != [] {
      var p := PrintFields(a);
      JoinFieldsSplit(p, x);
      var q := QuoteString(p[0].key);
      assert q[0] == '"';
      assert (q + (":" + (p[0].value + FieldsRest(p[1..], x))))[0] == q[0];
    }
  }

  // Equal prefixes: printed values that agree up to what follows them have the same meaning.
  lemma {:induction false} PrefixFree(a: Value, x: string, b: Value, y: string)
    requires WellFormed(a) && WellFormed(b) && Stop(x) && Stop(y)
    requires Print(a) + x == Print(b) + y
    ensures MeaningOf(a) == MeaningOf(b) && x == y
    decreases a, 1, 0
  {
    hide JoinItems, JoinFields, PrintInt, QuoteString, PrintItems, PrintFields, MeaningsOf, FieldsMeaning, Sort, Stop;
    SameKind(a, x, b, y);
    match a
    case Int(n) => IntIsPrefixFree(n, x, b.n, y);
    case Str(s) => QuoteIsPrefixFree(s, x, b.s, y);
    case Arr(items) =>
      BracketsAlike("[", JoinItems(PrintItems(items)), "]", x, JoinItems(PrintItems(b.items)), y);
      ItemsArePrefixFree(items, x, b.items, y);
    case Obj(fields) =>
      BracketsAlike("{", JoinFields(Sort(PrintFields(fields))), "}", x, JoinFields(Sort(PrintFields(b.fields))), y);
      SortPrinted(fields);
      SortPrinted(b.fields);
      SortedParts(a);
      SortedParts(b);
      FieldsArePrefixFree(Sort(fields), x, Sort(b.fields), y, a);
      SortKeepsMeaning(fields);
      SortKeepsMeaning(b.fields);
    case _ =>
      SameText(Print(a), x, Print(b), y);
  }

  lemma SameText(a: string, x: string, b: string, y: string)
    requires a == b && a + x == b + y
    ensures x == y
  {
    assert (a + x)[|a|..] == x && (b + y)[|b|..] == y;
  }

  lemma BracketsAlike(open: string, a: string, close: string, x: string, b: string, y: string)
    requires |open| == 1 && open + a + close + x == open + b + close + y
    ensures a + (close + x) == b + (close + y)
  {
    assert (open + a + close + x)[1..] == a + (close + x);
    assert (open + b + close + y)[1..] == b + (close + y);
  }

  lemma SortedParts(v: Value)
    requires v.Obj? && WellFormed(v)
    ensures forall i :: 0 <= i < |Sort(v.fields)| ==> WellFormed(Sort(v.fields)[i].value) && Sort(v.fields)[i].value < v
  {
    var s := Sort(v.fields);
    SortMembers(v.fields);
    forall i | 0 <= i < |s|
      ensures WellFormed(s[i].value) && s[i].value < v
    {
      assert s[i] in v.fields;
      var j :| 0 <= j < |v.fields| && v.fields[j] == s[i];
      assert v.fields[j].value < v;
    }
  }

  // --- values with the same meaning print alike ---

  lemma {:induction false} SameMeaningItems(a: seq<Value>, b: seq<Value>)
    requires forall i :: 0 <= i < |a| ==> WellFormed(a[i])
    requires forall i :: 0 <= i < |b| ==> WellFormed(b[i])
    requires MeaningsOf(a) == MeaningsOf(b)
    ensures PrintItems(a) == PrintItems(b)
    decreases a, 0
  {
    hide Print, MeaningOf, WellFormed;
    assert |a| == |b|;
    if a != [] {
      assert MeaningsOf(a)[0] == MeaningOf(a[0]) && MeaningsOf(b)[0] == MeaningOf(b[0]);
      assert MeaningsOf(a)[1..] == MeaningsOf(a[1..]) && MeaningsOf(b)[1..] == MeaningsOf(b[1..]);
      SameMeaningPrintsAlike(a[0], b[0]);
      SameMeaningItems(a[1..], b[1..]);
    }
  }

  lemma {:induction false} SameMeaningFields(a: Value, b: Value)
    requires a.Obj? && b.Obj? && WellFormed(a) && WellFormed(b)
    requires FieldsMeaning(a.fields) == FieldsMeaning(b.fields)
    ensures PrintFields(Sort(a.fields)) == PrintFields(Sort(b.fields))
    decreases a, 0
  {
    hide Print, MeaningOf, FieldsMeaning, Sort, PrintFields;
    var p, q := Sort(a.fields), Sort(b.fields);
    SortKeepsMeaning(a.fields);
    SortKeepsMeaning(b.fields);
    SortSorts(a.fields);
    SortSorts(b.fields);
    SortedIsDistinct(p);
    SortedIsDistinct(q);
    FieldsMeaningKeys(p);
    FieldsMeaningKeys(q);
    SameKeysSameOrder(p, q);
    SortedParts(a);
    SortedParts(b);
    forall i | 0 <= i < |p|
      ensures PrintFields(p)[i] == PrintFields(q)[i]
    {
      FieldsMeaningAt(p, i);
      FieldsMeaningAt(q, i);
      SameMeaningPrintsAlike(p[i].value, q[i].value);
      PrintFieldsAt(p, i);
      PrintFieldsAt(q, i);
    }
  }

  lemma {:induction false} SameMeaningPrintsAlike(a: Value, b: Value)
    requires WellFormed(a) && WellFormed(b) && MeaningOf(a) == MeaningOf(b)
    ensures Print(a) == Print(b)
    decreases a, 1
  {
    hide JoinItems, JoinFields, PrintInt, QuoteString, PrintItems, PrintFields, MeaningsOf, FieldsMeaning, Sort;
    match a
    case Arr(items) => SameMeaningItems(items, b.items);
    case Obj(fields) =>
      SameMeaningFields(a, b);
      SortPrinted(fields);
      SortPrinted(b.fields);
    case _ =>
  }

  // Canonical printing is injective up to key order: two values print alike exactly when they are
  // equal once key order is ignored at every depth.
  lemma PrintIsCanonical(a: Value, b: Value)
    requires WellFormed(a) && WellFormed(b)
    ensures Print(a) == Print(b) <==> MeaningOf(a) == MeaningOf(b)
  {
    hide Print, MeaningOf, WellFormed;
    if Print(a) == Print(b) {
      assert Print(a) + "" == Print(b) + "";
      PrefixFree(a, "", b, "");
    }
    if MeaningOf(a) == MeaningOf(b) {
      SameMeaningPrintsAlike(a, b);
    }
  }

  // --- no U+0000 is ever printed ---

  predicate NoNul(s: string) {
    forall i :: 0 <= i < |s| ==> s[i] != '\0'
  }

  lemma NoNulConcat(a: string, b: string)
    requires NoNul(a) && NoNul(b)
    ensures NoNul(a + b)
  {
  }

  lemma {:induction false} EscapeHasNoNul(s: string)
    ensures NoNul(Escape(s))
  {
    if s != "" {
      EscapeHasNoNul(s[1..]);
      NoNulConcat(EscapeChar(s[0]), Escape(s[1..]));
    }
  }

  lemma QuoteHasNoNul(s: string)
    ensures NoNul(QuoteString(s))
  {
    EscapeHasNoNul(s);
  }

  lemma IntHasNoNul(n: int)
    ensures NoNul(PrintInt(n))
  {
    hide Decimal;
  }

  lemma {:induction false} JoinItemsHasNoNul(texts: seq<string>)
    requires forall i :: 0 <= i < |texts| ==> NoNul(texts[i])
    ensures NoNul(JoinItems(texts))
  {
    if |texts| > 1 {
      JoinItemsHasNoNul(texts[1..]);
      NoNulConcat(",", JoinItems(texts[1..]));
      NoNulConcat(texts[0], "," + JoinItems(texts[1..]));
    }
  }

  lemma {:induction false} JoinFieldsHasNoNul(fields: seq<Field<string>>)
    requires forall i :: 0 <= i < |fields| ==> NoNul(fields[i].value)
    ensures NoNul(JoinFields(fields))
  {
    hide QuoteString, NoNul;
    Marks();
    if fields == [] {
      NothingJoined();
    } else {
      hide JoinFields;
      var q, t := QuoteString(fields[0].key), fields[0].value;
      JoinFieldsUnfold(fields);
      QuoteHasNoNul(fields[0].key);
      NoNulConcat(q, ":");
      NoNulConcat(q + ":", t);
      JoinFieldsHasNoNul(fields[1..]);
      NoNulConcat(",", JoinFields(fields[1..]));
      NoNulConcat(q + ":" + t, CommaRest(fields[1..]));
    }
  }

  lemma NothingJoined()
    ensures JoinFields([]) == ""
  {
  }

  lemma Marks()
    ensures NoNul("") && NoNul(":") && NoNul(",") && NoNul("[") && NoNul("]") && NoNul("{") && NoNul("}")
    ensures NoNul("undefined") && NoNul("null") && NoNul("true") && NoNul("false")
  {
  }

  lemma {:induction false} PrintHasNoNul(v: Value)
    ensures NoNul(Print(v))
    decreases v, 1
  {
    hide NoNul, JoinItems, JoinFields, PrintInt, QuoteString, PrintItems, PrintFields, Sort;
    Marks();
    match v
    case Int(n) => IntHasNoNul(n);
    case Str(s) => QuoteHasNoNul(s);
    case Arr(items) =>
      ItemsHaveNoNul(items);
      JoinItemsHasNoNul(PrintItems(items));
      NoNulConcat("[", JoinItems(PrintItems(items)));
      NoNulConcat("[" + JoinItems(PrintItems(items)), "]");
    case Obj(fields) =>
      var p := PrintFields(fields);
      FieldsHaveNoNul(fields);
      SortMembers(p);
      forall i | 0 <= i < |Sort(p)|
        ensures NoNul(Sort(p)[i].value)
      {
        assert Sort(p)[i] in p;
      }
      JoinFieldsHasNoNul(Sort(p));
      NoNulConcat("{", JoinFields(Sort(p)));
      NoNulConcat("{" + JoinFields(Sort(p)), "}");
    case _ =>
  }

  lemma {:induction false} ItemsHaveNoNul(items: seq<Value>)
    ensures forall i :: 0 <= i < |items| ==> NoNul(PrintItems(items)[i])
    decreases items, 0
  {
    hide NoNul, Print;
    if items != [] {
      PrintHasNoNul(items[0]);
      ItemsHaveNoNul(items[1..]);
    }
  }

  lemma {:induction false} FieldsHaveNoNul(fields: seq<Field<Value>>)
    ensures forall i :: 0 <= i < |fields| ==> NoNul(PrintFields(fields)[i].value)
    decreases fields, 0
  {
    hide NoNul, Print;
    if fields != [] {
      PrintHasNoNul(fields[0].value);
      FieldsHaveNoNul(fields[1..]);
    }
  }
}
