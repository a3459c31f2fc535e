/** Sorting by key: the order is total, and sorted fields are determined by what they map. */
module KeyOrder {
  import opened Canonical

  lemma {:induction false} UnitsTotal(a: seq<int>, b: seq<int>)
    ensures a == b || UnitsLess(a, b) || UnitsLess(b, a)
    ensures !UnitsLess(a, a)
    decreases |a| + |b|
  {
    if a != [] && b != [] {
      UnitsTotal(a[1..], b[1..]);
      if a[0] == b[0] && a[1..] == b[1..] {
        assert a == [a[0]] + a[1..] && b == [b[0]] + b[1..];
      }
    } else if a != [] {
      UnitsTotal(a[1..], b);
    }
  }

  lemma {:induction false} UnitsTransitive(a: seq<int>, b: seq<int>, c: seq<int>)
    requires UnitsLess(a, b) && UnitsLess(b, c)
    ensures UnitsLess(a, c)
  {
    if a != [] && a[0] == b[0] == c[0] {
      UnitsTransitive(a[1..], b[1..], c[1..]);
    }
  }

  // A first unit tells whether a second belongs to it.
  lemma CharUnitsDecode(c: char, d: char)
    ensures |CharUnits(c)| == (if 0xD800 <= CharUnits(c)[0] < 0xDC00 then 2 else 1)
    ensures CharUnits(c) == CharUnits(d) ==> c == d
  {
    if CharUnits(c) == CharUnits(d) && c as int >= 0x1_0000 && d as int >= 0x1_0000 {
      var m, n := c as int - 0x1_0000, d as int - 0x1_0000;
      assert m == m / 0x400 * 0x400 + m % 0x400 && n == n / 0x400 * 0x400 + n % 0x400;
    }
  }

  lemma {:induction false} UnitsDecode(a: string, b: string)
    requires Units(a) == Units(b)
    ensures a == b
  {
    if a == "" || b == "" {
      NoUnits(a);
      NoUnits(b);
    } else {
      var x, y := CharUnits(a[0]), CharUnits(b[0]);
      CharUnitsDecode(a[0], b[0]);
      CharUnitsDecode(b[0], a[0]);
      assert x[0] == Units(a)[0] == Units(b)[0] == y[0];
      assert x == Units(a)[..|x|] && y == Units(b)[..|y|];
      assert Units(a[1..]) == Units(a)[|x|..] && Units(b[1..]) == Units(b)[|y|..];
      UnitsDecode(a[1..], b[1..]);
      assert a == [a[0]] + a[1..] && b == [b[0]] + b[1..];
    }
  }

  lemma NoUnits(s: string)
    ensures Units(s) == [] <==> s == ""
  {
  }

  lemma LessIrreflexive(a: string)
    ensures !Less(a, a)
  {
    UnitsTotal(Units(a), Units(a));
  }

  lemma LessTotal(a: string, b: string)
    ensures a == b || Less(a, b) || Less(b, a)
  {
    UnitsTotal(Units(a), Units(b));
    if Units(a) == Units(b) {
      UnitsDecode(a, b);
    }
  }

  lemma LessTransitive(a: string, b: string, c: string)
    requires Less(a, b) && Less(b, c)
    ensures Less(a, c)
  {
    UnitsTransitive(Units(a), Units(b), Units(c));
  }

  predicate Sorted<T>(fields: seq<Field<T>>) {
    forall i, j :: 0 <= i < j < |fields| ==> Less(fields[i].key, fields[j].key)
  }

  lemma {:induction false} InsertMembers<T>(f: Field<T>, fields: seq<Field<T>>)
    ensures |Insert(f, fields)| == |fields| + 1
    ensures f in Insert(f, fields)
    ensures forall i :: 0 <= i < |fields| + 1 ==> Insert(f, fields)[i] == f || Insert(f, fields)[i] in fields
    ensures forall i :: 0 <= i < |fields| ==> fields[i] in Insert(f, fields)
  {
    if fields != [] && !Less(f.key, fields[0].key) {
      InsertMembers(f, fields[1..]);
      assert fields == [fields[0]] + fields[1..];
    }
  }

  lemma {:induction false} SortMembers<T>(fields: seq<Field<T>>)
    ensures |Sort(fields)| == |fields|
    ensures forall i :: 0 <= i < |fields| ==> Sort(fields)[i] in fields
    ensures forall i :: 0 <= i < |fields| ==> fields[i] in Sort(fields)
  {
    if fields != [] {
      SortMembers(fields[1..]);
      InsertMembers(fields[0], Sort(fields[1..]));
      assert fields == [fields[0]] + fields[1..];
    }
  }

  lemma {:induction false} InsertSorts<T>(f: Field<T>, fields: seq<Field<T>>)
    requires Sorted(fields) && forall g :: g in fields ==> g.key != f.key
    ensures Sorted(Insert(f, fields))
  {
    if fields == [] {
    } else if Less(f.key, fields[0].key) {
      forall g | g in fields
        ensures Less(f.key, g.key)
      {
        if g != fields[0] {
          assert g in fields[1..];
          LessTransitive(f.key, fields[0].key, g.key);
        }
      }
    } else {
      LessTotal(f.key, fields[0].key);
      assert fields[0] in fields;
      assert Less(fields[0].key, f.key);
      InsertSorts(f, fields[1..]);
      InsertMembers(f, fields[1..]);
      forall g | g in Insert(f, fields[1..])
        ensures Less(fields[0].key, g.key)
      {
        assert g == f || g in fields[1..];
        if g in fields[1..] {
        }
      }
    }
  }

  lemma {:induction false} SortSorts<T>(fields: seq<Field<T>>)
    requires DistinctKeys(fields)
    ensures Sorted(Sort(fields))
  {
    if fields != [] {
      SortSorts(fields[1..]);
      SortMembers(fields[1..]);
      forall g | g in Sort(fields[1..])
        ensures g.key != fields[0].key
      {
        assert g in fields[1..];
        var i :| 0 <= i < |fields| - 1 && fields[1..][i] == g;
        assert fields[i + 1] == g;
      }
      InsertSorts(fields[0], Sort(fields[1..]));
    }
  }

  lemma SortedIsDistinct<T>(fields: seq<Field<T>>)
    requires Sorted(fields)
    ensures DistinctKeys(fields)
  {
    forall i, j | 0 <= i < j < |fields|
      ensures fields[i].key != fields[j].key
    {
      LessIrreflexive(fields[i].key);
    }
  }

  // --- sorted fields with the same keys stand in the same order ---

  function KeysOf<T>(fields: seq<Field<T>>): set<string> {
    set i | 0 <= i < |fields| :: fields[i].key
  }

  lemma KeysOfCons<T>(fields: seq<Field<T>>)
    requires Sorted(fields) && fields != []
    ensures KeysOf(fields) == {fields[0].key} + KeysOf(fields[1..])
    ensures forall k :: k in KeysOf(fields[1..]) ==> Less(fields[0].key, k)
    ensures fields[0].key !in KeysOf(fields[1..])
  {
    LessIrreflexive(fields[0].key);
    forall k | k in KeysOf(fields)
      ensures k in {fields[0].key} + KeysOf(fields[1..])
    {
      var i :| 0 <= i < |fields| && fields[i].key == k;
      if i > 0 {
        assert fields[1..][i - 1].key == k;
      }
    }
    forall k | k in KeysOf(fields[1..])
      ensures k in KeysOf(fields) && Less(fields[0].key, k)
    {
      var i :| 0 <= i < |fields| - 1 && fields[1..][i].key == k;
      assert fields[i + 1].key == k;
    }
  }

  lemma NoKeys<T>(fields: seq<Field<T>>)
    ensures KeysOf(fields) == {} <==> fields == []
  {
    if fields != [] {
      assert fields[0].key in KeysOf(fields);
    }
  }

  lemma {:induction false} SameKeysSameOrder<S, T>(a: seq<Field<S>>, b: seq<Field<T>>)
    requires Sorted(a) && Sorted(b) && KeysOf(a) == KeysOf(b)
    ensures |a| == |b| && forall i :: 0 <= i < |a| ==> a[i].key == b[i].key
  {
    NoKeys(a);
    NoKeys(b);
    if a != [] {
      KeysOfCons(a);
      KeysOfCons(b);
      FirstKeysEqual(a[0].key, KeysOf(a[1..]), b[0].key, KeysOf(b[1..]));
      assert KeysOf(a[1..]) == KeysOf(a) - {a[0].key} == KeysOf(b[1..]);
      SameKeysSameOrder(a[1..], b[1..]);
      forall i | 0 <= i < |a|
        ensures a[i].key == b[i].key
      {
        if i > 0 {
          assert a[i] == a[1..][i - 1] && b[i] == b[1..][i - 1];
        }
      }
    }
  }

  lemma FirstKeysEqual(a: string, restA: set<string>, b: string, restB: set<string>)
    requires {a} + restA == {b} + restB
    requires (forall k :: k in restA ==> Less(a, k)) && forall k :: k in restB ==> Less(b, k)
    ensures a == b
  {
    if a != b {
      assert b in {a} + restA && a in {b} + restB;
      NotBothLess(a, b);
    }
  }

  lemma NotBothLess(a: string, b: string)
    ensures !(Less(a, b) && Less(b, a))
  {
    if Less(a, b) && Less(b, a) {
      LessTransitive(a, b, a);
      LessIrreflexive(a);
    }
  }
}
