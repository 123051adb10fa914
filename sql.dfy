/**
  The slice of SQLite the model relies on: the values a column holds, the order `ORDER BY`
  puts them in (NULL before INTEGER before TEXT, text compared by character code as the
  default BINARY collation does), and an `ORDER BY` over a set of rows as a sort.
*/
module Sql {
  import opened Common

  datatype Value = Null | Int(i: int) | Text(s: string)

  // ---------------------------------------------------------------------------------------
  // Comparison
  // ---------------------------------------------------------------------------------------

  /** Three-way comparison of two texts, character by character; a proper prefix is smaller. */
  function CompareText(a: string, b: string): (c: int)
    ensures -1 <= c <= 1
    ensures c == 0 <==> a == b
  {
    if a == [] && b == [] then 0
    else if a == [] then -1
    else if b == [] then 1
    else if a[0] < b[0] then -1
    else if a[0] > b[0] then 1
    else
      var c := CompareText(a[1..], b[1..]);
      assert c == 0 ==> a == [a[0]] + a[1..] == [b[0]] + b[1..] == b;
      assert a == b ==> a[1..] == b[1..];
      c
  }

  lemma {:induction false} CompareTextAntisymmetric(a: string, b: string)
    ensures CompareText(a, b) == -CompareText(b, a)
  {
    if a != [] && b != [] && a[0] == b[0] {
      CompareTextAntisymmetric(a[1..], b[1..]);
    }
  }

  lemma {:induction false} CompareTextTransitive(a: string, b: string, c: string)
    requires CompareText(a, b) <= 0 && CompareText(b, c) <= 0
    ensures CompareText(a, c) <= 0
  {
    if a != [] && b != [] && c != [] && a[0] == b[0] == c[0] {
      CompareTextTransitive(a[1..], b[1..], c[1..]);
    }
  }

  function Rank(v: Value): nat {
    match v
    case Null => 0
    case Int(_) => 1
    case Text(_) => 2
  }

  /** SQLite's order on values: NULL, then integers by value, then text by BINARY collation. */
  function CompareValue(a: Value, b: Value): (c: int)
    ensures -1 <= c <= 1
    ensures c == 0 <==> a == b
  {
    if Rank(a) < Rank(b) then -1
    else if Rank(a) > Rank(b) then 1
    else match a
      case Null => 0
      case Int(x) => if x < b.i then -1 else if x > b.i then 1 else 0
      case Text(s) => CompareText(s, b.s)
  }

  lemma CompareValueAntisymmetric(a: Value, b: Value)
    ensures CompareValue(a, b) == -CompareValue(b, a)
  {
    if a.Text? && b.Text? {
      CompareTextAntisymmetric(a.s, b.s);
    }
  }

  lemma CompareValueTransitive(a: Value, b: Value, c: Value)
    requires CompareValue(a, b) <= 0 && CompareValue(b, c) <= 0
    ensures CompareValue(a, c) <= 0
  {
    if a.Text? && b.Text? && c.Text? {
      CompareTextTransitive(a.s, b.s, c.s);
    }
  }

  /** Lexicographic comparison of `ORDER BY` keys, column by column. */
  function CompareKey(a: seq<Value>, b: seq<Value>): (c: int)
    ensures -1 <= c <= 1
    ensures c == 0 <==> a == b
  {
    if a == [] && b == [] then 0
    else if a == [] then -1
    else if b == [] then 1
    else if CompareValue(a[0], b[0]) != 0 then CompareValue(a[0], b[0])
    else
      var c := CompareKey(a[1..], b[1..]);
      assert c == 0 ==> a == [a[0]] + a[1..] == [b[0]] + b[1..] == b;
      assert a == b ==> a[1..] == b[1..];
      c
  }

  lemma {:induction false} CompareKeyAntisymmetric(a: seq<Value>, b: seq<Value>)
    ensures CompareKey(a, b) == -CompareKey(b, a)
  {
    if a != [] && b != [] {
      CompareValueAntisymmetric(a[0], b[0]);
      if a[0] == b[0] {
        CompareKeyAntisymmetric(a[1..], b[1..]);
      }
    }
  }

  lemma {:induction false} CompareKeyTransitive(a: seq<Value>, b: seq<Value>, c: seq<Value>)
    requires CompareKey(a, b) <= 0 && CompareKey(b, c) <= 0
    ensures CompareKey(a, c) <= 0
  {
    if a != [] && b != [] && c != [] {
      CompareValueTransitive(a[0], b[0], c[0]);
      CompareValueAntisymmetric(a[0], b[0]);
      CompareValueAntisymmetric(b[0], c[0]);
      if a[0] == b[0] && b[0] == c[0] {
        CompareKeyTransitive(a[1..], b[1..], c[1..]);
      }
    }
  }

  /** An `ORDER BY` on one INTEGER column is ascending numeric order. */
  lemma IntKeyOrder(a: int, b: int)
    ensures CompareKey([Int(a)], [Int(b)]) <= 0 <==> a <= b
  {
    assert [Int(a)][1..] == [] && [Int(b)][1..] == [];
  }

  /** An `ORDER BY` on one column is the order of that column's values. */
  lemma SingleKeyOrder(a: Value, b: Value)
    ensures CompareKey([a], [b]) <= 0 <==> CompareValue(a, b) <= 0
  {
    assert [a][1..] == [] && [b][1..] == [];
  }

  /** An `ORDER BY` on two INTEGER columns is lexicographic numeric order. */
  lemma IntPairKeyOrder(a1: int, a2: int, b1: int, b2: int)
    ensures CompareKey([Int(a1), Int(a2)], [Int(b1), Int(b2)]) <= 0
      <==> a1 < b1 || (a1 == b1 && a2 <= b2)
  {
    assert [Int(a1), Int(a2)][1..] == [Int(a2)] && [Int(b1), Int(b2)][1..] == [Int(b2)];
    IntKeyOrder(a2, b2);
  }

  /** An `ORDER BY` on two columns compares the first, then the second. */
  lemma PairKeyOrder(a1: Value, a2: Value, b1: Value, b2: Value)
    ensures CompareKey([a1, a2], [b1, b2]) <= 0
      <==> CompareValue(a1, b1) < 0 || (a1 == b1 && CompareValue(a2, b2) <= 0)
  {
    assert [a1, a2][1..] == [a2] && [b1, b2][1..] == [b2];
    assert [a2][1..] == [] && [b2][1..] == [];
  }

  /** Texts whose prefixes have the same length compare by the prefixes, or by what follows. */
  lemma {:induction false} CompareTextAppend(a1: string, b1: string, a2: string, b2: string)
    requires |a1| == |a2|
    ensures CompareText(a1 + b1, a2 + b2)
         == if a1 == a2 then CompareText(b1, b2) else CompareText(a1, a2)
  {
    if a1 == [] {
      assert a1 + b1 == b1 && a2 + b2 == b2;
    } else {
      assert (a1 + b1)[0] == a1[0] && (a2 + b2)[0] == a2[0];
      assert (a1 + b1)[1..] == a1[1..] + b1 && (a2 + b2)[1..] == a2[1..] + b2;
      if a1[0] == a2[0] {
        CompareTextAppend(a1[1..], b1, a2[1..], b2);
        assert a1 == [a1[0]] + a1[1..] && a2 == [a2[0]] + a2[1..];
      }
    }
  }

  // ---------------------------------------------------------------------------------------
  // ORDER BY
  // ---------------------------------------------------------------------------------------

  /** `s` is in ascending order of `key`; rows with equal keys may come in any order. */
  ghost predicate SortedBy<T>(s: seq<T>, key: T -> seq<Value>) {
    forall i, j :: 0 <= i < j < |s| ==> CompareKey(key(s[i]), key(s[j])) <= 0
  }

  lemma SortedCons<T>(h: T, t: seq<T>, key: T -> seq<Value>)
    requires SortedBy(t, key)
    requires forall y :: y in t ==> CompareKey(key(h), key(y)) <= 0
    ensures SortedBy([h] + t, key)
  {
    var r := [h] + t;
    forall i, j | 0 <= i < j < |r| ensures CompareKey(key(r[i]), key(r[j])) <= 0 {
      if i == 0 {
        assert r[j] in t;
      } else {
        assert r[i] == t[i - 1] && r[j] == t[j - 1];
      }
    }
  }

  lemma DistinctCons<T>(h: T, t: seq<T>)
    requires Distinct(t) && h !in t
    ensures Distinct([h] + t)
  {
    var r := [h] + t;
    forall i, j | 0 <= i < j < |r| ensures r[i] != r[j] {
      if i == 0 {
        assert r[j] in t;
      } else {
        assert r[i] == t[i - 1] && r[j] == t[j - 1];
      }
    }
  }

  lemma SortedTail<T>(s: seq<T>, key: T -> seq<Value>)
    requires s != [] && SortedBy(s, key)
    ensures SortedBy(s[1..], key)
    ensures Distinct(s) ==> Distinct(s[1..]) && s[0] !in s[1..]
  {
    var tail := s[1..];
    forall i, j | 0 <= i < j < |tail| ensures CompareKey(key(tail[i]), key(tail[j])) <= 0 {
      assert tail[i] == s[i + 1] && tail[j] == s[j + 1];
    }
    if Distinct(s) {
      forall i, j | 0 <= i < j < |tail| ensures tail[i] != tail[j] {
        assert tail[i] == s[i + 1] && tail[j] == s[j + 1];
      }
      forall j | 0 <= j < |tail| ensures tail[j] != s[0] {
        assert tail[j] == s[j + 1];
      }
    }
  }

  /** Inserting at the front keeps `s` sorted when `x` is not above its head. */
  lemma InsertAtFront<T>(x: T, s: seq<T>, key: T -> seq<Value>)
    requires s != [] && SortedBy(s, key) && CompareKey(key(x), key(s[0])) <= 0
    ensures SortedBy([x] + s, key)
    ensures Distinct(s) && x !in s ==> Distinct([x] + s)
  {
    forall y | y in s ensures CompareKey(key(x), key(y)) <= 0 {
      var j :| 0 <= j < |s| && s[j] == y;
      if j > 0 { CompareKeyTransitive(key(x), key(s[0]), key(s[j])); }
    }
    SortedCons(x, s, key);
    if Distinct(s) && x !in s { DistinctCons(x, s); }
  }

  /** Inserting behind the head keeps the head first when `x` is above it. */
  lemma InsertBehindHead<T>(x: T, s: seq<T>, rest: seq<T>, key: T -> seq<Value>)
    requires s != [] && SortedBy(s, key) && CompareKey(key(x), key(s[0])) > 0
    requires SortedBy(rest, key)
    requires forall y :: y in rest <==> y == x || y in s[1..]
    requires Distinct(s) && x !in s ==> Distinct(rest)
    ensures SortedBy([s[0]] + rest, key)
    ensures Distinct(s) && x !in s ==> Distinct([s[0]] + rest)
  {
    SortedTail(s, key);
    forall y | y in rest ensures CompareKey(key(s[0]), key(y)) <= 0 {
      if y == x {
        CompareKeyAntisymmetric(key(x), key(s[0]));
      } else {
        var j :| 0 <= j < |s[1..]| && s[1..][j] == y;
        assert s[j + 1] == y;
      }
    }
    SortedCons(s[0], rest, key);
    if Distinct(s) && x !in s {
      DistinctCons(s[0], rest);
    }
  }

  function Insert<T(==,!new)>(x: T, s: seq<T>, key: T -> seq<Value>): (r: seq<T>)
    requires SortedBy(s, key)
    ensures |r| == |s| + 1
    ensures forall y :: y in r <==> y == x || y in s
    ensures SortedBy(r, key)
    ensures Distinct(s) && x !in s ==> Distinct(r)
  {
    if s == [] then [x]
    else if CompareKey(key(x), key(s[0])) <= 0 then
      InsertAtFront(x, s, key);
      [x] + s
    else
      SortedTail(s, key);
      var rest := Insert(x, s[1..], key);
      InsertBehindHead(x, s, rest, key);
      assert forall y :: y in s <==> y == s[0] || y in s[1..] by {
        assert s == [s[0]] + s[1..];
      }
      [s[0]] + rest
  }

  /** Insertion sort: the rows of `s`, each once, in ascending order of `key`. */
  function Sort<T(==,!new)>(s: seq<T>, key: T -> seq<Value>): (r: seq<T>)
    ensures |r| == |s|
    ensures forall y :: y in r <==> y in s
    ensures SortedBy(r, key)
    ensures Distinct(s) ==> Distinct(r)
  {
    if s == [] then []
    else
      var rest := Sort(s[1..], key);
      assert Distinct(s) ==> Distinct(s[1..]) && s[0] !in s[1..];
      Insert(s[0], rest, key)
  }

  /** The elements of a finite set in some order, each once. */
  ghost function Enumerate<T(!new)>(s: set<T>): (r: seq<T>)
    ensures |r| == |s| && Distinct(r)
    ensures forall y :: y in r <==> y in s
    decreases |s|
  {
    if s == {} then []
    else
      var x :| x in s;
      [x] + Enumerate(s - {x})
  }

  /** `SELECT ... ORDER BY key` over the rows identified by `rows`. */
  ghost function OrderBy<T(!new)>(rows: set<T>, key: T -> seq<Value>): (r: seq<T>)
    ensures |r| == |rows| && Distinct(r)
    ensures forall y :: y in r <==> y in rows
    ensures SortedBy(r, key)
  {
    Sort(Enumerate(rows), key)
  }

  /** Every row `OrderBy` lists lies in any set that contains the selected rows. */
  lemma OrderByWithin<T(!new)>(rows: set<T>, key: T -> seq<Value>, within: set<T>)
    requires rows <= within
    ensures forall i :: 0 <= i < |OrderBy(rows, key)| ==> OrderBy(rows, key)[i] in within
  {
  }
}
