/** The values SQLite hands back for a column, the order `ORDER BY` puts them
    in, and a sort that realises an `ORDER BY` over a sequence of rows. */
module SqlValues {
  import opened Common

  /** A column value as fetched: `NULL`, an INTEGER (booleans are stored as
      1 and 0) or a TEXT. */
  datatype Value = Null | Int(i: int) | Text(t: string)

  /** SQLite's BINARY collation: character by character, a proper prefix
      first. */
  predicate TextLe(a: string, b: string)
    decreases |a|
  {
    a == [] || (b != [] && (a[0] < b[0] || (a[0] == b[0] && TextLe(a[1..], b[1..]))))
  }

  lemma {:induction false} TextLeReflexive(a: string)
    ensures TextLe(a, a)
    decreases |a|
  {
    if a != [] {
      TextLeReflexive(a[1..]);
    }
  }

  lemma {:induction false} TextLeTotal(a: string, b: string)
    ensures TextLe(a, b) || TextLe(b, a)
    decreases |a|
  {
    if a != [] && b != [] && a[0] == b[0] {
      TextLeTotal(a[1..], b[1..]);
    }
  }

  lemma {:induction false} TextLeAntisymmetric(a: string, b: string)
    requires TextLe(a, b) && TextLe(b, a)
    ensures a == b
    decreases |a|
  {
    if a != [] {
      TextLeAntisymmetric(a[1..], b[1..]);
      assert a == [a[0]] + a[1..] && b == [b[0]] + b[1..];
    }
  }

  lemma {:induction false} TextLeTransitive(a: string, b: string, c: string)
    requires TextLe(a, b) && TextLe(b, c)
    ensures TextLe(a, c)
    decreases |a|
  {
    if a != [] && a[0] == b[0] && b[0] == c[0] {
      TextLeTransitive(a[1..], b[1..], c[1..]);
    }
  }

  /** Storage classes order NULL before INTEGER before TEXT; within a class
      numbers compare by value and texts by the BINARY collation. */
  predicate ValueLe(a: Value, b: Value) {
    match (a, b)
    case (Null, _) => true
    case (Int(x), Null) => false
    case (Int(x), Int(y)) => x <= y
    case (Int(x), Text(_)) => true
    case (Text(_), Text(y)) => TextLe(a.t, y)
    case (Text(_), _) => false
  }

  lemma ValueLeTotal(a: Value, b: Value)
    ensures ValueLe(a, b) || ValueLe(b, a)
  {
    if a.Text? && b.Text? {
      TextLeTotal(a.t, b.t);
    }
  }

  lemma ValueLeAntisymmetric(a: Value, b: Value)
    requires ValueLe(a, b) && ValueLe(b, a)
    ensures a == b
  {
    if a.Text? && b.Text? {
      TextLeAntisymmetric(a.t, b.t);
    }
  }

  lemma ValueLeTransitive(a: Value, b: Value, c: Value)
    requires ValueLe(a, b) && ValueLe(b, c)
    ensures ValueLe(a, c)
  {
    if a.Text? && b.Text? && c.Text? {
      TextLeTransitive(a.t, b.t, c.t);
    }
  }

  /** The order of an `ORDER BY k1, k2, ...`: by the first key, ties broken by
      the next. */
  predicate KeyLe(a: seq<Value>, b: seq<Value>)
    decreases |a|
  {
    a == [] || (b != [] && ((ValueLe(a[0], b[0]) && a[0] != b[0]) || (a[0] == b[0] && KeyLe(a[1..], b[1..]))))
  }

  lemma {:induction false} KeyLeTotal(a: seq<Value>, b: seq<Value>)
    requires |a| == |b|
    ensures KeyLe(a, b) || KeyLe(b, a)
    decreases |a|
  {
    if a != [] {
      ValueLeTotal(a[0], b[0]);
      if a[0] == b[0] {
        KeyLeTotal(a[1..], b[1..]);
      }
    }
  }

  lemma {:induction false} KeyLeTransitive(a: seq<Value>, b: seq<Value>, c: seq<Value>)
    requires KeyLe(a, b) && KeyLe(b, c)
    ensures KeyLe(a, c)
    decreases |a|
  {
    if a != [] {
      if a[0] == b[0] && b[0] == c[0] {
        KeyLeTransitive(a[1..], b[1..], c[1..]);
      } else {
        if a[0].Text? {
          TextLeReflexive(a[0].t);
        }
        if b[0].Text? {
          TextLeReflexive(b[0].t);
        }
        ValueLeTransitive(a[0], b[0], c[0]);
        if a[0] == c[0] {
          ValueLeAntisymmetric(a[0], b[0]);
        }
      }
    }
  }

  /** Every row's key has the same number of columns. */
  predicate KeyWidth<T>(s: seq<T>, key: T -> seq<Value>, n: nat) {
    forall i :: 0 <= i < |s| ==> |key(s[i])| == n
  }

  /** Rows in `ORDER BY key` order. */
  predicate SortedBy<T>(s: seq<T>, key: T -> seq<Value>) {
    forall i, j :: 0 <= i < j < |s| ==> KeyLe(key(s[i]), key(s[j]))
  }

  /** A row whose key is at most every key of the ordered rows `s` can go
      in front of them. */
  lemma SortedCons<T>(h: T, s: seq<T>, key: T -> seq<Value>)
    requires SortedBy(s, key)
    requires forall j :: 0 <= j < |s| ==> KeyLe(key(h), key(s[j]))
    ensures SortedBy([h] + s, key)
  {
    forall i, j | 0 <= i < j < |[h] + s| ensures KeyLe(key(([h] + s)[i]), key(([h] + s)[j])) {
      if i > 0 {
        assert ([h] + s)[i] == s[i - 1];
      }
    }
  }

  /** If `h` is at most `x` and at most every row of `t`, it is at most every
      row of any arrangement of `t` with `x` added. */
  lemma BelowAll<T>(h: T, x: T, t: seq<T>, rest: seq<T>, key: T -> seq<Value>)
    requires KeyLe(key(h), key(x))
    requires forall j :: 0 <= j < |t| ==> KeyLe(key(h), key(t[j]))
    requires multiset(rest) == multiset(t) + multiset{x}
    ensures forall j :: 0 <= j < |rest| ==> KeyLe(key(h), key(rest[j]))
  {
    forall j | 0 <= j < |rest| ensures KeyLe(key(h), key(rest[j])) {
      assert rest[j] in multiset(rest);
      if rest[j] != x {
        assert rest[j] in multiset(t);
      }
    }
  }

  /** Puts `x` into the ordered rows `s` before the first row whose key is
      not smaller. */
  function Insert<T>(x: T, s: seq<T>, key: T -> seq<Value>, ghost n: nat): (r: seq<T>)
    requires SortedBy(s, key) && KeyWidth(s, key, n) && |key(x)| == n
    ensures SortedBy(r, key) && KeyWidth(r, key, n)
    ensures multiset(r) == multiset(s) + multiset{x}
  {
    if s == [] then [x]
    else if KeyLe(key(x), key(s[0])) then
      forall j | 0 < j < |s| ensures KeyLe(key(x), key(s[j])) {
        KeyLeTransitive(key(x), key(s[0]), key(s[j]));
      }
      SortedCons(x, s, key);
      [x] + s
    else
      var rest := Insert(x, s[1..], key, n);
      assert s == [s[0]] + s[1..];
      KeyLeTotal(key(x), key(s[0]));
      BelowAll(s[0], x, s[1..], rest, key);
      SortedCons(s[0], rest, key);
      [s[0]] + rest
  }

  /** The rows of `s` in `ORDER BY key` order: the same rows, each as often
      as before, arranged so that keys never decrease. SQL leaves the order of
      rows with equal keys open; this sort fixes one. */
  function SortBy<T>(s: seq<T>, key: T -> seq<Value>, ghost n: nat): (r: seq<T>)
    requires KeyWidth(s, key, n)
    ensures SortedBy(r, key) && KeyWidth(r, key, n)
    ensures multiset(r) == multiset(s)
  {
    if s == [] then []
    else
      assert s == s[..|s| - 1] + [s[|s| - 1]];
      Insert(s[|s| - 1], SortBy(s[..|s| - 1], key, n), key, n)
  }

  /** Reads every row of a file back, failing if any row fails. */
  function ReadRows<T>(lines: seq<seq<Value>>, read: seq<Value> -> Option<T>): Option<seq<T>> {
    if lines == [] then Some([])
    else match (read(lines[0]), ReadRows(lines[1..], read))
      case (Some(x), Some(xs)) => Some([x] + xs)
      case _ => None
  }

  lemma {:induction false} ReadMapRows<T>(rows: seq<T>, f: T -> seq<Value>, read: seq<Value> -> Option<T>)
    requires forall x :: read(f(x)) == Some(x)
    ensures ReadRows(MapSeq(rows, f), read) == Some(rows)
  {
    if rows != [] {
      ReadMapRows(rows[1..], f, read);
      assert MapSeq(rows, f)[1..] == MapSeq(rows[1..], f);
      assert rows == [rows[0]] + rows[1..];
    }
  }
}
