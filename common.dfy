/** Helpers shared by both variants of the school database: optional values,
    the Python errors that end an operation early, the row filter that every
    `WHERE` clause and `DELETE` statement amounts to, and Python's `str.lower`
    as far as the program's comparisons need it. */
module Common {

  datatype Option<T> = None | Some(value: T)

  /** The uncaught Python exceptions that stop an operation part-way. */
  datatype PyError =
    | NameError          // a name used before it was ever bound
    | TypeError          // subscripting the `None` that `fetchone()` returns
    | UnboundLocalError  // a local read before its assignment
    | IntegrityError     // a UNIQUE constraint violated by an INSERT

  /** The first row satisfying `p`, as a scan in table order meets it. */
  function First<T>(s: seq<T>, p: T -> bool): (r: Option<T>)
    ensures r.Some? ==> r.value in s && p(r.value)
    ensures r.None? <==> forall i :: 0 <= i < |s| ==> !p(s[i])
  {
    if s == [] then None
    else if p(s[0]) then Some(s[0])
    else First(s[1..], p)
  }

  /** The row found is the earliest one satisfying `p`. */
  lemma {:induction false} FirstIsEarliest<T>(s: seq<T>, p: T -> bool, k: int)
    requires 0 <= k < |s| && p(s[k])
    requires forall j :: 0 <= j < k ==> !p(s[j])
    ensures First(s, p) == Some(s[k])
  {
    if k > 0 {
      FirstIsEarliest(s[1..], p, k - 1);
    }
  }

  /** The rows of `s` for which `p` holds, in table order: a scan with a
      `WHERE` clause, or what a `DELETE ... WHERE not p` leaves behind. */
  function Filter<T>(s: seq<T>, p: T -> bool): (r: seq<T>)
    ensures |r| <= |s|
    ensures forall i :: 0 <= i < |r| ==> p(r[i])
  {
    if s == [] then []
    else if p(s[0]) then [s[0]] + Filter(s[1..], p)
    else Filter(s[1..], p)
  }

  /** A property every row of the table has, every row the filter returns
      has too. */
  lemma {:induction false} FilterAll<T>(s: seq<T>, p: T -> bool, q: T -> bool)
    requires forall i :: 0 <= i < |s| ==> q(s[i])
    ensures forall j :: 0 <= j < |Filter(s, p)| ==> q(Filter(s, p)[j])
  {
    if s != [] {
      FilterAll(s[1..], p, q);
    }
  }

  /** A row the condition holds for survives the filter. */
  lemma {:induction false} FilterKeeps<T>(s: seq<T>, p: T -> bool, i: int)
    requires 0 <= i < |s| && p(s[i])
    ensures s[i] in Filter(s, p)
  {
    if i > 0 {
      FilterKeeps(s[1..], p, i - 1);
    }
  }

  /** `f` applied to every row, in table order: the projection of a SELECT
      list. */
  function MapSeq<A, B>(s: seq<A>, f: A -> B): (r: seq<B>)
    ensures |r| == |s|
    ensures forall i :: 0 <= i < |s| ==> r[i] == f(s[i])
  {
    if s == [] then [] else [f(s[0])] + MapSeq(s[1..], f)
  }

  lemma {:induction false} MapSeqAppend<A, B>(a: seq<A>, b: seq<A>, f: A -> B)
    ensures MapSeq(a + b, f) == MapSeq(a, f) + MapSeq(b, f)
  {
    if a == [] {
      assert a + b == b;
    } else {
      assert (a + b)[1..] == a[1..] + b;
      MapSeqAppend(a[1..], b, f);
    }
  }

  /** Filtering distributes over the concatenation of two row sequences,
      in particular over a table with one row appended. */
  lemma {:induction false} FilterAppend<T>(a: seq<T>, b: seq<T>, p: T -> bool)
    ensures Filter(a + b, p) == Filter(a, p) + Filter(b, p)
  {
    if a == [] {
      assert a + b == b;
    } else {
      assert (a + b)[1..] == a[1..] + b;
      FilterAppend(a[1..], b, p);
    }
  }

  /** A filter that keeps every row returns the table as it was. */
  lemma {:induction false} FilterKeepsAll<T>(s: seq<T>, p: T -> bool)
    requires forall i :: 0 <= i < |s| ==> p(s[i])
    ensures Filter(s, p) == s
  {
    if s != [] {
      FilterKeepsAll(s[1..], p);
    }
  }

  /** A filter that keeps no row returns the empty table. */
  lemma {:induction false} FilterKeepsNone<T>(s: seq<T>, p: T -> bool)
    requires forall i :: 0 <= i < |s| ==> !p(s[i])
    ensures Filter(s, p) == []
  {
    if s != [] {
      FilterKeepsNone(s[1..], p);
    }
  }

  /** Filtering twice, where the outer condition implies the inner one, is
      filtering once by the outer condition. */
  lemma {:induction false} FilterFilter<T>(s: seq<T>, p: T -> bool, q: T -> bool)
    requires forall x :: q(x) ==> p(x)
    ensures Filter(Filter(s, p), q) == Filter(s, q)
  {
    if s != [] {
      FilterFilter(s[1..], p, q);
    }
  }

  /** Filtering by two conditions of which no row satisfies both leaves
      nothing. */
  lemma {:induction false} FilterDisjoint<T>(s: seq<T>, p: T -> bool, q: T -> bool)
    requires forall x :: !(p(x) && q(x))
    ensures Filter(Filter(s, p), q) == []
  {
    if s != [] {
      FilterDisjoint(s[1..], p, q);
    }
  }

  /** The answer to a yes/no prompt counts as yes: `answer.lower() == 'yes'`. */
  predicate SaysYes(answer: string) {
    Lower(answer) == "yes"
  }

  /** Python's `str.lower` restricted to ASCII: 'A'..'Z' become 'a'..'z',
      every other character is kept. */
  function LowerChar(c: char): (r: char)
    ensures 'A' <= c <= 'Z' ==> 'a' <= r <= 'z' && r as int - c as int == 32
    ensures !('A' <= c <= 'Z') ==> r == c
  {
    if 'A' <= c <= 'Z' then (c as int + 32) as char else c
  }

  function Lower(s: string): (r: string)
    ensures |r| == |s|
    ensures forall i :: 0 <= i < |s| ==> r[i] == LowerChar(s[i])
  {
    if s == [] then [] else [LowerChar(s[0])] + Lower(s[1..])
  }

  /** A word made of lower-case ASCII letters only, such as "yes". */
  predicate LowerWord(w: string) {
    forall i :: 0 <= i < |w| ==> 'a' <= w[i] <= 'z'
  }

  /** One character lower-cases to the letter `w` exactly when it is `w` or
      its capital. */
  lemma LowerCharMatches(c: char, w: char)
    requires 'a' <= w <= 'z'
    ensures LowerChar(c) == w <==> c == w || c as int == w as int - 32
  {
  }

  /** `s.lower() == w` for a lower-case word `w` holds exactly when `s` spells
      `w` with each letter in either case ("YES", "Yes", "yEs", ...). */
  lemma LowerMatches(s: string, w: string)
    requires LowerWord(w)
    ensures Lower(s) == w <==>
      |s| == |w| && forall i :: 0 <= i < |s| ==> s[i] == w[i] || s[i] as int == w[i] as int - 32
  {
    if |s| == |w| {
      forall i | 0 <= i < |s|
        ensures Lower(s)[i] == w[i] <==> s[i] == w[i] || s[i] as int == w[i] as int - 32
      {
        LowerCharMatches(s[i], w[i]);
      }
      if forall i :: 0 <= i < |s| ==> s[i] == w[i] || s[i] as int == w[i] as int - 32 {
        assert Lower(s) == w;
      }
    }
  }

  /** An `INTEGER PRIMARY KEY AUTOINCREMENT` table: in a table scan the keys
      come in increasing order (so no two rows share one), and every key lies
      between 1 and the next key the table will hand out. */
  ghost predicate Keyed<T>(rows: seq<T>, key: T -> int, next: int) {
    && 1 <= next
    && (forall i, j :: 0 <= i < j < |rows| ==> key(rows[i]) < key(rows[j]))
    && (forall i :: 0 <= i < |rows| ==> 1 <= key(rows[i]) < next)
  }

  /** An INSERT that takes the next key keeps the table keyed. */
  lemma KeyedAppend<T>(rows: seq<T>, key: T -> int, next: int, x: T)
    requires Keyed(rows, key, next) && key(x) == next
    ensures Keyed(rows + [x], key, next + 1)
  {
  }

  /** A DELETE keeps the table keyed. */
  lemma {:induction false} KeyedFilter<T>(rows: seq<T>, key: T -> int, next: int, p: T -> bool)
    requires Keyed(rows, key, next)
    ensures Keyed(Filter(rows, p), key, next)
  {
    if rows != [] {
      KeyedFilter(rows[1..], key, next, p);
      FilterAll(rows[1..], p, (x: T) => key(rows[0]) < key(x));
    }
  }

}
