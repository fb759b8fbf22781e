/** Generic operations on an in-memory table, kept as a sequence of rows in
    persistence order: filtering (a SQL `WHERE`), lookup by primary key and
    the upsert performed by an ORM `Save`. */
module Rows {

  /** The rows of `s` for which `keep` holds, in table order. */
  function Where<T(!new)>(s: seq<T>, keep: T -> bool): (r: seq<T>)
    ensures |r| <= |s|
  {
    if s == [] then []
    else Where(s[..|s| - 1], keep) + (if keep(s[|s| - 1]) then [s[|s| - 1]] else [])
  }

  /** The filtered rows are exactly the rows of `s` that pass the filter. */
  lemma {:induction false} WhereMembers<T(!new)>(s: seq<T>, keep: T -> bool)
    ensures forall x :: x in Where(s, keep) <==> x in s && keep(x)
    decreases |s|
  {
    if s != [] {
      assert s == s[..|s| - 1] + [s[|s| - 1]];
      WhereMembers(s[..|s| - 1], keep);
    }
  }

  /** Filtering distributes over concatenation. */
  lemma {:induction false} WhereConcat<T(!new)>(a: seq<T>, b: seq<T>, keep: T -> bool)
    ensures Where(a + b, keep) == Where(a, keep) + Where(b, keep)
    decreases |b|
  {
    if b == [] {
      assert a + b == a;
    } else {
      var b' := b[..|b| - 1];
      assert (a + b)[..|a + b| - 1] == a + b';
      assert (a + b)[|a + b| - 1] == b[|b| - 1];
      WhereConcat(a, b', keep);
    }
  }

  /** A filter that every row passes is the identity. */
  lemma {:induction false} WhereKeepsAll<T(!new)>(s: seq<T>, keep: T -> bool)
    requires forall j :: 0 <= j < |s| ==> keep(s[j])
    ensures Where(s, keep) == s
    decreases |s|
  {
    if s != [] {
      assert s[..|s| - 1] + [s[|s| - 1]] == s;
      WhereKeepsAll(s[..|s| - 1], keep);
    }
  }

  /** Filtering twice, where the second condition implies the first on the
      rows of `s`, is filtering once by the second condition. */
  lemma {:induction false} WhereOfWhere<T(!new)>(s: seq<T>, first: T -> bool, second: T -> bool)
    requires forall x :: x in s && second(x) ==> first(x)
    ensures Where(Where(s, first), second) == Where(s, second)
    decreases |s|
  {
    if s != [] {
      var init, last := s[..|s| - 1], s[|s| - 1];
      assert init + [last] == s;
      WhereOfWhere(init, first, second);
      var inner := if first(last) then [last] else [];
      WhereConcat(Where(init, first), inner, second);
    }
  }

  /** Replacing one row by another that the filter rejects, when the filter
      also rejected the old one, does not change the filtered rows. */
  lemma WhereUpdateIrrelevant<T(!new)>(s: seq<T>, i: nat, row: T, keep: T -> bool)
    requires i < |s|
    requires !keep(s[i]) && !keep(row)
    ensures Where(s[i := row], keep) == Where(s, keep)
  {
    assert s == s[..i] + [s[i]] + s[i + 1..];
    assert s[i := row] == s[..i] + [row] + s[i + 1..];
    WhereConcat(s[..i] + [s[i]], s[i + 1..], keep);
    WhereConcat(s[..i], [s[i]], keep);
    WhereConcat(s[..i] + [row], s[i + 1..], keep);
    WhereConcat(s[..i], [row], keep);
  }

  /** The number of rows kept from `a + [x] + b` is the number kept from
      `a + b`, plus one when `x` is kept. */
  lemma CountWithout<T(!new)>(a: seq<T>, x: T, b: seq<T>, keep: T -> bool)
    ensures |Where(a + [x] + b, keep)| == |Where(a + b, keep)| + (if keep(x) then 1 else 0)
  {
    WhereConcat(a + [x], b, keep);
    WhereConcat(a, [x], keep);
    WhereConcat(a, b, keep);
  }

  /** Each row occurs in the filtered rows as often as in `s` when it passes
      the filter, and not at all otherwise. */
  lemma {:induction false} WhereMultiplicity<T(!new)>(s: seq<T>, keep: T -> bool, x: T)
    ensures multiset(Where(s, keep))[x] == if keep(x) then multiset(s)[x] else 0
    decreases |s|
  {
    if s != [] {
      assert s == s[..|s| - 1] + [s[|s| - 1]];
      WhereMultiplicity(s[..|s| - 1], keep, x);
    }
  }

  /** Filtering keeps primary keys unique. */
  lemma {:induction false} WhereKeepsKeysUnique<T(!new)>(s: seq<T>, key: T -> nat, keep: T -> bool)
    requires UniqueKeys(s, key)
    ensures UniqueKeys(Where(s, keep), key)
    decreases |s|
  {
    if s != [] {
      var init, last := s[..|s| - 1], s[|s| - 1];
      assert UniqueKeys(init, key) by {
        forall i, j | 0 <= i < j < |init| ensures key(init[i]) != key(init[j]) {
          assert init[i] == s[i] && init[j] == s[j];
        }
      }
      WhereKeepsKeysUnique(init, key, keep);
      var w := Where(init, keep);
      if keep(last) {
        WhereMembers(init, keep);
        forall i | 0 <= i < |w| ensures key(w[i]) != key(last) {
          assert w[i] in init;
          var k :| 0 <= k < |init| && init[k] == w[i];
          assert s[k] == w[i];
        }
        assert Where(s, keep) == w + [last];
      }
    }
  }

  /** No two rows of `s` share a primary key. */
  ghost predicate UniqueKeys<T(!new)>(s: seq<T>, key: T -> nat) {
    forall i, j :: 0 <= i < j < |s| ==> key(s[i]) != key(s[j])
  }

  /** The position of the first row whose key is `k`, or -1 if there is none. */
  function IndexOf<T(!new)>(s: seq<T>, key: T -> nat, k: nat): (r: int)
    ensures -1 <= r < |s|
    ensures r >= 0 ==> key(s[r]) == k && forall i :: 0 <= i < r ==> key(s[i]) != k
    ensures r < 0 <==> forall i :: 0 <= i < |s| ==> key(s[i]) != k
  {
    if s == [] then -1
    else if key(s[0]) == k then 0
    else
      var r := IndexOf(s[1..], key, k);
      if r < 0 then -1 else r + 1
  }

  /** The condition "the key is not `k`", used to delete by primary key. */
  function KeyIsNot<T(!new)>(key: T -> nat, k: nat): T -> bool {
    x => key(x) != k
  }

  /** Deleting by key `k` removes exactly the rows with that key: the one
      row that has it when keys are unique, or nothing. */
  lemma DeleteByKeyFacts<T(!new)>(s: seq<T>, key: T -> nat, k: nat)
    requires UniqueKeys(s, key)
    ensures var rest := Where(s, KeyIsNot(key, k));
      var i := IndexOf(s, key, k);
      && (forall x :: x in rest <==> x in s && key(x) != k)
      && (i < 0 ==> rest == s)
      && (i >= 0 ==> rest == s[..i] + s[i + 1..] && |rest| == |s| - 1)
  {
    var i := IndexOf(s, key, k);
    WhereMembers(s, KeyIsNot(key, k));
    if i < 0 {
      WhereKeepsAll(s, KeyIsNot(key, k));
    } else {
      RemoveByKey(s, key, i);
    }
  }

  /** Deleting by the key of the row at `i` removes that row and only it,
      when keys are unique. */
  lemma RemoveByKey<T(!new)>(s: seq<T>, key: T -> nat, i: nat)
    requires UniqueKeys(s, key) && i < |s|
    ensures Where(s, KeyIsNot(key, key(s[i]))) == s[..i] + s[i + 1..]
  {
    var keep := KeyIsNot(key, key(s[i]));
    KeptBefore(s, key, i);
    KeptAfter(s, key, i);
    WhereAround(s[..i], s[i], s[i + 1..], keep);
    SplitAt(s, i);
  }

  /** Filtering out exactly the row `x` leaves the rows around it. */
  lemma WhereAround<T(!new)>(a: seq<T>, x: T, b: seq<T>, keep: T -> bool)
    requires !keep(x) && Where(a, keep) == a && Where(b, keep) == b
    ensures Where(a + [x] + b, keep) == a + b
  {
    WhereSkips(a, x, b, keep);
  }

  /** A rejected row contributes nothing to the filtered rows. */
  lemma WhereSkips<T(!new)>(a: seq<T>, x: T, b: seq<T>, keep: T -> bool)
    requires !keep(x)
    ensures Where(a + [x] + b, keep) == Where(a, keep) + Where(b, keep)
  {
    WhereConcat(a + [x], b, keep);
    assert (a + [x])[..|a + [x]| - 1] == a;
  }

  /** A sequence is its prefix, the element at `i` and its suffix. */
  lemma SplitAt<T>(s: seq<T>, i: nat)
    requires i < |s|
    ensures s == s[..i] + [s[i]] + s[i + 1..]
  {
  }

  /** With unique keys, no row before position `i` has the key of row `i`. */
  lemma KeptBefore<T(!new)>(s: seq<T>, key: T -> nat, i: nat)
    requires UniqueKeys(s, key) && i < |s|
    ensures Where(s[..i], KeyIsNot(key, key(s[i]))) == s[..i]
  {
    var keep, before := KeyIsNot(key, key(s[i])), s[..i];
    forall j | 0 <= j < |before| ensures keep(before[j]) {
      assert before[j] == s[j];
    }
    WhereKeepsAll(before, keep);
  }

  /** With unique keys, no row after position `i` has the key of row `i`. */
  lemma KeptAfter<T(!new)>(s: seq<T>, key: T -> nat, i: nat)
    requires UniqueKeys(s, key) && i < |s|
    ensures Where(s[i + 1..], KeyIsNot(key, key(s[i]))) == s[i + 1..]
  {
    var keep, after := KeyIsNot(key, key(s[i])), s[i + 1..];
    forall j | 0 <= j < |after| ensures keep(after[j]) {
      assert after[j] == s[i + 1 + j];
    }
    WhereKeepsAll(after, keep);
  }

  /** Filtering `a + [x] + b` filters the three parts separately. */
  lemma CountWithoutShape<T(!new)>(a: seq<T>, x: T, b: seq<T>, keep: T -> bool)
    ensures Where(a + [x] + b, keep) == Where(a, keep) + (if keep(x) then [x] else []) + Where(b, keep)
  {
    WhereConcat(a + [x], b, keep);
    WhereConcat(a, [x], keep);
    assert [x][..0] == [];
  }

  /** An upsert by primary key: the row replaces the first row with the same
      key, or is appended when no row has that key. */
  function Save<T(!new)>(s: seq<T>, key: T -> nat, row: T): (r: seq<T>)
    ensures row in r
    ensures forall x :: x in r ==> x == row || x in s
    ensures forall x :: x in s && key(x) != key(row) ==> x in r
    ensures (forall i :: 0 <= i < |s| ==> key(s[i]) != key(row)) ==> r == s + [row]
    ensures forall i :: 0 <= i < |s| && key(s[i]) == key(row) && UniqueKeys(s, key) ==> r == s[i := row]
    ensures UniqueKeys(s, key) ==> UniqueKeys(r, key)
    ensures UniqueKeys(s, key) ==> forall x :: x in r && key(x) == key(row) ==> x == row
  {
    var i := IndexOf(s, key, key(row));
    if i < 0 then s + [row]
    else
      ReplaceFacts(s, key, i, row);
      s[i := row]
  }

  /** What replacing the row at `i` by a row with the same key preserves. */
  lemma ReplaceFacts<T(!new)>(s: seq<T>, key: T -> nat, i: nat, row: T)
    requires i < |s| && key(s[i]) == key(row)
    requires forall j :: 0 <= j < i ==> key(s[j]) != key(row)
    ensures row in s[i := row]
    ensures forall x :: x in s[i := row] ==> x == row || x in s
    ensures forall x :: x in s && key(x) != key(row) ==> x in s[i := row]
    ensures forall j :: 0 <= j < |s| && key(s[j]) == key(row) && UniqueKeys(s, key) ==> j == i
    ensures UniqueKeys(s, key) ==> UniqueKeys(s[i := row], key)
    ensures UniqueKeys(s, key) ==> forall x :: x in s[i := row] && key(x) == key(row) ==> x == row
  {
    var r := s[i := row];
    assert r[i] == row;
    forall x | x in r ensures x == row || x in s {
      var j :| 0 <= j < |r| && r[j] == x;
      if j != i { assert s[j] == x; }
    }
    forall x | x in s && key(x) != key(row) ensures x in r {
      var j :| 0 <= j < |s| && s[j] == x;
      assert r[j] == x;
    }
    if UniqueKeys(s, key) {
      forall x | x in r && key(x) == key(row) ensures x == row {
        var j :| 0 <= j < |r| && r[j] == x;
        if j != i { assert false; }
      }
    }
  }
}
