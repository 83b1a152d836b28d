/**
 * The array built-ins the engine uses on its address and port lists:
 * `indexOf`, `filter`, and the first-occurrence filter that removes repeats.
 */
module Lists {

  /** No value occurs twice. */
  predicate NoDuplicates<T(==,!new)>(s: seq<T>)
  {
    forall i, j :: 0 <= i < j < |s| ==> s[i] != s[j]
  }

  /** Concatenation regroups freely. */
  lemma ConcatAssoc<T>(a: seq<T>, b: seq<T>, c: seq<T>)
    ensures a + b + c == a + (b + c)
  {
  }

  /** A prefix one element longer, after a fixed front. */
  lemma PrefixNext<T>(front: seq<T>, s: seq<T>, j: nat)
    requires j < |s|
    ensures front + s[..j + 1] == (front + s[..j]) + [s[j]]
  {
    assert s[..j + 1] == s[..j] + [s[j]];
  }

  /** `s.indexOf(x)` for a value that occurs: the position of its first occurrence. */
  function IndexOf<T(==,!new)>(s: seq<T>, x: T): (i: nat)
    requires x in s
    ensures i < |s| && s[i] == x && x !in s[..i]
  {
    if s[0] == x then 0
    else
      var j := IndexOf(s[1..], x);
      assert s[..j + 1] == [s[0]] + s[1..][..j];
      j + 1
  }

  /** The first-occurrence position is the only position with no earlier occurrence. */
  lemma IndexOfUnique<T(!new)>(s: seq<T>, x: T, i: nat)
    requires i < |s| && s[i] == x && x !in s[..i]
    ensures IndexOf(s, x) == i
  {
    var k := IndexOf(s, x);
  }

  /** Appending a value does not move the first occurrence of a value already present. */
  lemma IndexOfAppend<T(!new)>(s: seq<T>, y: T, x: T)
    requires x in s
    ensures x in s + [y] && IndexOf(s + [y], x) == IndexOf(s, x)
  {
    var i := IndexOf(s, x);
    assert (s + [y])[..i] == s[..i];
    IndexOfUnique(s + [y], x, i);
  }

  /** `r` lists values of `s`, in the order of their first occurrences in `s`. */
  predicate InFirstOccurrenceOrder<T(==,!new)>(r: seq<T>, s: seq<T>)
  {
    && (forall x :: x in r ==> x in s)
    && (forall i, j :: 0 <= i < j < |r| ==> IndexOf(s, r[i]) < IndexOf(s, r[j]))
  }

  /**
   * `s.filter((value, index, self) => self.indexOf(value) === index)`: the
   * element at position `i` is kept exactly when it does not occur in `s[..i]`.
   */
  function Dedup<T(==,!new)>(s: seq<T>): (r: seq<T>)
    ensures NoDuplicates(r)
    ensures forall x :: x in r <==> x in s
    decreases |s|
  {
    if s == [] then []
    else
      var prefix := Dedup(s[..|s| - 1]);
      if s[|s| - 1] in s[..|s| - 1] then prefix else prefix + [s[|s| - 1]]
  }

  /** An ordered selection of a list stays ordered when the list grows by one value, and lies before it. */
  lemma OrderExtend<T(!new)>(p: seq<T>, init: seq<T>, x: T)
    requires InFirstOccurrenceOrder(p, init)
    ensures InFirstOccurrenceOrder(p, init + [x])
    ensures forall y :: y in p ==> IndexOf(init + [x], y) < |init|
  {
    forall y | y in p ensures IndexOf(init + [x], y) == IndexOf(init, y) {
      IndexOfAppend(init, x, y);
    }
  }

  /** A value first occurring after every selected one extends the selection, still ordered and without repeats. */
  lemma AppendOrdered<T(!new)>(p: seq<T>, s: seq<T>, x: T)
    requires NoDuplicates(p) && InFirstOccurrenceOrder(p, s)
    requires x in s && x !in p && forall y :: y in p ==> IndexOf(s, y) < IndexOf(s, x)
    ensures NoDuplicates(p + [x]) && InFirstOccurrenceOrder(p + [x], s)
  {
    var r := p + [x];
    forall i, j | 0 <= i < j < |r| ensures r[i] != r[j] && IndexOf(s, r[i]) < IndexOf(s, r[j]) {
      assert r[i] == p[i];
      if j < |p| {
        assert r[j] == p[j];
      } else {
        assert p[i] in p;
      }
    }
  }

  /** Dedup keeps each value once, ordered by where it first occurs. */
  lemma {:induction false} DedupOrder<T(!new)>(s: seq<T>)
    ensures InFirstOccurrenceOrder(Dedup(s), s)
    decreases |s|
  {
    if s != [] {
      var init, x := s[..|s| - 1], s[|s| - 1];
      assert s == init + [x];
      DedupOrder(init);
      var p := Dedup(init);
      OrderExtend(p, init, x);
      if x !in init {
        assert Dedup(s) == p + [x];
        IndexOfUnique(s, x, |s| - 1);
        AppendOrdered(p, s, x);
      } else {
        assert Dedup(s) == p;
      }
    }
  }

  /** The first value of the list survives, in first position. */
  lemma DedupKeepsFirst<T(!new)>(s: seq<T>)
    requires s != []
    ensures Dedup(s) != [] && Dedup(s)[0] == s[0]
  {
    var r := Dedup(s);
    assert s[0] in r;
    DedupOrder(s);
    IndexOfUnique(s, s[0], 0);
  }

  /** A list without repeats is left as it is. */
  lemma {:induction false} DedupDistinct<T(!new)>(s: seq<T>)
    requires NoDuplicates(s)
    ensures Dedup(s) == s
    decreases |s|
  {
    if s != [] {
      var init := s[..|s| - 1];
      assert NoDuplicates(init);
      DedupDistinct(init);
      assert s[|s| - 1] !in init;
      assert s == init + [s[|s| - 1]];
    }
  }

  /** Removing repeats twice is removing them once. */
  lemma DedupIdempotent<T(!new)>(s: seq<T>)
    ensures Dedup(Dedup(s)) == Dedup(s)
  {
    DedupDistinct(Dedup(s));
  }

  /** `s.filter(keep)`: the elements that pass, in their original order. */
  function Filter<T(!new)>(s: seq<T>, keep: T -> bool): (r: seq<T>)
    ensures |r| <= |s|
    ensures forall x :: x in r <==> x in s && keep(x)
    decreases |s|
  {
    if s == [] then []
    else
      var prefix := Filter(s[..|s| - 1], keep);
      assert forall x :: x in s[..|s| - 1] ==> x in s;
      assert forall x :: x in s ==> x in s[..|s| - 1] || x == s[|s| - 1];
      if keep(s[|s| - 1]) then prefix + [s[|s| - 1]] else prefix
  }

  /** One element is kept exactly when it passes. */
  lemma FilterSingle<T(!new)>(x: T, keep: T -> bool)
    ensures Filter([x], keep) == if keep(x) then [x] else []
  {
    assert [x][..0] == [];
  }

  /**
   * Filtering works piece by piece: the passing elements keep their order and
   * their number of occurrences, repeats included.
   */
  lemma {:induction false} FilterConcat<T(!new)>(a: seq<T>, b: seq<T>, keep: T -> bool)
    ensures Filter(a + b, keep) == Filter(a, keep) + Filter(b, keep)
    decreases |b|
  {
    if b == [] {
      assert a + b == a;
    } else {
      var init, x := b[..|b| - 1], b[|b| - 1];
      assert (a + b)[..|a + b| - 1] == a + init;
      assert (a + b)[|a + b| - 1] == x;
      FilterConcat(a, init, keep);
    }
  }

  /** A list whose every element passes is left as it is. */
  lemma {:induction false} FilterAll<T(!new)>(s: seq<T>, keep: T -> bool)
    requires forall x :: x in s ==> keep(x)
    ensures Filter(s, keep) == s
    decreases |s|
  {
    if s != [] {
      var init := s[..|s| - 1];
      assert forall x :: x in init ==> x in s;
      FilterAll(init, keep);
      assert s == init + [s[|s| - 1]];
    }
  }

  /** Filtering a list without repeats keeps it without repeats and keeps its order. */
  lemma {:induction false} FilterOrder<T(!new)>(s: seq<T>, keep: T -> bool)
    requires NoDuplicates(s)
    ensures NoDuplicates(Filter(s, keep))
    ensures InFirstOccurrenceOrder(Filter(s, keep), s)
    decreases |s|
  {
    if s != [] {
      var init, x := s[..|s| - 1], s[|s| - 1];
      assert s == init + [x];
      assert NoDuplicates(init);
      FilterOrder(init, keep);
      var p := Filter(init, keep);
      OrderExtend(p, init, x);
      if keep(x) {
        assert Filter(s, keep) == p + [x];
        assert x !in init;
        IndexOfUnique(s, x, |s| - 1);
        AppendOrdered(p, s, x);
      } else {
        assert Filter(s, keep) == p;
      }
    }
  }

  /** When the first element passes and nothing repeats, it stays first. */
  lemma FilterKeepsFirst<T(!new)>(s: seq<T>, keep: T -> bool)
    requires NoDuplicates(s) && s != [] && keep(s[0])
    ensures Filter(s, keep) != [] && Filter(s, keep)[0] == s[0]
  {
    var r := Filter(s, keep);
    assert s[0] in r;
    FilterOrder(s, keep);
    IndexOfUnique(s, s[0], 0);
  }

  /** Listing in first-occurrence order composes: an ordered selection of an ordered selection. */
  lemma OrderCompose<T(!new)>(r: seq<T>, d: seq<T>, s: seq<T>)
    requires InFirstOccurrenceOrder(r, d) && InFirstOccurrenceOrder(d, s)
    ensures InFirstOccurrenceOrder(r, s)
  {
    forall i, j | 0 <= i < j < |r| ensures IndexOf(s, r[i]) < IndexOf(s, r[j]) {
      var a, b := IndexOf(d, r[i]), IndexOf(d, r[j]);
      assert d[a] == r[i] && d[b] == r[j];
    }
  }
}
