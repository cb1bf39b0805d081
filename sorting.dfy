/**
 * Python's `list.sort(key=...)` and `sorted(...)`: a stable sort under the
 * order the key induces. It is defined here by insertion (the simplest
 * stable sort); what any stable sort must deliver is proved about it:
 * the result is ordered, and elements that tie keep their input order
 * (which also makes it a permutation of the input).
 */
module Sorting {

  /** `le` is a total preorder, as "key of a is not greater than key of b" always is. */
  ghost predicate TotalPreorder<T(!new)>(le: (T, T) -> bool)
  {
    && (forall a, b :: le(a, b) || le(b, a))
    && (forall a, b, c :: le(a, b) && le(b, c) ==> le(a, c))
  }

  ghost predicate SortedBy<T>(s: seq<T>, le: (T, T) -> bool)
  {
    forall i, j :: 0 <= i < j < |s| ==> le(s[i], s[j])
  }

  /** `a` and `b` have equal keys. */
  predicate Ties<T>(a: T, b: T, le: (T, T) -> bool)
  {
    le(a, b) && le(b, a)
  }

  /** The elements of `s` whose key equals that of `x`, in the order `s` holds them. */
  function TiesOf<T>(s: seq<T>, x: T, le: (T, T) -> bool): (r: seq<T>)
  {
    if |s| == 0 then [] else (if Ties(s[0], x, le) then [s[0]] else []) + TiesOf(s[1..], x, le)
  }

  /** Puts `x` after every element of the sorted `s` whose key is not greater than its own. */
  function Insert<T>(s: seq<T>, x: T, le: (T, T) -> bool): (r: seq<T>)
    ensures multiset(r) == multiset(s) + multiset{x}
  {
    if |s| == 0 then [x]
    else if !le(s[0], x) then [x] + s
    else
      assert s == [s[0]] + s[1..];
      [s[0]] + Insert(s[1..], x, le)
  }

  /** `sorted(xs, key=k)` / `xs.sort(key=k)`, with `le(a, b)` meaning `not k(b) < k(a)`. */
  function StableSort<T>(xs: seq<T>, le: (T, T) -> bool): (r: seq<T>)
    ensures multiset(r) == multiset(xs)
  {
    if |xs| == 0 then []
    else
      assert xs == xs[..|xs| - 1] + [xs[|xs| - 1]];
      Insert(StableSort(xs[..|xs| - 1], le), xs[|xs| - 1], le)
  }

  lemma {:induction false} InsertSorted<T(!new)>(s: seq<T>, x: T, le: (T, T) -> bool)
    requires TotalPreorder(le) && SortedBy(s, le)
    ensures SortedBy(Insert(s, x, le), le)
  {
    if s != [] && le(s[0], x) {
      var rest := Insert(s[1..], x, le);
      InsertSorted(s[1..], x, le);
      forall z | z in rest ensures le(s[0], z) {
        assert z in multiset(rest);
        if z != x {
          assert z in multiset(s[1..]);
        }
      }
    }
  }

  lemma {:induction false} TiesOfAppend<T>(a: seq<T>, b: seq<T>, y: T, le: (T, T) -> bool)
    ensures TiesOf(a + b, y, le) == TiesOf(a, y, le) + TiesOf(b, y, le)
  {
    if a == [] {
      assert a + b == b;
    } else {
      assert (a + b)[1..] == a[1..] + b;
      TiesOfAppend(a[1..], b, y, le);
    }
  }

  lemma {:induction false} NoTies<T>(s: seq<T>, y: T, le: (T, T) -> bool)
    requires forall i | 0 <= i < |s| :: !Ties(s[i], y, le)
    ensures TiesOf(s, y, le) == []
  {
    if s != [] {
      NoTies(s[1..], y, le);
    }
  }

  /** Nothing in a sorted sequence ties with an element strictly below its head. */
  lemma AboveHead<T(!new)>(s: seq<T>, x: T, y: T, le: (T, T) -> bool)
    requires TotalPreorder(le) && SortedBy(s, le)
    requires s != [] && !le(s[0], x) && Ties(x, y, le)
    ensures TiesOf(s, y, le) == []
  {
    forall i | 0 <= i < |s| ensures !Ties(s[i], y, le) {
    }
    NoTies(s, y, le);
  }

  lemma SortedTail<T>(s: seq<T>, le: (T, T) -> bool)
    requires s != [] && SortedBy(s, le)
    ensures SortedBy(s[1..], le)
  {
  }

  /** Inserting in front of a sorted sequence whose head is above `x`. */
  lemma InsertTiesFront<T(!new)>(s: seq<T>, x: T, y: T, le: (T, T) -> bool)
    requires TotalPreorder(le) && SortedBy(s, le) && s != [] && !le(s[0], x)
    ensures TiesOf(Insert(s, x, le), y, le) == TiesOf(s, y, le) + (if Ties(x, y, le) then [x] else [])
  {
    if Ties(x, y, le) {
      AboveHead(s, x, y, le);
    }
    TiesOfAppend([x], s, y, le);
  }

  lemma SplitLast<T>(xs: seq<T>)
    requires xs != []
    ensures xs == xs[..|xs| - 1] + [xs[|xs| - 1]]
  {
  }

  lemma AppendAssoc<T>(a: seq<T>, b: seq<T>, c: seq<T>)
    ensures a + (b + c) == (a + b) + c
  {
  }

  /** The ties of a non-empty sequence: those of its head, then those of its tail. */
  lemma TiesOfCons<T>(s: seq<T>, y: T, le: (T, T) -> bool)
    requires s != []
    ensures TiesOf(s, y, le) == TiesOf([s[0]], y, le) + TiesOf(s[1..], y, le)
  {
    TiesOfAppend([s[0]], s[1..], y, le);
    assert s == [s[0]] + s[1..];
  }

  lemma InsertPast<T>(s: seq<T>, x: T, le: (T, T) -> bool)
    requires s != [] && le(s[0], x)
    ensures Insert(s, x, le) == [s[0]] + Insert(s[1..], x, le)
  {
  }

  /** Inserting past the head of `s` adds to its ties what inserting into its tail does. */
  lemma InsertTiesPast<T>(s: seq<T>, x: T, y: T, le: (T, T) -> bool, added: seq<T>)
    requires s != [] && le(s[0], x)
    requires TiesOf(Insert(s[1..], x, le), y, le) == TiesOf(s[1..], y, le) + added
    ensures TiesOf(Insert(s, x, le), y, le) == TiesOf(s, y, le) + added
  {
    var inserted := Insert(s[1..], x, le);
    InsertPast(s, x, le);
    TiesOfAppend([s[0]], inserted, y, le);
    TiesOfCons(s, y, le);
    AppendAssoc(TiesOf([s[0]], y, le), TiesOf(s[1..], y, le), added);
  }

  /** Inserting `x` adds it after every element that ties with it: insertion is stable. */
  lemma {:induction false} InsertTies<T(!new)>(s: seq<T>, x: T, y: T, le: (T, T) -> bool)
    requires TotalPreorder(le) && SortedBy(s, le)
    ensures TiesOf(Insert(s, x, le), y, le) == TiesOf(s, y, le) + (if Ties(x, y, le) then [x] else [])
  {
    if s == [] {
    } else if !le(s[0], x) {
      InsertTiesFront(s, x, y, le);
    } else {
      SortedTail(s, le);
      InsertTies(s[1..], x, y, le);
      InsertTiesPast(s, x, y, le, if Ties(x, y, le) then [x] else []);
    }
  }

  /** Sorting a non-empty sequence inserts its last element into the sorted rest. */
  lemma StableSortSnoc<T>(xs: seq<T>, le: (T, T) -> bool)
    requires xs != []
    ensures StableSort(xs, le) == Insert(StableSort(xs[..|xs| - 1], le), xs[|xs| - 1], le)
  {
  }

  lemma TiesOfSnoc<T>(init: seq<T>, last: T, y: T, le: (T, T) -> bool)
    ensures TiesOf(init + [last], y, le) == TiesOf(init, y, le) + (if Ties(last, y, le) then [last] else [])
  {
    TiesOfAppend(init, [last], y, le);
  }

  /** The sort orders its input. */
  lemma {:induction false} StableSortSorted<T(!new)>(xs: seq<T>, le: (T, T) -> bool)
    requires TotalPreorder(le)
    ensures SortedBy(StableSort(xs, le), le)
  {
    if xs != [] {
      var init := xs[..|xs| - 1];
      StableSortSorted(init, le);
      InsertSorted(StableSort(init, le), xs[|xs| - 1], le);
    }
  }

  /** The sort keeps the input order of elements that tie. */
  lemma {:induction false} StableSortStable<T(!new)>(xs: seq<T>, y: T, le: (T, T) -> bool)
    requires TotalPreorder(le)
    ensures TiesOf(StableSort(xs, le), y, le) == TiesOf(xs, y, le)
  {
    if xs != [] {
      var init, last := xs[..|xs| - 1], xs[|xs| - 1];
      StableSortSorted(init, le);
      StableSortStable(init, y, le);
      InsertTies(StableSort(init, le), last, y, le);
      StableSortSnoc(xs, le);
      SplitLast(xs);
      TiesOfSnoc(init, last, y, le);
    }
  }
}
