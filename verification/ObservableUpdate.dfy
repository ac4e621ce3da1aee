/** Bringing an observable list in line with a source, by editing it in place. */
module ObservableUpdate {
  /** The list that is shown: every edit is announced to its observers, so edits are counted. */
  class ObservableVector<T(==)> {
    var items: seq<T>
    var edits: nat

    constructor (items: seq<T>)
      ensures this.items == items && edits == 0
    {
      this.items, edits := items, 0;
    }

    method RemoveAt(index: nat)
      requires index < |items|
      modifies this
      ensures items == old(items[..index] + items[index + 1..]) && edits == old(edits) + 1
    {
      items, edits := items[..index] + items[index + 1..], edits + 1;
    }

    method InsertAt(index: nat, item: T)
      requires index <= |items|
      modifies this
      ensures items == old(items[..index]) + [item] + old(items[index..]) && edits == old(edits) + 1
    {
      items, edits := items[..index] + [item] + items[index..], edits + 1;
    }

    method SetAt(index: nat, item: T)
      requires index < |items|
      modifies this
      ensures items == old(items)[index := item] && edits == old(edits) + 1
    {
      items, edits := items[index := item], edits + 1;
    }

    method Append(item: T)
      modifies this
      ensures items == old(items) + [item] && edits == old(edits) + 1
    {
      items, edits := items + [item], edits + 1;
    }
  }

  datatype Mapper<!S, !T, +Id> =
    Mapper(sourceId: S -> Id, targetId: T -> Id, compare: (T, S) -> int, mapItem: S -> T)

  /** Among the items concerned, the mapper orders by a key, and an item keeps its id when it is mapped. */
  ghost predicate Coherent<S, T, Id>(m: Mapper<S, T, Id>, key: T -> int, source: seq<S>, shown: seq<T>) {
    && (forall t, s | t in shown && s in source :: Compares(m, key, t, s))
    && (forall s | s in source :: m.targetId(m.mapItem(s)) == m.sourceId(s))
  }

  ghost predicate Compares<S, T, Id>(m: Mapper<S, T, Id>, key: T -> int, t: T, s: S) {
    && (m.compare(t, s) < 0 <==> key(t) < key(m.mapItem(s)))
    && (m.compare(t, s) == 0 <==> key(t) == key(m.mapItem(s)))
  }

  ghost predicate Sorted<T>(items: seq<T>, key: T -> int) {
    forall i, j | 0 <= i < j < |items| :: key(items[i]) <= key(items[j])
  }

  ghost predicate StrictlySorted<T>(items: seq<T>, key: T -> int) {
    forall i, j | 0 <= i < j < |items| :: key(items[i]) < key(items[j])
  }

  ghost predicate SameItems<T>(a: seq<T>, b: seq<T>) {
    (forall x | x in a :: x in b) && (forall x | x in b :: x in a)
  }

  ghost predicate Distinct<T, K>(items: seq<T>, f: T -> K) {
    forall i, j | 0 <= i < j < |items| :: f(items[i]) != f(items[j])
  }

  // ---------------------------------------------------------------- any order has keys

  /** An order of some items in which unordered ones count as equal, such as that of numbers or of texts. */
  ghost predicate Orders<T>(before: (T, T) -> bool, items: seq<T>) {
    && (forall a | a in items :: !before(a, a))
    && (forall a, b, c | a in items && b in items && c in items && before(a, b) && before(b, c) :: before(a, c))
    && (forall a, b, c | a in items && b in items && c in items && before(a, b) :: before(a, c) || before(c, b))
  }

  /** The number of items that come before this one. */
  function Rank<T>(before: (T, T) -> bool, items: seq<T>, t: T): nat {
    if items == [] then 0 else (if before(items[0], t) then 1 else 0) + Rank(before, items[1..], t)
  }

  lemma {:induction false} RankGrows<T>(before: (T, T) -> bool, items: seq<T>, a: T, b: T)
    requires forall x | x in items && before(x, a) :: before(x, b)
    ensures Rank(before, items, a) <= Rank(before, items, b)
    ensures (exists x | x in items :: before(x, b) && !before(x, a)) ==> Rank(before, items, a) < Rank(before, items, b)
  {
    if items != [] {
      RankGrows(before, items[1..], a, b);
      assert items == [items[0]] + items[1..];
    }
  }

  /** However items are ordered, their ranks are keys of the same order. */
  lemma OrderHasKeys<T>(before: (T, T) -> bool, items: seq<T>, a: T, b: T)
    requires Orders(before, items) && a in items && b in items
    ensures before(a, b) <==> Rank(before, items, a) < Rank(before, items, b)
    ensures !before(a, b) && !before(b, a) <==> Rank(before, items, a) == Rank(before, items, b)
  {
    if before(a, b) {
      RankGrows(before, items, a, b);
    } else if before(b, a) {
      RankGrows(before, items, b, a);
    } else {
      RankGrows(before, items, a, b);
      RankGrows(before, items, b, a);
    }
  }

  /** The mapper compares a shown item with a source item as the order does with the mapped one. */
  ghost predicate ComparesBy<S, T, Id>(m: Mapper<S, T, Id>, before: (T, T) -> bool, t: T, s: S) {
    && (m.compare(t, s) < 0 <==> before(t, m.mapItem(s)))
    && (m.compare(t, s) > 0 <==> before(m.mapItem(s), t))
  }

  /** So a mapper that compares by any order of the items concerned is coherent. */
  lemma AnyOrderIsCoherent<S, T, Id>(m: Mapper<S, T, Id>, before: (T, T) -> bool, source: seq<S>, shown: seq<T>)
    requires Orders(before, shown) && (forall s | s in source :: m.mapItem(s) in shown)
    requires forall t, s | t in shown && s in source :: ComparesBy(m, before, t, s)
    requires forall s | s in source :: m.targetId(m.mapItem(s)) == m.sourceId(s)
    ensures Coherent(m, t => Rank(before, shown, t), source, shown)
  {
    hide Orders, Rank;
    forall t, s | t in shown && s in source
      ensures Compares(m, t => Rank(before, shown, t), t, s)
    {
      assert ComparesBy(m, before, t, s);
      OrderHasKeys(before, shown, t, m.mapItem(s));
      OrderHasKeys(before, shown, m.mapItem(s), t);
    }
  }

  // ---------------------------------------------------------------- rebuilding from scratch

  function Mapped<S, T>(source: seq<S>, f: S -> T): (items: seq<T>)
    ensures |items| == |source| && forall i | 0 <= i < |source| :: items[i] == f(source[i])
  {
    seq(|source|, i requires 0 <= i < |source| => f(source[i]))
  }

  /** The item goes in front of the first one whose key is not smaller. */
  function Insert<T>(sorted: seq<T>, item: T, key: T -> int): seq<T> {
    if sorted == [] || key(sorted[0]) >= key(item) then [item] + sorted
    else [sorted[0]] + Insert(sorted[1..], item, key)
  }

  /** The list as it would be built from nothing: the items one after the other, each put in its place. */
  function Rebuild<T>(items: seq<T>, key: T -> int): seq<T> {
    if items == [] then [] else Insert(Rebuild(items[1..], key), items[0], key)
  }

  lemma {:induction false} InsertAdds<T>(sorted: seq<T>, item: T, key: T -> int)
    ensures multiset(Insert(sorted, item, key)) == multiset(sorted) + multiset{item}
  {
    if sorted != [] && key(sorted[0]) < key(item) {
      InsertAdds(sorted[1..], item, key);
      assert sorted == [sorted[0]] + sorted[1..];
    }
  }

  lemma SortedInFront<T>(item: T, sorted: seq<T>, key: T -> int)
    requires Sorted(sorted, key) && forall x | x in sorted :: key(item) <= key(x)
    ensures Sorted([item] + sorted, key)
  {
    assert forall i | 0 <= i < |sorted| :: sorted[i] in sorted;
  }

  lemma InsertHas<T>(sorted: seq<T>, item: T, key: T -> int, x: T)
    requires x in Insert(sorted, item, key)
    ensures x == item || x in sorted
  {
    hide Insert;
    InsertAdds(sorted, item, key);
    assert x in multiset(Insert(sorted, item, key));
  }

  lemma {:induction false} InsertIsSorted<T>(sorted: seq<T>, item: T, key: T -> int)
    requires Sorted(sorted, key)
    ensures Sorted(Insert(sorted, item, key), key)
  {
    if sorted == [] || key(sorted[0]) >= key(item) {
      SortedInFront(item, sorted, key);
    } else {
      InsertIsSorted(sorted[1..], item, key);
      forall x | x in Insert(sorted[1..], item, key)
        ensures key(sorted[0]) <= key(x)
      {
        InsertHas(sorted[1..], item, key, x);
      }
      SortedInFront(sorted[0], Insert(sorted[1..], item, key), key);
    }
  }

  /** The rebuilt list is the items in the order of their keys. */
  lemma {:induction false} RebuildSorts<T>(items: seq<T>, key: T -> int)
    ensures Sorted(Rebuild(items, key), key) && multiset(Rebuild(items, key)) == multiset(items)
  {
    if items != [] {
      RebuildSorts(items[1..], key);
      InsertIsSorted(Rebuild(items[1..], key), items[0], key);
      InsertAdds(Rebuild(items[1..], key), items[0], key);
      assert items == [items[0]] + items[1..];
    }
  }

  /** Only one strictly sorted list has given elements. */
  lemma {:induction false} SortedIsUnique<T>(a: seq<T>, b: seq<T>, key: T -> int)
    requires StrictlySorted(a, key) && StrictlySorted(b, key)
    requires SameItems(a, b)
    ensures a == b
  {
    if a == [] {
      if b != [] {
        FirstIsSame(b, a, key);
      }
    } else {
      FirstIsSame(a, b, key);
      hide StrictlySorted;
      forall x
        ensures x in a[1..] <==> x in b[1..]
      {
        RestOf(a, x, key);
        RestOf(b, x, key);
      }
      TailIsSorted(a, key);
      TailIsSorted(b, key);
      SortedIsUnique(a[1..], b[1..], key);
      assert a == [a[0]] + a[1..] && b == [b[0]] + b[1..];
    }
  }

  lemma FirstIsSame<T>(a: seq<T>, b: seq<T>, key: T -> int)
    requires StrictlySorted(a, key) && StrictlySorted(b, key) && a != []
    requires SameItems(a, b)
    ensures b != [] && a[0] == b[0]
  {
    assert a[0] in b;
    assert b[0] in a;
  }

  lemma TailIsSorted<T>(a: seq<T>, key: T -> int)
    requires StrictlySorted(a, key) && a != []
    ensures StrictlySorted(a[1..], key)
  {
  }

  lemma RestOf<T>(a: seq<T>, x: T, key: T -> int)
    requires a != [] && StrictlySorted(a, key)
    ensures x in a[1..] <==> x in a && x != a[0]
  {
    if x in a[1..] {
      var i :| 0 <= i < |a[1..]| && a[1..][i] == x;
      assert a[i + 1] == x;
    }
    if x in a && x != a[0] {
      var i :| 0 <= i < |a| && a[i] == x;
      assert a[1..][i - 1] == x;
    }
  }

  // ---------------------------------------------------------------- the three loops

  /** The first shown item with this id whose key is another one now, or the number of items. */
  method FindMoved<S, T, Id(==)>(items: seq<T>, item: S, m: Mapper<S, T, Id>) returns (at: nat)
    ensures at <= |items|
    ensures forall k | 0 <= k < at :: m.targetId(items[k]) != m.sourceId(item) || m.compare(items[k], item) == 0
    ensures at < |items| ==> m.targetId(items[at]) == m.sourceId(item) && m.compare(items[at], item) != 0
  {
    at := 0;
    while at < |items| && !(m.targetId(items[at]) == m.sourceId(item) && m.compare(items[at], item) != 0)
      invariant at <= |items|
      invariant forall k | 0 <= k < at :: m.targetId(items[k]) != m.sourceId(item) || m.compare(items[k], item) == 0
    {
      at := at + 1;
    }
  }

  /** The place of an item: the first shown one that does not come before it. */
  method FindPlace<S, T, Id>(items: seq<T>, item: S, m: Mapper<S, T, Id>) returns (at: nat)
    ensures at <= |items|
    ensures forall k | 0 <= k < at :: m.compare(items[k], item) < 0
    ensures at < |items| ==> m.compare(items[at], item) >= 0
  {
    at := 0;
    while at < |items| && m.compare(items[at], item) < 0
      invariant at <= |items|
      invariant forall k | 0 <= k < at :: m.compare(items[k], item) < 0
    {
      at := at + 1;
    }
  }

  /** The list after the first `done` goal items were put in: they are all shown, in order, and whatever
      else is shown was there at the start and is not one of them. */
  ghost predicate UpToDate<T, Id>(
    items: seq<T>, goal: seq<T>, done: nat, start: seq<T>, id: T -> Id, key: T -> int)
    requires done <= |goal|
  {
    && Distinct(items, id) && Sorted(items, key)
    && (forall j | 0 <= j < done :: goal[j] in items)
    && (forall x | x in items :: Old(x, goal, done, start, id) || x in goal[..done])
  }

  ghost predicate Old<T, Id>(x: T, goal: seq<T>, done: nat, start: seq<T>, id: T -> Id)
    requires done <= |goal|
  {
    x in start && forall j | 0 <= j < done :: id(goal[j]) != id(x)
  }

  /** What is asked of the goal items and of the list shown at the start. */
  ghost predicate Suits<T, Id>(goal: seq<T>, start: seq<T>, id: T -> Id, key: T -> int) {
    Distinct(goal, id) && Distinct(goal, key) && Distinct(start, id) && StrictlySorted(start, key)
  }

  ghost predicate NotMoved<T, Id>(items: seq<T>, item: T, id: T -> Id, key: T -> int) {
    forall x | x in items && id(x) == id(item) :: key(x) == key(item)
  }

  function Without<T>(items: seq<T>, at: nat): seq<T>
    requires at < |items|
  {
    items[..at] + items[at + 1..]
  }

  function With<T>(items: seq<T>, at: nat, item: T): seq<T>
    requires at <= |items|
  {
    items[..at] + [item] + items[at..]
  }

  lemma WithoutHas<T>(items: seq<T>, at: nat, x: T)
    requires at < |items|
    ensures x in Without(items, at) ==> x in items
    ensures x in items && x != items[at] ==> x in Without(items, at)
  {
    if x in items && x != items[at] {
      var k :| 0 <= k < |items| && items[k] == x;
      assert Without(items, at)[if k < at then k else k - 1] == x;
    }
  }

  lemma WithHas<T>(items: seq<T>, at: nat, item: T, x: T)
    requires at <= |items|
    ensures x in With(items, at, item) <==> x in items || x == item
  {
    assert items == items[..at] + items[at..];
    assert With(items, at, item)[at] == item;
  }

  lemma WithoutIsDistinct<T, K>(items: seq<T>, at: nat, f: T -> K)
    requires at < |items| && Distinct(items, f)
    ensures Distinct(Without(items, at), f)
    ensures forall x | x in Without(items, at) :: f(x) != f(items[at])
  {
    forall x | x in Without(items, at)
      ensures f(x) != f(items[at])
    {
      var k :| 0 <= k < |Without(items, at)| && Without(items, at)[k] == x;
      assert x == items[if k < at then k else k + 1];
    }
  }

  lemma WithoutIsSorted<T>(items: seq<T>, at: nat, key: T -> int)
    requires at < |items| && Sorted(items, key)
    ensures Sorted(Without(items, at), key)
  {
  }

  /** Taking out the item whose key changed keeps the rest. */
  lemma MovedTakenOut<T, Id>(
    items: seq<T>, at: nat, goal: seq<T>, done: nat, start: seq<T>, id: T -> Id, key: T -> int)
    requires done < |goal| && Suits(goal, start, id, key) && UpToDate(items, goal, done, start, id, key)
    requires at < |items| && id(items[at]) == id(goal[done])
    ensures UpToDate(Without(items, at), goal, done, start, id, key)
    ensures NotMoved(Without(items, at), goal[done], id, key)
  {
    WithoutIsDistinct(items, at, id);
    WithoutIsSorted(items, at, key);
    forall j | 0 <= j < done
      ensures goal[j] in Without(items, at)
    {
      WithoutHas(items, at, goal[j]);
    }
    forall x | x in Without(items, at)
      ensures Old(x, goal, done, start, id) || x in goal[..done]
    {
      WithoutHas(items, at, x);
    }
  }

  /** Nothing else shown can have the key of the next item and an id of its own in front of it. */
  lemma NoTwin<T, Id>(
    items: seq<T>, at: nat, goal: seq<T>, done: nat, start: seq<T>, id: T -> Id, key: T -> int)
    requires done < |goal| && Suits(goal, start, id, key) && UpToDate(items, goal, done, start, id, key)
    requires NotMoved(items, goal[done], id, key)
    requires at <= |items| && forall k | 0 <= k < at :: key(items[k]) < key(goal[done])
    requires at < |items| ==> key(items[at]) >= key(goal[done]) && id(items[at]) != id(goal[done])
    ensures forall x | x in items :: id(x) != id(goal[done])
  {
    forall x | x in items
      ensures id(x) != id(goal[done])
    {
      if id(x) == id(goal[done]) {
        var k :| 0 <= k < |items| && items[k] == x;
        assert key(x) == key(goal[done]) && at < k;
        SameKeyIsOld(items[at], goal, done, start, id, key);
        SameKeyIsOld(x, goal, done, start, id, key);
      }
    }
  }

  lemma SameKeyIsOld<T, Id>(x: T, goal: seq<T>, done: nat, start: seq<T>, id: T -> Id, key: T -> int)
    requires done < |goal| && Distinct(goal, key)
    requires Old(x, goal, done, start, id) || x in goal[..done]
    requires key(x) == key(goal[done])
    ensures x in start
  {
  }

  lemma WithIsDistinct<T, K>(items: seq<T>, at: nat, item: T, f: T -> K)
    requires at <= |items| && Distinct(items, f) && forall x | x in items :: f(x) != f(item)
    ensures Distinct(With(items, at, item), f)
  {
    var longer := With(items, at, item);
    forall i, j | 0 <= i < j < |longer|
      ensures f(longer[i]) != f(longer[j])
    {
      assert i < at ==> longer[i] == items[i];
      assert i > at ==> longer[i] == items[i - 1];
      assert j < at ==> longer[j] == items[j];
      assert j > at ==> longer[j] == items[j - 1];
    }
  }

  lemma WithIsSorted<T>(items: seq<T>, at: nat, item: T, key: T -> int)
    requires at <= |items| && Sorted(items, key)
    requires forall k | 0 <= k < at :: key(items[k]) < key(item)
    requires at < |items| ==> key(items[at]) >= key(item)
    ensures Sorted(With(items, at, item), key)
  {
  }

  /** Putting the next item in its place. */
  lemma PutIn<T, Id>(
    items: seq<T>, at: nat, goal: seq<T>, done: nat, start: seq<T>, id: T -> Id, key: T -> int)
    requires done < |goal| && Suits(goal, start, id, key) && UpToDate(items, goal, done, start, id, key)
    requires NotMoved(items, goal[done], id, key)
    requires at <= |items| && forall k | 0 <= k < at :: key(items[k]) < key(goal[done])
    requires at < |items| ==> key(items[at]) >= key(goal[done]) && id(items[at]) != id(goal[done])
    ensures UpToDate(With(items, at, goal[done]), goal, done + 1, start, id, key)
  {
    hide With, Distinct, Sorted, NotMoved;
    var item, longer := goal[done], With(items, at, goal[done]);
    NoTwin(items, at, goal, done, start, id, key);
    WithIsDistinct(items, at, item, id);
    WithIsSorted(items, at, item, key);
    forall j | 0 <= j < done + 1
      ensures goal[j] in longer
    {
      WithHas(items, at, item, goal[j]);
    }
    forall x | x in longer
      ensures Old(x, goal, done + 1, start, id) || x in goal[..done + 1]
    {
      WithHas(items, at, item, x);
      assert goal[..done + 1] == goal[..done] + [item];
    }
  }

  /** Replacing the item that is in its place already. */
  lemma PutOver<T, Id>(
    items: seq<T>, at: nat, goal: seq<T>, done: nat, start: seq<T>, id: T -> Id, key: T -> int)
    requires done < |goal| && Suits(goal, start, id, key) && UpToDate(items, goal, done, start, id, key)
    requires NotMoved(items, goal[done], id, key)
    requires at < |items| && id(items[at]) == id(goal[done])
    ensures UpToDate(items[at := goal[done]], goal, done + 1, start, id, key)
  {
    var item, same := goal[done], items[at := goal[done]];
    assert key(items[at]) == key(item);
    assert same[at] == item;
    forall j | 0 <= j < done
      ensures goal[j] in same
    {
      var k :| 0 <= k < |items| && items[k] == goal[j];
      assert same[k] == goal[j];
    }
    forall x | x in same
      ensures Old(x, goal, done + 1, start, id) || x in goal[..done + 1]
    {
      assert goal[..done + 1] == goal[..done] + [item];
      var k :| 0 <= k < |same| && same[k] == x;
      assert k != at ==> x == items[k] && id(x) != id(items[at]);
    }
  }

  /** What is left when only goal items are shown is the rebuilt list. */
  lemma OnlyGoalIsRebuilt<T, Id>(items: seq<T>, goal: seq<T>, id: T -> Id, key: T -> int)
    requires Distinct(items, id) && Sorted(items, key) && Distinct(goal, key)
    requires SameItems(items, goal)
    ensures items == Rebuild(goal, key)
  {
    var rebuilt := Rebuild(goal, key);
    RebuildSorts(goal, key);
    RebuiltHasGoal(goal, key);
    DistinctSortedIsStrict(items, goal, id, key);
    RebuiltIsStrict(rebuilt, goal, key);
    SortedIsUnique(items, rebuilt, key);
  }

  lemma DistinctSortedIsStrict<T, Id>(items: seq<T>, goal: seq<T>, id: T -> Id, key: T -> int)
    requires Distinct(items, id) && Sorted(items, key) && Distinct(goal, key)
    requires SameItems(items, goal)
    ensures StrictlySorted(items, key)
  {
    forall i, j | 0 <= i < j < |items|
      ensures key(items[i]) < key(items[j])
    {
      assert items[i] in goal && items[j] in goal;
      assert items[i] != items[j];
    }
  }

  /** Sorting items with different keys puts them in strict order. */
  lemma {:induction false} RebuiltIsStrict<T>(rebuilt: seq<T>, goal: seq<T>, key: T -> int)
    requires Sorted(rebuilt, key) && Distinct(goal, key) && multiset(rebuilt) == multiset(goal)
    ensures StrictlySorted(rebuilt, key)
  {
    forall i, j | 0 <= i < j < |rebuilt|
      ensures key(rebuilt[i]) < key(rebuilt[j])
    {
      var x, y := rebuilt[i], rebuilt[j];
      if x == y {
        assert rebuilt == rebuilt[..j] + rebuilt[j..];
        assert rebuilt[..j][i] == x && rebuilt[j..][0] == x;
        assert multiset(rebuilt)[x] >= 2;
        OnceOnly(goal, x, key);
      } else {
        assert x in multiset(rebuilt) && y in multiset(rebuilt);
        assert x in goal && y in goal;
      }
    }
  }

  lemma {:induction false} OnceOnly<T>(goal: seq<T>, x: T, key: T -> int)
    requires Distinct(goal, key)
    ensures multiset(goal)[x] <= 1
  {
    if goal != [] {
      OnceOnly(goal[1..], x, key);
      assert goal == [goal[0]] + goal[1..];
      assert x == goal[0] ==> x !in goal[1..];
    }
  }

  // ---------------------------------------------------------------- the update

  /** An item that is shown among items in strict order has not moved, and is found where it is. */
  lemma ShownIsInPlace<T, Id>(
    items: seq<T>, item: T, goal: seq<T>, done: nat, start: seq<T>, id: T -> Id, key: T -> int)
    requires done <= |goal| && UpToDate(items, goal, done, start, id, key) && StrictlySorted(items, key) && item in items
    ensures forall k | 0 <= k < |items| && id(items[k]) == id(item) :: items[k] == item
    ensures forall at | 0 <= at <= |items| && (forall k | 0 <= k < at :: key(items[k]) < key(item))
                        && (at < |items| ==> key(items[at]) >= key(item)) ::
              at < |items| && items[at] == item
  {
  }

  /** What is shown was there at the start or is a goal item, so the mapper orders it. */
  lemma ShownCompares<S, T, Id>(
    items: seq<T>, source: seq<S>, m: Mapper<S, T, Id>, goal: seq<T>, done: nat, start: seq<T>, key: T -> int, item: S)
    requires done <= |goal| && UpToDate(items, goal, done, start, m.targetId, key)
    requires Coherent(m, key, source, start + goal) && item in source
    ensures forall k | 0 <= k < |items| :: Compares(m, key, items[k], item)
    ensures m.targetId(m.mapItem(item)) == m.sourceId(item)
  {
    hide Compares, Distinct, Sorted;
    forall k | 0 <= k < |items|
      ensures Compares(m, key, items[k], item)
    {
      assert items[k] in items;
      assert goal[..done] <= goal;
    }
  }

  /** One round of the upsert loop: the item leaves its old place if its key changed, and goes into its new one. */
  method Upsert<S, T(==), Id(==)>(
    target: ObservableVector<T>, item: S, m: Mapper<S, T, Id>,
    ghost source: seq<S>, ghost goal: seq<T>, ghost done: nat, ghost start: seq<T>, ghost key: T -> int)
    requires Coherent(m, key, source, start + goal) && item in source && done < |goal| && goal[done] == m.mapItem(item)
    requires Suits(goal, start, m.targetId, key)
    requires UpToDate(target.items, goal, done, start, m.targetId, key)
    modifies target
    ensures UpToDate(target.items, goal, done + 1, start, m.targetId, key)
    ensures StrictlySorted(old(target.items), key) && m.mapItem(item) in old(target.items) ==>
      target.items == old(target.items) && target.edits == old(target.edits)
  {
    hide UpToDate, Suits, Distinct, StrictlySorted, Coherent;
    ShownCompares(target.items, source, m, goal, done, start, key, item);
    ghost var shown := StrictlySorted(target.items, key) && m.mapItem(item) in target.items;
    if shown {
      ShownIsInPlace(target.items, m.mapItem(item), goal, done, start, m.targetId, key);
    }
    var moved := FindMoved(target.items, item, m);
    if moved < |target.items| {
      MovedTakenOut(target.items, moved, goal, done, start, m.targetId, key);
      target.RemoveAt(moved);
      ShownCompares(target.items, source, m, goal, done, start, key, item);
    }
    assert NotMoved(target.items, goal[done], m.targetId, key);
    var at := FindPlace(target.items, item, m);
    var mapped := m.mapItem(item);
    if at == |target.items| {
      PutIn(target.items, at, goal, done, start, m.targetId, key);
      assert With(target.items, at, mapped) == target.items + [mapped];
      target.Append(mapped);
    } else if m.targetId(target.items[at]) == m.sourceId(item) {
      PutOver(target.items, at, goal, done, start, m.targetId, key);
      if target.items[at] != mapped {
        target.SetAt(at, mapped);
      } else {
        assert target.items[at := mapped] == target.items;
      }
    } else {
      PutIn(target.items, at, goal, done, start, m.targetId, key);
      target.InsertAt(at, mapped);
    }
  }

  /** The items whose id is not to be deleted. */
  function Kept<T, Id(==)>(items: seq<T>, stale: set<Id>, id: T -> Id): seq<T> {
    if items == [] then []
    else (if id(items[0]) in stale then [] else [items[0]]) + Kept(items[1..], stale, id)
  }

  lemma {:induction false} KeptHas<T, Id>(items: seq<T>, stale: set<Id>, id: T -> Id, x: T)
    ensures x in Kept(items, stale, id) <==> x in items && id(x) !in stale
  {
    if items != [] {
      assert items == [items[0]] + items[1..];
      KeptHas(items[1..], stale, id, x);
    }
  }

  lemma KeptFirst<T, Id>(items: seq<T>, stale: set<Id>, id: T -> Id)
    requires items != []
    ensures var tail := Kept(items[1..], stale, id);
      Kept(items, stale, id) == if id(items[0]) in stale then tail else [items[0]] + tail
  {
    var tail := Kept(items[1..], stale, id);
    assert [] + tail == tail;
  }

  lemma RestIsInOrder<T, Id>(items: seq<T>, id: T -> Id, key: T -> int)
    requires items != [] && Distinct(items, id) && Sorted(items, key)
    ensures Distinct(items[1..], id) && Sorted(items[1..], key)
  {
  }

  lemma {:induction false} KeptKeepsOrder<T, Id>(items: seq<T>, stale: set<Id>, id: T -> Id, key: T -> int)
    requires Distinct(items, id) && Sorted(items, key)
    ensures Distinct(Kept(items, stale, id), id) && Sorted(Kept(items, stale, id), key)
  {
    if items != [] {
      RestIsInOrder(items, id, key);
      KeptFirst(items, stale, id);
      hide Distinct, Sorted, Kept;
      KeptKeepsOrder(items[1..], stale, id, key);
      var tail := Kept(items[1..], stale, id);
      forall x | x in tail
        ensures x in items[1..]
      {
        KeptHas(items[1..], stale, id, x);
      }
      OneInFront(items, tail, id, key);
    }
  }

  lemma OneInFront<T, Id>(items: seq<T>, tail: seq<T>, id: T -> Id, key: T -> int)
    requires items != [] && Distinct(items, id) && Sorted(items, key) && Distinct(tail, id) && Sorted(tail, key)
    requires forall x | x in tail :: x in items[1..]
    ensures Distinct([items[0]] + tail, id) && Sorted([items[0]] + tail, key)
  {
    forall i | 0 <= i < |tail|
      ensures key(items[0]) <= key(tail[i]) && id(items[0]) != id(tail[i])
    {
      assert tail[i] in tail;
      var k :| 0 <= k < |items[1..]| && items[1..][k] == tail[i];
      assert items[k + 1] == tail[i];
    }
  }

  /** The list once the loop below, now at `at`, is through with it. */
  function KeptFrom<T, Id(==)>(items: seq<T>, at: nat, stale: set<Id>, id: T -> Id): seq<T>
    requires at <= |items|
  {
    items[..at] + Kept(items[at..], stale, id)
  }

  lemma KeptFromStep<T, Id>(items: seq<T>, at: nat, stale: set<Id>, id: T -> Id)
    requires at < |items|
    ensures id(items[at]) in stale ==> KeptFrom(Without(items, at), at, stale, id) == KeptFrom(items, at, stale, id)
    ensures id(items[at]) !in stale ==> KeptFrom(items, at + 1, stale, id) == KeptFrom(items, at, stale, id)
  {
    assert items[at..][1..] == items[at + 1..];
    assert Without(items, at)[..at] == items[..at] && Without(items, at)[at..] == items[at + 1..];
    assert items[..at + 1] == items[..at] + [items[at]];
  }

  method DeleteStale<S, T(==), Id(==)>(target: ObservableVector<T>, stale: set<Id>, m: Mapper<S, T, Id>)
    modifies target
    ensures target.items == Kept(old(target.items), stale, m.targetId)
    ensures (forall x | x in old(target.items) :: m.targetId(x) !in stale) ==> target.edits == old(target.edits)
  {
    ghost var start := target.items;
    ghost var clean := forall x | x in start :: m.targetId(x) !in stale;
    assert start[..0] == [] && start[0..] == start;
    var at := 0;
    while at < |target.items|
      invariant at <= |target.items|
      invariant KeptFrom(target.items, at, stale, m.targetId) == Kept(start, stale, m.targetId)
      invariant clean ==> target.items == start && target.edits == old(target.edits)
      decreases |target.items| - at
    {
      KeptFromStep(target.items, at, stale, m.targetId);
      if m.targetId(target.items[at]) in stale {
        assert target.items[at] in target.items;
        target.RemoveAt(at);
      } else {
        at := at + 1;
      }
    }
    assert target.items[..at] == target.items && target.items[at..] == [];
  }

  /** The ids of some items. */
  function Ids<T(==), Id(==)>(items: seq<T>, id: T -> Id): set<Id> {
    set x | x in items :: id(x)
  }

  /** Whatever was shown before, the list ends up as rebuilt from the source; and a list that was up to
      date already is not edited at all. */
  method UpdateObservableCollection<S, T(==), Id(==)>(
    source: seq<S>, target: ObservableVector<T>, m: Mapper<S, T, Id>, ghost key: T -> int)
    requires Coherent(m, key, source, target.items + Mapped(source, m.mapItem))
    requires Suits(Mapped(source, m.mapItem), target.items, m.targetId, key)
    modifies target
    ensures target.items == Rebuild(Mapped(source, m.mapItem), key)
    ensures old(target.items) == Rebuild(Mapped(source, m.mapItem), key) ==> target.edits == old(target.edits)
  {
    ghost var goal, start := Mapped(source, m.mapItem), target.items;
    ghost var upToDate := start == Rebuild(goal, key);
    var stale := Ids(target.items, m.targetId);
    RebuiltHasGoal(goal, key);
    for i := 0 to |source|
      invariant UpToDate(target.items, goal, i, start, m.targetId, key)
      invariant stale == Ids(start, m.targetId) - Ids(goal[..i], m.targetId)
      invariant upToDate ==> target.items == start && target.edits == old(target.edits)
    {
      OneLessStale(start, goal, i, m.targetId);
      stale := stale - {m.sourceId(source[i])};
      Upsert(target, source[i], m, source, goal, i, start, key);
    }
    ghost var shown := target.items;
    KeptKeepsOrder(shown, stale, m.targetId, key);
    OnlyGoalIsKept(shown, goal, start, stale, m.targetId, key);
    DeleteStale(target, stale, m);
    OnlyGoalIsRebuilt(target.items, goal, m.targetId, key);
  }

  lemma RebuiltHasGoal<T>(goal: seq<T>, key: T -> int)
    ensures SameItems(Rebuild(goal, key), goal)
  {
    var rebuilt := Rebuild(goal, key);
    RebuildSorts(goal, key);
    forall x | x in rebuilt
      ensures x in goal
    {
      assert x in multiset(rebuilt);
      assert x in multiset(goal);
    }
    forall x | x in goal
      ensures x in rebuilt
    {
      assert x in multiset(goal);
      assert x in multiset(rebuilt);
    }
  }

  lemma OneLessStale<T, Id>(start: seq<T>, goal: seq<T>, done: nat, id: T -> Id)
    requires done < |goal|
    ensures Ids(start, id) - Ids(goal[..done], id) - {id(goal[done])} == Ids(start, id) - Ids(goal[..done + 1], id)
  {
    assert goal[..done + 1] == goal[..done] + [goal[done]];
  }

  /** With every goal item shown, what is not stale is exactly the goal items. */
  lemma OnlyGoalIsKept<T, Id>(
    shown: seq<T>, goal: seq<T>, start: seq<T>, stale: set<Id>, id: T -> Id, key: T -> int)
    requires UpToDate(shown, goal, |goal|, start, id, key)
    requires stale == Ids(start, id) - Ids(goal[..|goal|], id)
    ensures SameItems(Kept(shown, stale, id), goal)
  {
    assert goal[..|goal|] == goal;
    forall x | x in Kept(shown, stale, id)
      ensures x in goal
    {
      KeptHas(shown, stale, id, x);
      assert x in start ==> id(x) in Ids(start, id);
    }
    forall x | x in goal
      ensures x in Kept(shown, stale, id)
    {
      KeptHas(shown, stale, id, x);
      assert id(x) in Ids(goal, id);
    }
  }
}
