/**
 Python's `sorted` is a stable sort.  The renderers use it in two ways: on a
 whole list, and on the keys of a dictionary of lists that are then sorted one
 by one.  This module pins a stable sort down by its classes of equal keys and
 shows that the two ways produce the same order.
 */
module Sorting {

  ghost predicate TotalPreorder<T(!new)>(le: (T, T) -> bool) {
    && (forall x, y :: le(x, y) || le(y, x))
    && (forall x, y, z :: le(x, y) && le(y, z) ==> le(x, z))
  }

  /** The sub-list of the elements whose key is that of `k`, in list order. */
  function Class<T>(xs: seq<T>, le: (T, T) -> bool, k: T): seq<T> {
    if xs == [] then []
    else (if le(xs[0], k) && le(k, xs[0]) then [xs[0]] else []) + Class(xs[1..], le, k)
  }

  ghost predicate SameClasses<T(!new)>(xs: seq<T>, ys: seq<T>, le: (T, T) -> bool) {
    forall k :: Class(xs, le, k) == Class(ys, le, k)
  }

  ghost predicate Sorted<T>(xs: seq<T>, le: (T, T) -> bool) {
    forall i, j :: 0 <= i < j < |xs| ==> le(xs[i], xs[j])
  }

  function Insert<T>(x: T, xs: seq<T>, le: (T, T) -> bool): seq<T> {
    if xs == [] || le(x, xs[0]) then [x] + xs else [xs[0]] + Insert(x, xs[1..], le)
  }

  /** `sorted(xs, key=...)`, where `le` compares keys. */
  function Sort<T>(xs: seq<T>, le: (T, T) -> bool): seq<T> {
    if xs == [] then [] else Insert(xs[0], Sort(xs[1..], le), le)
  }

  lemma {:induction false} InsertContents<T>(x: T, xs: seq<T>, le: (T, T) -> bool)
    ensures multiset(Insert(x, xs, le)) == multiset([x] + xs)
  {
    if xs == [] || le(x, xs[0]) {
    } else {
      InsertContents(x, xs[1..], le);
      assert xs == [xs[0]] + xs[1..];
    }
  }

  /** A list is sorted if its first element is below the others and they are sorted. */
  lemma ConsSorted<T>(x: T, xs: seq<T>, le: (T, T) -> bool)
    requires Sorted(xs, le) && forall i :: 0 <= i < |xs| ==> le(x, xs[i])
    ensures Sorted([x] + xs, le)
  {
  }

  lemma {:induction false} InsertSorted<T(!new)>(x: T, xs: seq<T>, le: (T, T) -> bool)
    requires TotalPreorder(le) && Sorted(xs, le)
    ensures Sorted(Insert(x, xs, le), le)
  {
    if xs == [] {
    } else if le(x, xs[0]) {
      forall i | 0 <= i < |xs| ensures le(x, xs[i]) {
        assert i > 0 ==> le(xs[0], xs[i]);
      }
      ConsSorted(x, xs, le);
    } else {
      var t := Insert(x, xs[1..], le);
      InsertSorted(x, xs[1..], le);
      InsertContents(x, xs[1..], le);
      forall j | 0 <= j < |t| ensures le(xs[0], t[j]) {
        assert t[j] in multiset([x] + xs[1..]);
        assert t[j] == x || t[j] in xs[1..];
      }
      ConsSorted(xs[0], t, le);
    }
  }

  lemma {:induction false} InsertClass<T(!new)>(x: T, xs: seq<T>, le: (T, T) -> bool, k: T)
    requires TotalPreorder(le)
    ensures Class(Insert(x, xs, le), le, k) == Class([x] + xs, le, k)
  {
    assert ([x] + xs)[1..] == xs;
    if xs == [] || le(x, xs[0]) {
    } else {
      var t := Insert(x, xs[1..], le);
      InsertClass(x, xs[1..], le, k);
      assert ([x] + xs[1..])[1..] == xs[1..];
      assert ([xs[0]] + t)[1..] == t;
      assert le(x, k) && le(k, x) ==> !(le(xs[0], k) && le(k, xs[0]));
    }
  }

  /** A stable sort: sorted, and each class of equal keys keeps its order. */
  lemma {:induction false} SortIsStable<T(!new)>(xs: seq<T>, le: (T, T) -> bool)
    requires TotalPreorder(le)
    ensures Sorted(Sort(xs, le), le)
    ensures SameClasses(Sort(xs, le), xs, le)
    ensures multiset(Sort(xs, le)) == multiset(xs)
  {
    if xs != [] {
      var t := Sort(xs[1..], le);
      SortIsStable(xs[1..], le);
      InsertSorted(xs[0], t, le);
      InsertContents(xs[0], t, le);
      assert xs == [xs[0]] + xs[1..];
      forall k ensures Class(Sort(xs, le), le, k) == Class(xs, le, k) {
        InsertClass(xs[0], t, le, k);
        assert ([xs[0]] + t)[1..] == t;
      }
    }
  }

  lemma SortElements<T(!new)>(xs: seq<T>, le: (T, T) -> bool)
    requires TotalPreorder(le)
    ensures forall x :: x in Sort(xs, le) <==> x in xs
  {
    SortIsStable(xs, le);
    forall x ensures x in Sort(xs, le) <==> x in xs {
      assert x in multiset(xs) <==> x in multiset(Sort(xs, le));
    }
  }

  lemma {:induction false} ClassElement<T>(xs: seq<T>, le: (T, T) -> bool, k: T)
    ensures forall x <- Class(xs, le, k) :: x in xs && le(x, k) && le(k, x)
    ensures forall x <- xs :: le(x, k) && le(k, x) ==> x in Class(xs, le, k)
  {
    if xs != [] { ClassElement(xs[1..], le, k); }
  }

  /** A sorted list is determined by its classes. */
  lemma {:induction false} SortedUnique<T(!new)>(s: seq<T>, t: seq<T>, le: (T, T) -> bool)
    requires TotalPreorder(le) && Sorted(s, le) && Sorted(t, le)
    requires SameClasses(s, t, le)
    ensures s == t
  {
    assert t != [] ==> Class(s, le, t[0]) == Class(t, le, t[0]) != [];
    assert s != [] ==> Class(t, le, s[0]) == Class(s, le, s[0]) != [];
    if s != [] && t != [] {
      var a, b := s[0], t[0];
      ClassElement(s, le, b);
      ClassElement(t, le, a);
      assert b in Class(t, le, b) by { ClassElement(t, le, b); }
      assert a in Class(s, le, a) by { ClassElement(s, le, a); }
      assert le(a, b) && le(b, a);
      assert Class(s, le, a)[0] == a;
      assert Class(t, le, a)[0] == b;
      forall k ensures Class(s[1..], le, k) == Class(t[1..], le, k) {
        assert Class(s, le, k) == Class(t, le, k);
        var pre := if le(a, k) && le(k, a) then [a] else [];
        assert Class(s, le, k) == pre + Class(s[1..], le, k);
        assert Class(t, le, k) == pre + Class(t[1..], le, k);
        assert (pre + Class(s[1..], le, k))[|pre|..] == Class(s[1..], le, k);
        assert (pre + Class(t[1..], le, k))[|pre|..] == Class(t[1..], le, k);
      }
      SortedUnique(s[1..], t[1..], le);
    }
  }

  /** Two lists sort to the same list exactly when their classes agree. */
  lemma SortInsensitive<T(!new)>(xs: seq<T>, ys: seq<T>, le: (T, T) -> bool)
    requires TotalPreorder(le)
    ensures Sort(xs, le) == Sort(ys, le) <==> SameClasses(xs, ys, le)
  {
    SortIsStable(xs, le);
    SortIsStable(ys, le);
    if SameClasses(xs, ys, le) {
      SortedUnique(Sort(xs, le), Sort(ys, le), le);
    }
  }

  // ---- grouping into a dictionary of lists, then sorting group by group ----

  ghost predicate TotalOrder<T(!new)>(le: (T, T) -> bool) {
    TotalPreorder(le) && forall x, y :: le(x, y) && le(y, x) ==> x == y
  }

  ghost predicate Distinct<T>(xs: seq<T>) {
    forall i, j :: 0 <= i < j < |xs| ==> xs[i] != xs[j]
  }

  /** The keys of the grouping dictionary, in insertion order. */
  function Groups<T, G(==)>(xs: seq<T>, group: T -> G): seq<G> {
    if |xs| == 0 then []
    else
      var gs, g := Groups(xs[..|xs| - 1], group), group(xs[|xs| - 1]);
      if g in gs then gs else gs + [g]
  }

  lemma {:induction false} GroupsFacts<T(!new), G(!new)>(xs: seq<T>, group: T -> G)
    ensures Distinct(Groups(xs, group))
    ensures forall g :: g in Groups(xs, group) <==> exists x <- xs :: group(x) == g
  {
    if |xs| > 0 {
      var n := |xs| - 1;
      GroupsFacts(xs[..n], group);
      assert xs == xs[..n] + [xs[n]];
      assert forall x :: x in xs <==> x in xs[..n] || x == xs[n];
    }
  }

  /** The list stored under one key of the grouping dictionary. */
  function InGroup<T, G(==)>(xs: seq<T>, group: T -> G, g: G): (r: seq<T>)
    ensures forall x <- r :: x in xs && group(x) == g
  {
    if xs == [] then []
    else
      var r := InGroup(xs[..|xs| - 1], group, g);
      if group(xs[|xs| - 1]) == g then r + [xs[|xs| - 1]] else r
  }

  lemma {:induction false} InOwnGroup<T(!new), G(!new)>(xs: seq<T>, group: T -> G, x: T)
    requires x in xs
    ensures x in InGroup(xs, group, group(x))
  {
    var n := |xs| - 1;
    assert xs == xs[..n] + [xs[n]];
    if x != xs[n] { InOwnGroup(xs[..n], group, x); }
  }

  /** A dictionary that holds the group of each key listed. */
  ghost predicate Filled<T, G(!new)>(order: seq<G>, grouped: map<G, seq<T>>, xs: seq<T>, group: T -> G) {
    && (forall g :: g in grouped <==> g in order)
    && forall g <- order :: grouped[g] == InGroup(xs, group, g)
  }

  /** Filling a dictionary of lists, element by element. */
  method GroupBy<T(!new), G(!new,==)>(xs: seq<T>, group: T -> G) returns (order: seq<G>, grouped: map<G, seq<T>>)
    ensures order == Groups(xs, group)
    ensures Filled(order, grouped, xs, group)
  {
    order, grouped := [], map[];
    for i := 0 to |xs|
      invariant order == Groups(xs[..i], group)
      invariant Filled(order, grouped, xs[..i], group)
    {
      var g := group(xs[i]);
      GroupsStep(xs, group, i);
      FilledStep(order, grouped, xs, group, i);
      if g in grouped {
        grouped := grouped[g := grouped[g] + [xs[i]]];
      } else {
        order := order + [g];
        grouped := grouped[g := [xs[i]]];
      }
    }
    assert xs[..|xs|] == xs;
  }

  /** The dictionary of one more element. */
  lemma FilledStep<T(!new), G(!new)>(order: seq<G>, grouped: map<G, seq<T>>, xs: seq<T>, group: T -> G, i: nat)
    requires i < |xs| && order == Groups(xs[..i], group) && Filled(order, grouped, xs[..i], group)
    ensures var g, now := group(xs[i]), xs[..i + 1];
            if g in grouped then Filled(order, grouped[g := grouped[g] + [xs[i]]], now, group)
            else Filled(order + [g], grouped[g := [xs[i]]], now, group)
  {
    var g, before, now := group(xs[i]), xs[..i], xs[..i + 1];
    GroupsStep(xs, group, i);
    hide InGroup, Groups;
    if g in grouped {
      assert grouped[g] == InGroup(before, group, g);
      hide Filled;
      FilledAt(order, order, grouped, before, now, group, g);
    } else {
      assert InGroup(before, group, g) == [];
      hide Filled;
      FilledAt(order, order + [g], grouped, before, now, group, g);
    }
  }

  lemma FilledAt<T, G(!new)>(order: seq<G>, newOrder: seq<G>, grouped: map<G, seq<T>>, before: seq<T>, now: seq<T>,
                             group: T -> G, g: G)
    requires Filled(order, grouped, before, group)
    requires forall h :: h in newOrder <==> h in order || h == g
    requires forall h :: h != g ==> InGroup(now, group, h) == InGroup(before, group, h)
    ensures Filled(newOrder, grouped[g := InGroup(now, group, g)], now, group)
  {
    hide InGroup;
  }

  /** What one more element does to the groups. */
  lemma GroupsStep<T(!new), G(!new)>(xs: seq<T>, group: T -> G, i: nat)
    requires i < |xs|
    ensures var before, now, x := xs[..i], xs[..i + 1], xs[i];
            && Groups(now, group) == (if group(x) in Groups(before, group) then Groups(before, group)
                                      else Groups(before, group) + [group(x)])
            && (group(x) !in Groups(before, group) ==> InGroup(before, group, group(x)) == [])
            && InGroup(now, group, group(x)) == InGroup(before, group, group(x)) + [x]
            && forall g :: g != group(x) ==> InGroup(now, group, g) == InGroup(before, group, g)
  {
    assert xs[..i + 1][..i] == xs[..i];
    GroupsFacts(xs[..i], group);
    if group(xs[i]) !in Groups(xs[..i], group) {
      NoGroup(xs[..i], group, group(xs[i]));
    }
  }

  /** The groups one after the other, each sorted by `inner`. */
  function Flatten<T, G(==)>(gs: seq<G>, xs: seq<T>, group: T -> G, inner: (T, T) -> bool): seq<T> {
    if gs == [] then [] else Sort(InGroup(xs, group, gs[0]), inner) + Flatten(gs[1..], xs, group, inner)
  }

  /** Order by group, and by `inner` within a group. */
  function Nested<T, G(==)>(group: T -> G, gle: (G, G) -> bool, inner: (T, T) -> bool): (T, T) -> bool {
    (x, y) => if group(x) == group(y) then inner(x, y) else gle(group(x), group(y))
  }

  lemma NestedIsPreorder<T(!new), G(!new)>(group: T -> G, gle: (G, G) -> bool, inner: (T, T) -> bool)
    requires TotalOrder(gle) && TotalPreorder(inner)
    ensures TotalPreorder(Nested(group, gle, inner))
  {
    var le := Nested(group, gle, inner);
    forall x, y ensures le(x, y) || le(y, x) {
      assert inner(x, y) || inner(y, x);
      assert gle(group(x), group(y)) || gle(group(y), group(x));
    }
    forall x, y, z | le(x, y) && le(y, z) ensures le(x, z) {
    }
  }

  lemma {:induction false} ClassConcat<T>(xs: seq<T>, ys: seq<T>, le: (T, T) -> bool, k: T)
    ensures Class(xs + ys, le, k) == Class(xs, le, k) + Class(ys, le, k)
  {
    if xs == [] {
      assert xs + ys == ys;
    } else {
      ClassConcat(xs[1..], ys, le, k);
      assert (xs + ys)[1..] == xs[1..] + ys && (xs + ys)[0] == xs[0];
      var head := if le(xs[0], k) && le(k, xs[0]) then [xs[0]] else [];
      assert head + (Class(xs[1..], le, k) + Class(ys, le, k)) == (head + Class(xs[1..], le, k)) + Class(ys, le, k);
    }
  }

  lemma ClassOfOne<T(!new), G(!new)>(x: T, group: T -> G, gle: (G, G) -> bool, inner: (T, T) -> bool, k: T)
    requires TotalOrder(gle)
    ensures Class([x], Nested(group, gle, inner), k) == if group(x) == group(k) then Class([x], inner, k) else []
  {
    assert [x][1..] == [];
  }

  lemma InGroupStep<T, G>(xs: seq<T>, x: T, group: T -> G, g: G)
    ensures InGroup(xs + [x], group, g) == InGroup(xs, group, g) + if group(x) == g then [x] else []
  {
    assert (xs + [x])[..|xs|] == xs;
  }

  lemma {:induction false} ClassOfGroup<T(!new), G(!new)>(xs: seq<T>, group: T -> G, gle: (G, G) -> bool,
                                                             inner: (T, T) -> bool, k: T)
    requires TotalOrder(gle)
    ensures Class(xs, Nested(group, gle, inner), k) == Class(InGroup(xs, group, group(k)), inner, k)
  {
    if xs != [] {
      var n := |xs| - 1;
      var x := xs[n];
      assert xs == xs[..n] + [x];
      InGroupStep(xs[..n], x, group, group(k));
      hide Class, InGroup, TotalOrder;
      ClassOfGroup(xs[..n], group, gle, inner, k);
      ClassOfOne(x, group, gle, inner, k);
      hide Nested;
      ClassConcat(xs[..n], [x], Nested(group, gle, inner), k);
      ClassConcat(InGroup(xs[..n], group, group(k)), [x], inner, k);
    }
  }

  lemma {:induction false} FlattenClass<T(!new), G(!new)>(gs: seq<G>, xs: seq<T>, group: T -> G, gle: (G, G) -> bool,
                                                             inner: (T, T) -> bool, k: T)
    requires TotalOrder(gle) && TotalPreorder(inner) && Distinct(gs)
    ensures Class(Flatten(gs, xs, group, inner), Nested(group, gle, inner), k)
         == if group(k) in gs then Class(xs, Nested(group, gle, inner), k) else []
  {
    if gs != [] {
      var le := Nested(group, gle, inner);
      var block := Sort(InGroup(xs, group, gs[0]), inner);
      FlattenClass(gs[1..], xs, group, gle, inner, k);
      ClassConcat(block, Flatten(gs[1..], xs, group, inner), le, k);
      SortIsStable(InGroup(xs, group, gs[0]), inner);
      BlockGroup(xs, group, inner, gs[0]);
      ClassOfGroup(block, group, gle, inner, k);
      ClassOfGroup(xs, group, gle, inner, k);
      if group(k) == gs[0] {
        WholeGroup(block, group, gs[0]);
        assert group(k) !in gs[1..];
        assert Class(Sort(InGroup(xs, group, gs[0]), inner), inner, k) == Class(InGroup(xs, group, gs[0]), inner, k);
      } else {
        NoGroup(block, group, group(k));
        assert group(k) in gs <==> group(k) in gs[1..];
      }
    }
  }

  lemma BlockGroup<T(!new), G(!new)>(xs: seq<T>, group: T -> G, inner: (T, T) -> bool, g: G)
    requires TotalPreorder(inner)
    ensures forall x <- Sort(InGroup(xs, group, g), inner) :: group(x) == g && x in xs
  {
    var r := InGroup(xs, group, g);
    SortIsStable(r, inner);
    forall x | x in Sort(r, inner) ensures group(x) == g && x in xs {
      assert x in multiset(Sort(r, inner));
      assert x in r;
    }
  }

  lemma {:induction false} WholeGroup<T, G>(xs: seq<T>, group: T -> G, g: G)
    requires forall x <- xs :: group(x) == g
    ensures InGroup(xs, group, g) == xs
  {
    if xs != [] {
      var n := |xs| - 1;
      assert xs == xs[..n] + [xs[n]] && xs[n] in xs;
      WholeGroup(xs[..n], group, g);
    }
  }

  lemma {:induction false} NoGroup<T, G>(xs: seq<T>, group: T -> G, g: G)
    requires forall x <- xs :: group(x) != g
    ensures InGroup(xs, group, g) == []
  {
    if xs != [] {
      var n := |xs| - 1;
      assert xs == xs[..n] + [xs[n]] && xs[n] in xs;
      NoGroup(xs[..n], group, g);
    }
  }

  lemma {:induction false} FlattenElement<T(!new), G(!new)>(gs: seq<G>, xs: seq<T>, group: T -> G, inner: (T, T) -> bool)
    requires TotalPreorder(inner)
    ensures forall x <- Flatten(gs, xs, group, inner) :: group(x) in gs && x in xs
  {
    if gs != [] {
      FlattenElement(gs[1..], xs, group, inner);
      BlockGroup(xs, group, inner, gs[0]);
    }
  }

  lemma {:induction false} FlattenSorted<T(!new), G(!new)>(gs: seq<G>, xs: seq<T>, group: T -> G, gle: (G, G) -> bool,
                                                              inner: (T, T) -> bool)
    requires TotalOrder(gle) && TotalPreorder(inner) && Distinct(gs) && Sorted(gs, gle)
    ensures Sorted(Flatten(gs, xs, group, inner), Nested(group, gle, inner))
  {
    if gs != [] {
      var a, b := Sort(InGroup(xs, group, gs[0]), inner), Flatten(gs[1..], xs, group, inner);
      FlattenSorted(gs[1..], xs, group, gle, inner);
      BlockGroup(xs, group, inner, gs[0]);
      FlattenElement(gs[1..], xs, group, inner);
      SortIsStable(InGroup(xs, group, gs[0]), inner);
      var le := Nested(group, gle, inner);
      forall i, j | 0 <= i < j < |a + b| ensures le((a + b)[i], (a + b)[j]) {
        if j < |a| {
          assert inner(a[i], a[j]);
        } else if |a| <= i {
          assert le(b[i - |a|], b[j - |a|]);
        } else {
          assert group(b[j - |a|]) in gs[1..];
          assert a[i] in a;
        }
      }
    }
  }

  /** Sorting the groups and then each group is one stable sort of the whole list. */
  lemma GroupedIsSorted<T(!new), G(!new)>(xs: seq<T>, group: T -> G, gle: (G, G) -> bool, inner: (T, T) -> bool)
    requires TotalOrder(gle) && TotalPreorder(inner)
    ensures Flatten(Sort(Groups(xs, group), gle), xs, group, inner) == Sort(xs, Nested(group, gle, inner))
  {
    var le := Nested(group, gle, inner);
    var gs := Groups(xs, group);
    var sg := Sort(gs, gle);
    GroupsFacts(xs, group);
    SortIsStable(gs, gle);
    SortedDistinct(gs, sg);
    NestedIsPreorder(group, gle, inner);
    SortIsStable(xs, le);
    FlattenSorted(sg, xs, group, gle, inner);
    forall k ensures Class(Flatten(sg, xs, group, inner), le, k) == Class(Sort(xs, le), le, k) {
      FlattenClass(sg, xs, group, gle, inner, k);
      assert group(k) in multiset(sg) <==> group(k) in multiset(gs);
      if group(k) !in gs {
        NoGroup(xs, group, group(k));
        ClassOfGroup(xs, group, gle, inner, k);
      }
    }
    SortedUnique(Flatten(sg, xs, group, inner), Sort(xs, le), le);
  }

  lemma SortedDistinct<G>(gs: seq<G>, sg: seq<G>)
    requires Distinct(gs) && multiset(gs) == multiset(sg)
    ensures Distinct(sg)
  {
    forall i, j | 0 <= i < j < |sg| && sg[i] == sg[j] ensures false {
      assert sg == sg[..i] + [sg[i]] + sg[i + 1..j] + [sg[j]] + sg[j + 1..];
      assert multiset(sg)[sg[i]] >= 2;
      DistinctCount(gs, sg[i]);
    }
  }

  lemma {:induction false} DistinctCount<G>(gs: seq<G>, g: G)
    requires Distinct(gs)
    ensures multiset(gs)[g] <= 1
  {
    if gs != [] {
      assert gs == [gs[0]] + gs[1..];
      DistinctCount(gs[1..], g);
    }
  }

  // ---- permuted lists ----

  /** No two elements have the same key. */
  ghost predicate Separated<T>(xs: seq<T>, le: (T, T) -> bool) {
    forall i, j :: 0 <= i < j < |xs| ==> !(le(xs[i], xs[j]) && le(xs[j], xs[i]))
  }

  lemma {:induction false} EmptyClass<T>(xs: seq<T>, le: (T, T) -> bool, k: T)
    requires forall x <- xs :: !(le(x, k) && le(k, x))
    ensures Class(xs, le, k) == []
  {
    if xs != [] { EmptyClass(xs[1..], le, k); }
  }

  lemma {:induction false} SeparatedClass<T(!new)>(xs: seq<T>, le: (T, T) -> bool, k: T, x: T)
    requires TotalPreorder(le) && Separated(xs, le) && x in xs && le(x, k) && le(k, x)
    ensures Class(xs, le, k) == [x]
  {
    if xs[0] == x {
      forall y | y in xs[1..] ensures !(le(y, k) && le(k, y)) {
        var i :| 0 <= i < |xs[1..]| && xs[1..][i] == y;
        assert !(le(xs[0], xs[i + 1]) && le(xs[i + 1], xs[0]));
      }
      EmptyClass(xs[1..], le, k);
    } else {
      assert x in xs[1..];
      SeparatedClass(xs[1..], le, k, x);
      var i :| 0 <= i < |xs[1..]| && xs[1..][i] == x;
      assert xs[i + 1] == x;
      assert !(le(xs[0], k) && le(k, xs[0]));
    }
  }

  /** Permuting a list without equal keys does not change how it sorts. */
  lemma PermutedSeparated<T(!new)>(xs: seq<T>, ys: seq<T>, le: (T, T) -> bool)
    requires TotalPreorder(le) && multiset(xs) == multiset(ys) && Separated(xs, le) && Separated(ys, le)
    ensures SameClasses(xs, ys, le)
  {
    assert forall x :: x in xs <==> x in multiset(xs);
    assert forall x :: x in ys <==> x in multiset(ys);
    forall k ensures Class(xs, le, k) == Class(ys, le, k) {
      if x :| x in xs && le(x, k) && le(k, x) {
        SeparatedClass(xs, le, k, x);
        SeparatedClass(ys, le, k, x);
      } else {
        EmptyClass(xs, le, k);
        EmptyClass(ys, le, k);
      }
    }
  }

  /** Lists with the same classes have the same groups, and the same classes in each group. */
  lemma SameClassesByGroup<T(!new), G(!new)>(xs: seq<T>, ys: seq<T>, group: T -> G, gle: (G, G) -> bool,
                                             inner: (T, T) -> bool, g: G)
    requires TotalOrder(gle) && TotalPreorder(inner) && SameClasses(xs, ys, Nested(group, gle, inner))
    ensures SameClasses(InGroup(xs, group, g), InGroup(ys, group, g), inner)
    ensures g in Groups(xs, group) <==> g in Groups(ys, group)
  {
    var a, b := InGroup(xs, group, g), InGroup(ys, group, g);
    forall k | group(k) == g ensures Class(a, inner, k) == Class(b, inner, k) {
      ClassOfGroup(xs, group, gle, inner, k);
      ClassOfGroup(ys, group, gle, inner, k);
    }
    forall k ensures Class(a, inner, k) == Class(b, inner, k) {
      ClassElement(a, inner, k);
      ClassElement(b, inner, k);
      if Class(a, inner, k) != [] {
        SameKeyClass(a, inner, k, Class(a, inner, k)[0]);
        SameKeyClass(b, inner, k, Class(a, inner, k)[0]);
      } else if Class(b, inner, k) != [] {
        SameKeyClass(a, inner, k, Class(b, inner, k)[0]);
        SameKeyClass(b, inner, k, Class(b, inner, k)[0]);
      }
    }
    SameElements(xs, ys, Nested(group, gle, inner));
    GroupsFacts(xs, group);
    GroupsFacts(ys, group);
    NestedIsPreorder(group, gle, inner);
  }

  lemma {:induction false} SameKeyClass<T(!new)>(xs: seq<T>, le: (T, T) -> bool, k: T, x: T)
    requires TotalPreorder(le) && le(x, k) && le(k, x)
    ensures Class(xs, le, k) == Class(xs, le, x)
  {
    if xs != [] {
      SameKeyClass(xs[1..], le, k, x);
      assert le(xs[0], k) ==> le(xs[0], x);
    }
  }

  lemma SameElements<T(!new)>(xs: seq<T>, ys: seq<T>, le: (T, T) -> bool)
    requires TotalPreorder(le) && SameClasses(xs, ys, le)
    ensures forall x :: x in xs <==> x in ys
  {
    forall x ensures x in xs <==> x in ys {
      ClassElement(xs, le, x);
      ClassElement(ys, le, x);
      assert Class(xs, le, x) == Class(ys, le, x);
    }
  }

  /** Distinct lists with the same elements sort to the same list. */
  lemma SortOfSameSet<G(!new)>(gs: seq<G>, hs: seq<G>, le: (G, G) -> bool)
    requires TotalOrder(le) && Distinct(gs) && Distinct(hs) && forall g :: g in gs <==> g in hs
    ensures Sort(gs, le) == Sort(hs, le)
  {
    forall k ensures Class(gs, le, k) == Class(hs, le, k) {
      if k in gs {
        SeparatedClass(gs, le, k, k);
        SeparatedClass(hs, le, k, k);
      } else {
        EmptyClass(gs, le, k);
        EmptyClass(hs, le, k);
      }
    }
    SortInsensitive(gs, hs, le);
  }

  /** Distinct lists with the same elements are permutations of each other. */
  lemma SameDistinct<T>(a: seq<T>, b: seq<T>)
    requires Distinct(a) && Distinct(b) && forall x :: x in a <==> x in b
    ensures multiset(a) == multiset(b) && |a| == |b|
  {
    forall x ensures multiset(a)[x] == multiset(b)[x] {
      DistinctCount(a, x);
      DistinctCount(b, x);
      assert x in multiset(a) <==> x in a;
      assert x in multiset(b) <==> x in b;
    }
    assert |multiset(a)| == |a| && |multiset(b)| == |b|;
  }

  /** Keys that differ throughout a list differ throughout its permutations. */
  lemma PermutedKeysDiffer<T, K>(xs: seq<T>, ys: seq<T>, key: T -> K)
    requires multiset(xs) == multiset(ys) && forall i, j :: 0 <= i < j < |xs| ==> key(xs[i]) != key(xs[j])
    ensures forall i, j :: 0 <= i < j < |ys| ==> key(ys[i]) != key(ys[j])
  {
    assert Distinct(xs);
    SortedDistinct(xs, ys);
    forall i, j | 0 <= i < j < |ys| ensures key(ys[i]) != key(ys[j]) {
      assert ys[i] in multiset(xs) && ys[j] in multiset(xs);
      var a :| 0 <= a < |xs| && xs[a] == ys[i];
      var b :| 0 <= b < |xs| && xs[b] == ys[j];
      assert a != b;
    }
  }
}
