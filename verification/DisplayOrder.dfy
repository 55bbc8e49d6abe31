/**
 * The display order of the discovery result,
 * `OrderByDescending(x => x.IsActive).ThenBy(x => x.DisplayName)`: a stable
 * sort, active entries first, then by display name under the default string
 * comparer, which this model takes as any total preorder `le`.
 */
module DisplayOrder {
  import opened Text
  import opened Distributions

  /** `le` is total and transitive: the shape of a string comparer's "at most". */
  ghost predicate TotalPreorder(le: (string, string) -> bool) {
    && (forall a, b :: le(a, b) || le(b, a))
    && (forall a, b, c :: le(a, b) && le(b, c) ==> le(a, c))
  }

  /** `a` may stand before `b`: an active entry before an inactive one, else by display name. */
  predicate Before(le: (string, string) -> bool, a: JavaDistribution, b: JavaDistribution) {
    || (a.isActive && !b.isActive)
    || (a.isActive == b.isActive && le(a.displayName, b.displayName))
  }

  /** `a` and `b` have equal sort keys. */
  predicate Tied(le: (string, string) -> bool, a: JavaDistribution, b: JavaDistribution) {
    Before(le, a, b) && Before(le, b, a)
  }

  ghost predicate SortedForDisplay(le: (string, string) -> bool, ds: seq<JavaDistribution>) {
    forall i, j | 0 <= i < j < |ds| :: Before(le, ds[i], ds[j])
  }

  /** Puts `x` before the first entry it may precede, so `x` stays ahead of the entries it ties with. */
  function Insert(le: (string, string) -> bool, x: JavaDistribution, ys: seq<JavaDistribution>): (r: seq<JavaDistribution>)
    ensures multiset(r) == multiset(ys) + multiset{x}
  {
    if ys == [] then [x]
    else if Before(le, x, ys[0]) then [x] + ys
    else
      assert ys == [ys[0]] + ys[1..];
      [ys[0]] + Insert(le, x, ys[1..])
  }

  /** The stable sort: each entry is inserted into the sorted list of the entries after it. */
  function SortForDisplay(le: (string, string) -> bool, ds: seq<JavaDistribution>): (r: seq<JavaDistribution>)
    ensures multiset(r) == multiset(ds)
  {
    if ds == [] then []
    else
      assert ds == [ds[0]] + ds[1..];
      Insert(le, ds[0], SortForDisplay(le, ds[1..]))
  }

  /** The entries of `ds` whose sort key equals that of `d`, in their order in `ds`. */
  function TiedWith(le: (string, string) -> bool, ds: seq<JavaDistribution>, d: JavaDistribution): seq<JavaDistribution> {
    if ds == [] then []
    else (if Tied(le, ds[0], d) then [ds[0]] else []) + TiedWith(le, ds[1..], d)
  }

  /** The combined key order is itself a total preorder when the name order is. */
  lemma BeforeIsTotalPreorder(le: (string, string) -> bool)
    requires TotalPreorder(le)
    ensures forall a, b :: Before(le, a, b) || Before(le, b, a)
    ensures forall a, b, c :: Before(le, a, b) && Before(le, b, c) ==> Before(le, a, c)
  {
  }

  lemma {:induction false} InsertSorted(le: (string, string) -> bool, x: JavaDistribution, ys: seq<JavaDistribution>)
    requires TotalPreorder(le) && SortedForDisplay(le, ys)
    ensures SortedForDisplay(le, Insert(le, x, ys))
  {
    BeforeIsTotalPreorder(le);
    if ys != [] && !Before(le, x, ys[0]) {
      InsertSorted(le, x, ys[1..]);
      var r := Insert(le, x, ys[1..]);
      forall j | 0 <= j < |r| ensures Before(le, ys[0], r[j]) {
        assert r[j] in multiset(r);
        assert r[j] == x || r[j] in ys[1..];
      }
    }
  }

  /** The result of the sort is ordered: active entries first, then by display name. */
  lemma {:induction false} SortIsSorted(le: (string, string) -> bool, ds: seq<JavaDistribution>)
    requires TotalPreorder(le)
    ensures SortedForDisplay(le, SortForDisplay(le, ds))
  {
    if ds != [] {
      SortIsSorted(le, ds[1..]);
      InsertSorted(le, ds[0], SortForDisplay(le, ds[1..]));
    }
  }

  /** Transitivity of the combined order at one triple. */
  lemma BeforeTransitive(le: (string, string) -> bool, a: JavaDistribution, b: JavaDistribution, c: JavaDistribution)
    requires TotalPreorder(le) && Before(le, a, b) && Before(le, b, c)
    ensures Before(le, a, c)
  {
    if a.isActive == b.isActive && b.isActive == c.isActive {
      assert le(a.displayName, b.displayName) && le(b.displayName, c.displayName);
    }
  }

  /** TiedWith of a list with a given head. */
  lemma TiedWithCons(le: (string, string) -> bool, y: JavaDistribution, ys: seq<JavaDistribution>, d: JavaDistribution)
    ensures TiedWith(le, [y] + ys, d) == (if Tied(le, y, d) then [y] else []) + TiedWith(le, ys, d)
  {
    assert ([y] + ys)[0] == y;
    assert ([y] + ys)[1..] == ys;
  }

  lemma {:induction false} InsertStable(le: (string, string) -> bool, x: JavaDistribution, ys: seq<JavaDistribution>, d: JavaDistribution)
    requires TotalPreorder(le)
    ensures TiedWith(le, Insert(le, x, ys), d) == (if Tied(le, x, d) then [x] else []) + TiedWith(le, ys, d)
  {
    if ys == [] || Before(le, x, ys[0]) {
      InsertFrontStable(le, x, ys, d);
    } else {
      var y := ys[0];
      var tail := ys[1..];
      InsertStable(le, x, tail, d);
      if Tied(le, x, d) && Tied(le, y, d) {
        BeforeTransitive(le, x, d, y);
      }
      InsertBehindStable(le, x, y, tail, d);
      InsertBehind(le, x, ys);
    }
  }

  /** Where `x` goes in front, the ties are `x`'s, then those of `ys`. */
  lemma InsertFrontStable(le: (string, string) -> bool, x: JavaDistribution, ys: seq<JavaDistribution>, d: JavaDistribution)
    requires ys == [] || Before(le, x, ys[0])
    ensures TiedWith(le, Insert(le, x, ys), d) == (if Tied(le, x, d) then [x] else []) + TiedWith(le, ys, d)
  {
    assert Insert(le, x, ys) == [x] + ys;
    TiedWithCons(le, x, ys, d);
  }

  /** Where `x` does not go in front, the head stays and `x` goes into the tail. */
  lemma InsertBehind(le: (string, string) -> bool, x: JavaDistribution, ys: seq<JavaDistribution>)
    requires ys != [] && !Before(le, x, ys[0])
    ensures ys == [ys[0]] + ys[1..]
    ensures Insert(le, x, ys) == [ys[0]] + Insert(le, x, ys[1..])
  {
  }

  /**
   * The step of InsertStable where `x` goes behind the head `y`, which
   * cannot tie with `d` when `x` does.
   */
  lemma InsertBehindStable(le: (string, string) -> bool, x: JavaDistribution, y: JavaDistribution, tail: seq<JavaDistribution>, d: JavaDistribution)
    requires !(Tied(le, x, d) && Tied(le, y, d))
    requires TiedWith(le, Insert(le, x, tail), d) == (if Tied(le, x, d) then [x] else []) + TiedWith(le, tail, d)
    ensures TiedWith(le, [y] + Insert(le, x, tail), d) == (if Tied(le, x, d) then [x] else []) + TiedWith(le, [y] + tail, d)
  {
    TiedWithCons(le, y, Insert(le, x, tail), d);
    TiedWithCons(le, y, tail, d);
    var rest := TiedWith(le, tail, d);
    if Tied(le, x, d) {
      assert TiedWith(le, [y] + tail, d) == rest;
    } else {
      var head := if Tied(le, y, d) then [y] else [];
      assert TiedWith(le, [y] + Insert(le, x, tail), d) == head + rest;
    }
  }

  /**
   * The sort is stable: the entries that tie on (IsActive, DisplayName) keep
   * the order they were discovered in.
   */
  lemma {:induction false} SortIsStable(le: (string, string) -> bool, ds: seq<JavaDistribution>, d: JavaDistribution)
    requires TotalPreorder(le)
    ensures TiedWith(le, SortForDisplay(le, ds), d) == TiedWith(le, ds, d)
  {
    if ds != [] {
      SortIsStable(le, ds[1..], d);
      InsertStable(le, ds[0], SortForDisplay(le, ds[1..]), d);
      assert ds == [ds[0]] + ds[1..];
      TiedWithCons(le, ds[0], ds[1..], d);
    }
  }

  /** The tail of a list with distinct homes has distinct homes, none equal to the head's. */
  lemma DistinctTail(ys: seq<JavaDistribution>)
    requires ys != [] && DistinctHomes(ys)
    ensures DistinctHomes(ys[1..])
    ensures forall z | z in ys[1..] :: !EqualsIgnoreCase(ys[0].homePath, z.homePath)
  {
    var tail := ys[1..];
    forall i, j | 0 <= i < j < |tail| ensures !EqualsIgnoreCase(tail[i].homePath, tail[j].homePath) {
      assert tail[i] == ys[i + 1] && tail[j] == ys[j + 1];
    }
    forall z | z in tail ensures !EqualsIgnoreCase(ys[0].homePath, z.homePath) {
      var k :| 0 <= k < |tail| && tail[k] == z;
      assert ys[k + 1] == z;
    }
  }

  /** A head whose home differs from every home of a distinct list keeps the list distinct. */
  lemma DistinctCons(y: JavaDistribution, ys: seq<JavaDistribution>)
    requires DistinctHomes(ys)
    requires forall z | z in ys :: !EqualsIgnoreCase(y.homePath, z.homePath)
    ensures DistinctHomes([y] + ys)
  {
    var full := [y] + ys;
    forall i, j | 0 <= i < j < |full| ensures !EqualsIgnoreCase(full[i].homePath, full[j].homePath) {
      if i > 0 {
        assert full[i] == ys[i - 1] && full[j] == ys[j - 1];
      } else {
        assert full[j] in ys;
      }
    }
  }

  lemma {:induction false} InsertKeepsHomesDistinct(le: (string, string) -> bool, x: JavaDistribution, ys: seq<JavaDistribution>)
    requires DistinctHomes(ys)
    requires forall y | y in ys :: !EqualsIgnoreCase(y.homePath, x.homePath)
    ensures DistinctHomes(Insert(le, x, ys))
  {
    if ys == [] || Before(le, x, ys[0]) {
      DistinctCons(x, ys);
      assert ys == [] ==> Insert(le, x, ys) == [x] + ys;
    } else {
      var tail := ys[1..];
      DistinctTail(ys);
      assert forall y | y in tail :: y in ys;
      InsertKeepsHomesDistinct(le, x, tail);
      var r := Insert(le, x, tail);
      forall z | z in r ensures !EqualsIgnoreCase(ys[0].homePath, z.homePath) {
        assert z in multiset(r);
        assert z == x || z in tail;
      }
      DistinctCons(ys[0], r);
    }
  }

  /** Sorting neither merges nor duplicates home paths. */
  lemma {:induction false} SortKeepsHomesDistinct(le: (string, string) -> bool, ds: seq<JavaDistribution>)
    requires DistinctHomes(ds)
    ensures DistinctHomes(SortForDisplay(le, ds))
  {
    if ds != [] {
      var tail := ds[1..];
      DistinctTail(ds);
      SortKeepsHomesDistinct(le, tail);
      var sorted := SortForDisplay(le, tail);
      forall y | y in sorted ensures !EqualsIgnoreCase(y.homePath, ds[0].homePath) {
        assert y in multiset(sorted);
        assert y in tail;
      }
      InsertKeepsHomesDistinct(le, ds[0], sorted);
    }
  }
}
