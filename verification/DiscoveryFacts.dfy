/**
 * What the discovery promises about its result: every entry is the probed
 * record of an accepted candidate, no home is listed twice, the first
 * occurrence of every installation with a launcher is listed, at most one
 * entry is active and it is the JAVA_HOME one, and the list is in display
 * order.
 */
module DiscoveryFacts {
  import opened Wrappers
  import opened Text
  import opened Distributions
  import opened DisplayOrder
  import opened JavaDetection

  /**
   * `d` is what TryAdd builds for its own home path: the probed record, with
   * isActive set exactly when the path is the normalised active home.
   */
  ghost predicate Probed(h: Host, na: Option<string>, d: JavaDistribution) {
    && TryCreateDistribution(h, d.homePath) == Some(d.(isActive := false))
    && d.isActive == IsActiveHome(d.homePath, na)
  }

  /** What TryAdd keeps true: listed homes are seen, listed entries are probed, no home is listed twice. */
  ghost predicate ScanInvariant(h: Host, na: Option<string>, st: Scan) {
    && (forall d | d in st.list :: Fold(d.homePath) in st.seen && Probed(h, na, d))
    && DistinctHomes(st.list)
  }

  lemma OfferKeepsInvariant(h: Host, na: Option<string>, st: Scan, c: string)
    requires ScanInvariant(h, na, st)
    ensures ScanInvariant(h, na, Offer(h, na, st, c))
  {
    var r := Offer(h, na, st, c);
    if Accepted(h, c) && Fold(h.fullPath(c)) !in st.seen {
      var full := h.fullPath(c);
      var t := TryCreateDistribution(h, full);
      if t.Some? {
        var d := t.value.(isActive := IsActiveHome(full, na));
        assert r == Scan(st.seen + {Fold(full)}, st.list + [d]);
        assert Probed(h, na, d);
        forall i, j | 0 <= i < j < |r.list|
          ensures !EqualsIgnoreCase(r.list[i].homePath, r.list[j].homePath)
        {
          assert r.list[i] in st.list;
          if j < |st.list| {
            assert r.list[j] == st.list[j];
          }
        }
      }
    }
  }

  lemma {:induction false} CollectKeepsInvariant(h: Host, na: Option<string>, st: Scan, cs: seq<string>)
    requires ScanInvariant(h, na, st)
    ensures ScanInvariant(h, na, Collect(h, na, st, cs))
    decreases |cs|
  {
    if cs != [] {
      OfferKeepsInvariant(h, na, st, cs[0]);
      CollectKeepsInvariant(h, na, Offer(h, na, st, cs[0]), cs[1..]);
    }
  }

  /** TryAdd only adds: the seen set grows and the list is extended at its end. */
  lemma {:induction false} CollectExtends(h: Host, na: Option<string>, st: Scan, cs: seq<string>)
    ensures var r := Collect(h, na, st, cs);
      st.seen <= r.seen && |st.list| <= |r.list| && r.list[..|st.list|] == st.list
    decreases |cs|
  {
    if cs != [] {
      var st1 := Offer(h, na, st, cs[0]);
      CollectExtends(h, na, st1, cs[1..]);
      var r := Collect(h, na, st, cs);
      assert r.list[..|st.list|] == r.list[..|st1.list|][..|st.list|];
    }
  }

  /** A new accepted path with a launcher gets exactly one entry, for its full path. */
  lemma OfferAdds(h: Host, na: Option<string>, st: Scan, c: string)
    requires Accepted(h, c) && Fold(h.fullPath(c)) !in st.seen
    requires h.fileExists(LauncherPath(h.fullPath(c)))
    ensures var r := Offer(h, na, st, c);
      |r.list| == |st.list| + 1 && r.list[|st.list|].homePath == h.fullPath(c)
  {
    assert TryCreateDistribution(h, h.fullPath(c)).Some?;
  }

  /** An entry at index `i` of the list after the first candidate is an entry of the final list. */
  lemma CollectKeepsEntry(h: Host, na: Option<string>, st: Scan, cs: seq<string>, i: nat)
    requires cs != [] && i < |Offer(h, na, st, cs[0]).list|
    ensures var r := Collect(h, na, st, cs);
      i < |r.list| && r.list[i] == Offer(h, na, st, cs[0]).list[i]
  {
    var st1 := Offer(h, na, st, cs[0]);
    assert Collect(h, na, st, cs) == Collect(h, na, st1, cs[1..]);
    CollectExtends(h, na, st1, cs[1..]);
    var r := Collect(h, na, st1, cs[1..]);
    assert r.list[i] == r.list[..|st1.list|][i];
  }

  /** Every entry added is the full path of a candidate that passed TryAdd's first test. */
  lemma {:induction false} CollectOrigin(h: Host, na: Option<string>, st: Scan, cs: seq<string>, i: nat)
    requires |st.list| <= i < |Collect(h, na, st, cs).list|
    ensures exists c | c in cs :: Accepted(h, c) && Collect(h, na, st, cs).list[i].homePath == h.fullPath(c)
    decreases |cs|
  {
    var r := Collect(h, na, st, cs);
    if cs != [] {
      var st1 := Offer(h, na, st, cs[0]);
      assert r == Collect(h, na, st1, cs[1..]);
      if i < |st1.list| {
        CollectKeepsEntry(h, na, st, cs, i);
        assert st1.list != st.list;
        assert Accepted(h, cs[0]) && r.list[i].homePath == h.fullPath(cs[0]);
        assert cs[0] in cs;
      } else {
        CollectOrigin(h, na, st1, cs[1..], i);
        var c :| c in cs[1..] && Accepted(h, c) && r.list[i].homePath == h.fullPath(c);
        assert c in cs;
      }
    }
  }

  /** Every accepted candidate ends up in the seen set, whether or not it was listed. */
  lemma {:induction false} CollectCovers(h: Host, na: Option<string>, st: Scan, cs: seq<string>)
    ensures var r := Collect(h, na, st, cs);
      forall c | c in cs && Accepted(h, c) :: Fold(h.fullPath(c)) in r.seen
    decreases |cs|
  {
    if cs != [] {
      var st1 := Offer(h, na, st, cs[0]);
      assert Collect(h, na, st, cs) == Collect(h, na, st1, cs[1..]);
      CollectCovers(h, na, st1, cs[1..]);
      CollectExtends(h, na, st1, cs[1..]);
      forall c | c in cs && Accepted(h, c)
        ensures Fold(h.fullPath(c)) in Collect(h, na, st, cs).seen
      {
        if c != cs[0] {
          assert c in cs[1..];
        }
      }
    }
  }

  /** A first candidate that is new, accepted and has a launcher is listed. */
  lemma CollectFindsHead(h: Host, na: Option<string>, st: Scan, cs: seq<string>)
    requires cs != [] && Accepted(h, cs[0]) && Fold(h.fullPath(cs[0])) !in st.seen
    requires h.fileExists(LauncherPath(h.fullPath(cs[0])))
    ensures exists d | d in Collect(h, na, st, cs).list :: d.homePath == h.fullPath(cs[0])
  {
    OfferAdds(h, na, st, cs[0]);
    CollectKeepsEntry(h, na, st, cs, |st.list|);
    var r := Collect(h, na, st, cs);
    assert r.list[|st.list|] in r.list;
  }

  /** A candidate whose key differs from the first candidate's is still unseen after it. */
  lemma OfferKeepsUnseen(h: Host, na: Option<string>, st: Scan, c: string, key: string)
    requires key !in st.seen
    requires Accepted(h, c) ==> Fold(h.fullPath(c)) != key
    ensures key !in Offer(h, na, st, c).seen
  {
  }

  /**
   * The first accepted candidate with a given ignore-case full path is
   * listed when its home has a launcher.
   */
  lemma {:induction false} CollectFindsFirst(h: Host, na: Option<string>, st: Scan, cs: seq<string>, k: nat)
    requires k < |cs| && Accepted(h, cs[k]) && Fold(h.fullPath(cs[k])) !in st.seen
    requires forall j | 0 <= j < k && Accepted(h, cs[j]) :: Fold(h.fullPath(cs[j])) != Fold(h.fullPath(cs[k]))
    requires h.fileExists(LauncherPath(h.fullPath(cs[k])))
    ensures exists d | d in Collect(h, na, st, cs).list :: d.homePath == h.fullPath(cs[k])
    decreases |cs|
  {
    if k == 0 {
      CollectFindsHead(h, na, st, cs);
    } else {
      var st1 := Offer(h, na, st, cs[0]);
      var rest := cs[1..];
      OfferKeepsUnseen(h, na, st, cs[0], Fold(h.fullPath(cs[k])));
      assert rest[k - 1] == cs[k];
      forall j | 0 <= j < k - 1 && Accepted(h, rest[j])
        ensures Fold(h.fullPath(rest[j])) != Fold(h.fullPath(rest[k - 1]))
      {
        assert rest[j] == cs[j + 1];
      }
      CollectFindsFirst(h, na, st1, rest, k - 1);
      assert Collect(h, na, st, cs) == Collect(h, na, st1, rest);
    }
  }

  /** With distinct homes and correct flags, at most one entry is active. */
  lemma AtMostOneActive(na: Option<string>, ds: seq<JavaDistribution>)
    requires DistinctHomes(ds)
    requires forall d | d in ds :: d.isActive == IsActiveHome(d.homePath, na)
    ensures forall i, j | 0 <= i < |ds| && 0 <= j < |ds| && ds[i].isActive && ds[j].isActive :: i == j
    ensures na.None? ==> forall d | d in ds :: !d.isActive
  {
    forall i, j | 0 <= i < |ds| && 0 <= j < |ds| && ds[i].isActive && ds[j].isActive
      ensures i == j
    {
      assert ds[i] in ds && ds[j] in ds;
    }
  }

  /** The collected list satisfies the invariant. */
  lemma CollectedInvariant(h: Host, activeHome: Option<string>)
    requires activeHome.Some? ==> Trim(activeHome.value) != ""
    ensures ScanInvariant(h, NormalizedActive(h, activeHome), Scan({}, []))
    ensures ScanInvariant(h, NormalizedActive(h, activeHome),
      Collect(h, NormalizedActive(h, activeHome), Scan({}, []), Candidates(h, activeHome)))
  {
    CollectKeepsInvariant(h, NormalizedActive(h, activeHome), Scan({}, []), Candidates(h, activeHome));
  }

  /**
   * DiscoverDistributions throws exactly when the JAVA_HOME in effect is
   * present but blank: the machine-scope value is null or blank and the
   * user-scope value is blank but not null.
   */
  lemma DiscoverFailsOnlyOnBlankHome(h: Host, le: (string, string) -> bool)
    ensures Discover(h, le).EmptyActiveHome?
        <==> IsNullOrWhiteSpace(h.machineJavaHome) && h.userJavaHome.Some? && IsBlank(h.userJavaHome.value)
  {
  }

  /** One collected entry: probed, with a launcher, well formed, from an accepted candidate. */
  lemma CollectedEntry(h: Host, activeHome: Option<string>, d: JavaDistribution)
    requires activeHome.Some? ==> Trim(activeHome.value) != ""
    requires d in Collected(h, activeHome)
    ensures Probed(h, NormalizedActive(h, activeHome), d)
    ensures h.fileExists(LauncherPath(d.homePath)) && WellFormed(d)
    ensures exists c | c in Candidates(h, activeHome) :: Accepted(h, c) && d.homePath == h.fullPath(c)
  {
    var collected := Collected(h, activeHome);
    CollectedInvariant(h, activeHome);
    EntryOrigin(h, NormalizedActive(h, activeHome), Candidates(h, activeHome), d);
    assert TryCreateDistribution(h, d.homePath) == Some(d.(isActive := false));
  }

  /** CollectOrigin for an entry of a scan that starts empty. */
  lemma EntryOrigin(h: Host, na: Option<string>, cs: seq<string>, d: JavaDistribution)
    requires d in Collect(h, na, Scan({}, []), cs).list
    ensures exists c | c in cs :: Accepted(h, c) && d.homePath == h.fullPath(c)
  {
    var list := Collect(h, na, Scan({}, []), cs).list;
    var i :| 0 <= i < |list| && list[i] == d;
    CollectOrigin(h, na, Scan({}, []), cs, i);
  }

  /**
   * Every listed entry is the probed record of the full path of an accepted
   * candidate, has a launcher, is active exactly when it is the normalised
   * active home, and no home is listed twice.
   */
  lemma DiscoverEntries(h: Host, le: (string, string) -> bool)
    requires Discover(h, le).Found?
    ensures var activeHome := GetActiveJavaHome(h.machineJavaHome, h.userJavaHome);
      var na := NormalizedActive(h, activeHome);
      var ds := Discover(h, le).distributions;
      && DistinctHomes(ds)
      && (forall d | d in ds ::
            && Probed(h, na, d)
            && h.fileExists(LauncherPath(d.homePath))
            && WellFormed(d)
            && exists c | c in Candidates(h, activeHome) :: Accepted(h, c) && d.homePath == h.fullPath(c))
  {
    var activeHome := GetActiveJavaHome(h.machineJavaHome, h.userJavaHome);
    var collected := Collected(h, activeHome);
    var ds := Discover(h, le).distributions;
    CollectedInvariant(h, activeHome);
    SortKeepsHomesDistinct(le, collected);
    forall d | d in ds
      ensures && Probed(h, NormalizedActive(h, activeHome), d)
              && h.fileExists(LauncherPath(d.homePath))
              && WellFormed(d)
              && exists c | c in Candidates(h, activeHome) :: Accepted(h, c) && d.homePath == h.fullPath(c)
    {
      assert d in multiset(ds);
      CollectedEntry(h, activeHome, d);
    }
  }

  /**
   * Nothing is missed: the first accepted candidate with a given
   * ignore-case full path is listed when its home has a launcher.
   */
  lemma DiscoverFindsFirst(h: Host, le: (string, string) -> bool, k: nat)
    requires Discover(h, le).Found?
    requires var cs := Candidates(h, GetActiveJavaHome(h.machineJavaHome, h.userJavaHome));
      && k < |cs| && Accepted(h, cs[k])
      && (forall j | 0 <= j < k && Accepted(h, cs[j]) :: Fold(h.fullPath(cs[j])) != Fold(h.fullPath(cs[k])))
      && h.fileExists(LauncherPath(h.fullPath(cs[k])))
    ensures var cs := Candidates(h, GetActiveJavaHome(h.machineJavaHome, h.userJavaHome));
      exists d | d in Discover(h, le).distributions :: d.homePath == h.fullPath(cs[k])
  {
    var activeHome := GetActiveJavaHome(h.machineJavaHome, h.userJavaHome);
    var na := NormalizedActive(h, activeHome);
    var cs := Candidates(h, activeHome);
    var collected := Collected(h, activeHome);
    CollectFindsFirst(h, na, Scan({}, []), cs, k);
    var d :| d in collected && d.homePath == h.fullPath(cs[k]);
    assert d in multiset(collected);
    assert d in Discover(h, le).distributions;
  }

  /**
   * Display order: active entries first, then by display name, ties kept in
   * discovery order, and the list is a permutation of what was collected.
   */
  lemma DiscoverOrder(h: Host, le: (string, string) -> bool)
    requires TotalPreorder(le)
    requires Discover(h, le).Found?
    ensures var activeHome := GetActiveJavaHome(h.machineJavaHome, h.userJavaHome);
      var ds := Discover(h, le).distributions;
      && SortedForDisplay(le, ds)
      && multiset(ds) == multiset(Collected(h, activeHome))
      && (forall d :: TiedWith(le, ds, d) == TiedWith(le, Collected(h, activeHome), d))
  {
    var activeHome := GetActiveJavaHome(h.machineJavaHome, h.userJavaHome);
    SortIsSorted(le, Collected(h, activeHome));
    forall d ensures TiedWith(le, Discover(h, le).distributions, d) == TiedWith(le, Collected(h, activeHome), d) {
      SortIsStable(le, Collected(h, activeHome), d);
    }
  }

  /** The listed homes are distinct and each entry is flagged by the normalised active home. */
  lemma DiscoverFlags(h: Host, le: (string, string) -> bool)
    requires Discover(h, le).Found?
    ensures var na := NormalizedActive(h, GetActiveJavaHome(h.machineJavaHome, h.userJavaHome));
      var ds := Discover(h, le).distributions;
      DistinctHomes(ds) && forall d | d in ds :: d.isActive == IsActiveHome(d.homePath, na)
  {
    DiscoverEntries(h, le);
  }

  /** At most one entry is active, and none is when there is no JAVA_HOME. */
  lemma DiscoverOneActive(h: Host, le: (string, string) -> bool)
    requires Discover(h, le).Found?
    ensures var ds := Discover(h, le).distributions;
      && (forall i, j | 0 <= i < |ds| && 0 <= j < |ds| && ds[i].isActive && ds[j].isActive :: i == j)
      && (GetActiveJavaHome(h.machineJavaHome, h.userJavaHome).None? ==> forall d | d in ds :: !d.isActive)
  {
    DiscoverFlags(h, le);
    AtMostOneActive(NormalizedActive(h, GetActiveJavaHome(h.machineJavaHome, h.userJavaHome)),
      Discover(h, le).distributions);
  }

  /** An active entry, if any, is the first of the list. */
  lemma DiscoverActiveFirst(h: Host, le: (string, string) -> bool)
    requires TotalPreorder(le)
    requires Discover(h, le).Found?
    ensures var ds := Discover(h, le).distributions;
      forall d | d in ds && d.isActive :: ds[0] == d
  {
    var ds := Discover(h, le).distributions;
    DiscoverOneActive(h, le);
    SortIsSorted(le, Collected(h, GetActiveJavaHome(h.machineJavaHome, h.userJavaHome)));
    assert SortedForDisplay(le, ds);
    forall d | d in ds && d.isActive ensures ds[0] == d {
      var i :| 0 <= i < |ds| && ds[i] == d;
    }
  }

  /**
   * A JAVA_HOME that names an installation with a launcher is listed, first
   * and active, provided the full path of the value as written and of the
   * trimmed value agree ignoring case.
   */
  lemma ActiveHomeListedFirst(h: Host, le: (string, string) -> bool)
    requires TotalPreorder(le)
    requires var activeHome := GetActiveJavaHome(h.machineJavaHome, h.userJavaHome);
      && !IsNullOrWhiteSpace(activeHome)
      && Accepted(h, activeHome.value)
      && h.fileExists(LauncherPath(h.fullPath(activeHome.value)))
      && EqualsIgnoreCase(h.fullPath(activeHome.value), h.fullPath(Trim(activeHome.value)))
    ensures Discover(h, le).Found?
    ensures var activeHome := GetActiveJavaHome(h.machineJavaHome, h.userJavaHome);
      var ds := Discover(h, le).distributions;
      |ds| > 0 && ds[0].isActive && ds[0].homePath == h.fullPath(activeHome.value)
  {
    var activeHome := GetActiveJavaHome(h.machineJavaHome, h.userJavaHome);
    assert Trim(activeHome.value) != "";
    var cs := Candidates(h, activeHome);
    assert cs[0] == activeHome.value;
    DiscoverFindsFirst(h, le, 0);
    var ds := Discover(h, le).distributions;
    var d :| d in ds && d.homePath == h.fullPath(activeHome.value);
    DiscoverEntries(h, le);
    assert d.isActive;
    DiscoverActiveFirst(h, le);
  }
}
