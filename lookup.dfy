// The reverse-dependency lookup as a specification. A Site names one link
// occurrence by its coordinates: repository index, package index within that
// repository, kind, and link index within that kind's list. The collector's
// result is the sequence of references found at the matching sites, visited
// in the nested order repository, package, kind, link.

module Lookup {
  import opened Packages

  /** One result of the lookup: the kind, the referencing package and the link. */
  datatype Reference = Reference(kind: Kind, package: Package, link: Link)

  /** Coordinates of one link occurrence in a repository list. */
  datatype Site = Site(repo: nat, pkg: nat, kind: Kind, link: nat)

  ghost predicate IsSite(repos: seq<Repository>, s: Site)
  {
    s.repo < |repos|
    && s.pkg < |repos[s.repo].packages|
    && s.link < |LinksOf(repos[s.repo].packages[s.pkg], s.kind)|
  }

  function RefAt(repos: seq<Repository>, s: Site): Reference
    requires IsSite(repos, s)
  {
    var p := repos[s.repo].packages[s.pkg];
    Reference(s.kind, p, LinksOf(p, s.kind)[s.link])
  }

  /** The link at s exists and targets exactly the needle. */
  ghost predicate IsMatch(repos: seq<Repository>, needle: string, s: Site)
  {
    IsSite(repos, s) && LinksOf(repos[s.repo].packages[s.pkg], s.kind)[s.link].target == needle
  }

  /** Lexicographic order on sites: repository, then package, then kind rank, then link. */
  predicate Before(a: Site, b: Site)
  {
    a.repo < b.repo
    || (a.repo == b.repo && a.pkg < b.pkg)
    || (a.repo == b.repo && a.pkg == b.pkg && Rank(a.kind) < Rank(b.kind))
    || (a.repo == b.repo && a.pkg == b.pkg && a.kind == b.kind && a.link < b.link)
  }

  ghost predicate Sorted(ss: seq<Site>)
  {
    forall a, b :: 0 <= a < b < |ss| ==> Before(ss[a], ss[b])
  }

  // The specification of the scan, one function per loop of the collector.
  // Each is defined on a prefix of its loop's range, so that a loop
  // invariant can name the part already visited.

  /** Matching sites among the first n links of kind k of package p in repository r. */
  ghost function LinkSites(repos: seq<Repository>, needle: string, r: nat, p: nat, k: Kind, n: nat): (ss: seq<Site>)
    requires r < |repos| && p < |repos[r].packages|
    requires n <= |LinksOf(repos[r].packages[p], k)|
    ensures forall s <- ss :: IsMatch(repos, needle, s) && s.repo == r && s.pkg == p && s.kind == k && s.link < n
    decreases n
  {
    if n == 0 then []
    else
      LinkSites(repos, needle, r, p, k, n - 1)
      + (if LinksOf(repos[r].packages[p], k)[n - 1].target == needle then [Site(r, p, k, n - 1)] else [])
  }

  /** Matching sites of package p in repository r under the first t kinds of Kinds. */
  ghost function KindSites(repos: seq<Repository>, needle: string, r: nat, p: nat, t: nat): (ss: seq<Site>)
    requires r < |repos| && p < |repos[r].packages| && t <= |Kinds|
    ensures forall s <- ss :: IsMatch(repos, needle, s) && s.repo == r && s.pkg == p && Rank(s.kind) < t
    decreases t
  {
    if t == 0 then []
    else
      var k := Kinds[t - 1];
      RankOfKinds(t - 1);
      KindSites(repos, needle, r, p, t - 1)
      + LinkSites(repos, needle, r, p, k, |LinksOf(repos[r].packages[p], k)|)
  }

  /** Matching sites of the first n packages of repository r. */
  ghost function PackageSites(repos: seq<Repository>, needle: string, r: nat, n: nat): (ss: seq<Site>)
    requires r < |repos| && n <= |repos[r].packages|
    ensures forall s <- ss :: IsMatch(repos, needle, s) && s.repo == r && s.pkg < n
    decreases n
  {
    if n == 0 then []
    else PackageSites(repos, needle, r, n - 1) + KindSites(repos, needle, r, n - 1, |Kinds|)
  }

  /** Matching sites of the first n repositories. */
  ghost function Sites(repos: seq<Repository>, needle: string, n: nat): (ss: seq<Site>)
    requires n <= |repos|
    ensures forall s <- ss :: IsMatch(repos, needle, s) && s.repo < n
    decreases n
  {
    if n == 0 then []
    else Sites(repos, needle, n - 1) + PackageSites(repos, needle, n - 1, |repos[n - 1].packages|)
  }

  /** All matching sites of the repository list, in visiting order. */
  ghost function AllSites(repos: seq<Repository>, needle: string): seq<Site>
  {
    Sites(repos, needle, |repos|)
  }

  /**
   * What the collector returns for needle over repos: the reference at each
   * matching site, in visiting order. Every reference it holds targets the
   * needle exactly.
   */
  ghost function References(repos: seq<Repository>, needle: string): (refs: seq<Reference>)
    ensures forall x <- refs :: x.link.target == needle
  {
    RefsAt(repos, AllSites(repos, needle))
  }

  /** The references found at the sites ss, in the order of ss. */
  function RefsAt(repos: seq<Repository>, ss: seq<Site>): seq<Reference>
    requires forall s <- ss :: IsSite(repos, s)
  {
    seq(|ss|, i requires 0 <= i < |ss| => RefAt(repos, ss[i]))
  }

  lemma RefsAtConcat(repos: seq<Repository>, xs: seq<Site>, ys: seq<Site>)
    requires forall s <- xs :: IsSite(repos, s)
    requires forall s <- ys :: IsSite(repos, s)
    ensures RefsAt(repos, xs + ys) == RefsAt(repos, xs) + RefsAt(repos, ys)
  {
  }

  // One step of each loop of the collector, on the references found so far.

  lemma LinkSitesStep(repos: seq<Repository>, needle: string, r: nat, p: nat, k: Kind, n: nat)
    requires r < |repos| && p < |repos[r].packages|
    requires n < |LinksOf(repos[r].packages[p], k)|
    ensures var link := LinksOf(repos[r].packages[p], k)[n];
      RefsAt(repos, LinkSites(repos, needle, r, p, k, n + 1))
      == RefsAt(repos, LinkSites(repos, needle, r, p, k, n))
         + (if link.target == needle then [Reference(k, repos[r].packages[p], link)] else [])
  {
    var link := LinksOf(repos[r].packages[p], k)[n];
    RefsAtConcat(repos, LinkSites(repos, needle, r, p, k, n), if link.target == needle then [Site(r, p, k, n)] else []);
  }

  lemma KindSitesStep(repos: seq<Repository>, needle: string, r: nat, p: nat, t: nat)
    requires r < |repos| && p < |repos[r].packages| && t < |Kinds|
    ensures RefsAt(repos, KindSites(repos, needle, r, p, t + 1))
         == RefsAt(repos, KindSites(repos, needle, r, p, t))
            + RefsAt(repos, LinkSites(repos, needle, r, p, Kinds[t], |LinksOf(repos[r].packages[p], Kinds[t])|))
  {
    RefsAtConcat(repos, KindSites(repos, needle, r, p, t),
                 LinkSites(repos, needle, r, p, Kinds[t], |LinksOf(repos[r].packages[p], Kinds[t])|));
  }

  lemma PackageSitesStep(repos: seq<Repository>, needle: string, r: nat, n: nat)
    requires r < |repos| && n < |repos[r].packages|
    ensures RefsAt(repos, PackageSites(repos, needle, r, n + 1))
         == RefsAt(repos, PackageSites(repos, needle, r, n)) + RefsAt(repos, KindSites(repos, needle, r, n, |Kinds|))
  {
    RefsAtConcat(repos, PackageSites(repos, needle, r, n), KindSites(repos, needle, r, n, |Kinds|));
  }

  lemma SitesStep(repos: seq<Repository>, needle: string, n: nat)
    requires n < |repos|
    ensures RefsAt(repos, Sites(repos, needle, n + 1))
         == RefsAt(repos, Sites(repos, needle, n)) + RefsAt(repos, PackageSites(repos, needle, n, |repos[n].packages|))
  {
    RefsAtConcat(repos, Sites(repos, needle, n), PackageSites(repos, needle, n, |repos[n].packages|));
  }

  // ---------------------------------------------------------------------
  // Completeness: every matching site is visited.

  lemma {:induction false} LinkSitesComplete(repos: seq<Repository>, needle: string, r: nat, p: nat, k: Kind, n: nat)
    requires r < |repos| && p < |repos[r].packages|
    requires n <= |LinksOf(repos[r].packages[p], k)|
    ensures forall s :: IsMatch(repos, needle, s) && s.repo == r && s.pkg == p && s.kind == k && s.link < n
                        ==> s in LinkSites(repos, needle, r, p, k, n)
    decreases n
  {
    if n > 0 {
      LinkSitesComplete(repos, needle, r, p, k, n - 1);
    }
  }

  lemma {:induction false} KindSitesComplete(repos: seq<Repository>, needle: string, r: nat, p: nat, t: nat)
    requires r < |repos| && p < |repos[r].packages| && t <= |Kinds|
    ensures forall s :: IsMatch(repos, needle, s) && s.repo == r && s.pkg == p && Rank(s.kind) < t
                        ==> s in KindSites(repos, needle, r, p, t)
    decreases t
  {
    if t > 0 {
      var k := Kinds[t - 1];
      KindSitesComplete(repos, needle, r, p, t - 1);
      LinkSitesComplete(repos, needle, r, p, k, |LinksOf(repos[r].packages[p], k)|);
    }
  }

  lemma {:induction false} PackageSitesComplete(repos: seq<Repository>, needle: string, r: nat, n: nat)
    requires r < |repos| && n <= |repos[r].packages|
    ensures forall s :: IsMatch(repos, needle, s) && s.repo == r && s.pkg < n
                        ==> s in PackageSites(repos, needle, r, n)
    decreases n
  {
    if n > 0 {
      PackageSitesComplete(repos, needle, r, n - 1);
      KindSitesComplete(repos, needle, r, n - 1, |Kinds|);
    }
  }

  lemma {:induction false} SitesComplete(repos: seq<Repository>, needle: string, n: nat)
    requires n <= |repos|
    ensures forall s :: IsMatch(repos, needle, s) && s.repo < n ==> s in Sites(repos, needle, n)
    decreases n
  {
    if n > 0 {
      SitesComplete(repos, needle, n - 1);
      PackageSitesComplete(repos, needle, n - 1, |repos[n - 1].packages|);
    }
  }

  // ---------------------------------------------------------------------
  // Order: the visiting order is strictly increasing in Before.

  lemma SortedAppend(xs: seq<Site>, ys: seq<Site>)
    requires Sorted(xs) && Sorted(ys)
    requires forall x <- xs, y <- ys :: Before(x, y)
    ensures Sorted(xs + ys)
  {
    var zs := xs + ys;
    forall a, b | 0 <= a < b < |zs| ensures Before(zs[a], zs[b]) {
      if b < |xs| {
        assert zs[a] == xs[a] && zs[b] == xs[b];
      } else if a >= |xs| {
        assert zs[a] == ys[a - |xs|] && zs[b] == ys[b - |xs|];
      } else {
        assert zs[a] in xs && zs[b] in ys;
      }
    }
  }

  lemma {:induction false} LinkSitesSorted(repos: seq<Repository>, needle: string, r: nat, p: nat, k: Kind, n: nat)
    requires r < |repos| && p < |repos[r].packages|
    requires n <= |LinksOf(repos[r].packages[p], k)|
    ensures Sorted(LinkSites(repos, needle, r, p, k, n))
    decreases n
  {
    if n > 0 {
      var xs := LinkSites(repos, needle, r, p, k, n - 1);
      var ys := if LinksOf(repos[r].packages[p], k)[n - 1].target == needle then [Site(r, p, k, n - 1)] else [];
      assert Sorted(xs) by { LinkSitesSorted(repos, needle, r, p, k, n - 1); }
      SortedAppend(xs, ys);
    }
  }

  lemma {:induction false} KindSitesSorted(repos: seq<Repository>, needle: string, r: nat, p: nat, t: nat)
    requires r < |repos| && p < |repos[r].packages| && t <= |Kinds|
    ensures Sorted(KindSites(repos, needle, r, p, t))
    decreases t
  {
    if t > 0 {
      var k := Kinds[t - 1];
      var n := |LinksOf(repos[r].packages[p], k)|;
      var xs, ys := KindSites(repos, needle, r, p, t - 1), LinkSites(repos, needle, r, p, k, n);
      RankOfKinds(t - 1);
      assert Sorted(xs) by { KindSitesSorted(repos, needle, r, p, t - 1); }
      assert Sorted(ys) by { LinkSitesSorted(repos, needle, r, p, k, n); }
      SortedAppend(xs, ys);
    }
  }

  /** The matches of the first p packages all come before those of package p. */
  lemma PackageBeforeNext(repos: seq<Repository>, needle: string, r: nat, p: nat)
    requires r < |repos| && p < |repos[r].packages|
    ensures forall x <- PackageSites(repos, needle, r, p), y <- KindSites(repos, needle, r, p, |Kinds|) :: Before(x, y)
  {
    forall x <- PackageSites(repos, needle, r, p), y <- KindSites(repos, needle, r, p, |Kinds|)
      ensures Before(x, y)
    {
      assert x.repo == r && x.pkg < p;
      assert y.repo == r && y.pkg == p;
    }
  }

  lemma {:induction false} PackageSitesSorted(repos: seq<Repository>, needle: string, r: nat, n: nat)
    requires r < |repos| && n <= |repos[r].packages|
    ensures Sorted(PackageSites(repos, needle, r, n))
    decreases n
  {
    if n > 0 {
      var xs, ys := PackageSites(repos, needle, r, n - 1), KindSites(repos, needle, r, n - 1, |Kinds|);
      assert Sorted(xs) by { PackageSitesSorted(repos, needle, r, n - 1); }
      assert Sorted(ys) by { KindSitesSorted(repos, needle, r, n - 1, |Kinds|); }
      assert forall x <- xs, y <- ys :: Before(x, y) by { PackageBeforeNext(repos, needle, r, n - 1); }
      SortedAppend(xs, ys);
    }
  }

  lemma {:induction false} SitesSorted(repos: seq<Repository>, needle: string, n: nat)
    requires n <= |repos|
    ensures Sorted(Sites(repos, needle, n))
    decreases n
  {
    if n > 0 {
      var xs, ys := Sites(repos, needle, n - 1), PackageSites(repos, needle, n - 1, |repos[n - 1].packages|);
      assert Sorted(xs) by { SitesSorted(repos, needle, n - 1); }
      assert Sorted(ys) by { PackageSitesSorted(repos, needle, n - 1, |repos[n - 1].packages|); }
      SortedAppend(xs, ys);
    }
  }

  // ---------------------------------------------------------------------
  // The properties of the lookup.

  /**
   * The lookup, characterised: its result has one entry per matching site,
   * the entry at position i is the reference found at the i-th matching site,
   * those sites are strictly increasing in (repository, package, kind, link),
   * and every matching site is among them.
   */
  lemma Characterization(repos: seq<Repository>, needle: string)
    ensures var ss := AllSites(repos, needle);
      var refs := References(repos, needle);
      && |refs| == |ss|
      && (forall i :: 0 <= i < |ss| ==> IsMatch(repos, needle, ss[i]) && refs[i] == RefAt(repos, ss[i]))
      && Sorted(ss)
      && (forall s :: IsMatch(repos, needle, s) ==> s in ss)
  {
    SitesComplete(repos, needle, |repos|);
    SitesSorted(repos, needle, |repos|);
  }

  /** The position in the result of the reference found at a matching site. */
  lemma PositionOf(repos: seq<Repository>, needle: string, s: Site) returns (a: nat)
    requires IsMatch(repos, needle, s)
    ensures a < |AllSites(repos, needle)| && AllSites(repos, needle)[a] == s
    ensures a < |References(repos, needle)| && References(repos, needle)[a] == RefAt(repos, s)
  {
    SitesComplete(repos, needle, |repos|);
    var ss := AllSites(repos, needle);
    a :| 0 <= a < |ss| && ss[a] == s;
  }

  /** Positions in the result follow the order of their sites. */
  lemma PositionsFollowSites(repos: seq<Repository>, needle: string, a: nat, b: nat)
    requires a < |AllSites(repos, needle)| && b < |AllSites(repos, needle)|
    requires Before(AllSites(repos, needle)[a], AllSites(repos, needle)[b])
    ensures a < b
  {
    var ss := AllSites(repos, needle);
    SitesSorted(repos, needle, |repos|);
    var x, y := ss[a], ss[b];
    assert b < a ==> Before(y, x);
  }

  /** Completeness: every link of every package whose target is the needle is reported under its kind. */
  lemma Completeness(repos: seq<Repository>, needle: string, r: nat, p: nat, k: Kind, l: nat)
    requires r < |repos| && p < |repos[r].packages|
    requires l < |LinksOf(repos[r].packages[p], k)|
    requires LinksOf(repos[r].packages[p], k)[l].target == needle
    ensures Reference(k, repos[r].packages[p], LinksOf(repos[r].packages[p], k)[l]) in References(repos, needle)
  {
    var a := PositionOf(repos, needle, Site(r, p, k, l));
  }

  /**
   * Kind fidelity: each reported link was taken from the accessor of the
   * reported kind, on a package of one of the repositories.
   */
  lemma KindFidelity(repos: seq<Repository>, needle: string)
    ensures forall x <- References(repos, needle) ::
      && x.link in LinksOf(x.package, x.kind)
      && exists r :: 0 <= r < |repos| && x.package in repos[r].packages
  {
    var ss := AllSites(repos, needle);
    var refs := References(repos, needle);
    forall x <- refs
      ensures x.link in LinksOf(x.package, x.kind)
      ensures exists r :: 0 <= r < |repos| && x.package in repos[r].packages
    {
      var i :| 0 <= i < |refs| && refs[i] == x;
      var s := ss[i];
      assert IsSite(repos, s);
      assert x.package == repos[s.repo].packages[s.pkg];
    }
  }

  /** A reference drawn from the first repository (the local one) precedes every reference drawn from a later one. */
  lemma LocalFirst(local: Repository, configured: seq<Repository>, needle: string)
    ensures var repos := [local] + configured;
      var ss := AllSites(repos, needle);
      var refs := References(repos, needle);
      && (forall a :: 0 <= a < |ss| && ss[a].repo == 0 ==> refs[a].package in local.packages)
      && (forall a, b :: 0 <= a < |ss| && 0 <= b < |ss| && ss[a].repo == 0 && ss[b].repo > 0 ==> a < b)
  {
    var repos := [local] + configured;
    var ss := AllSites(repos, needle);
    SitesSorted(repos, needle, |repos|);
    forall a, b | 0 <= a < |ss| && 0 <= b < |ss| && ss[a].repo == 0 && ss[b].repo > 0 ensures a < b {
      assert b < a ==> Before(ss[b], ss[a]);
    }
  }

  // ---------------------------------------------------------------------
  // No deduplication.

  ghost function SetOf(ss: seq<Site>): set<Site>
  {
    set s | s in ss
  }

  lemma {:induction false} DistinctCardinality(ss: seq<Site>)
    requires forall a, b :: 0 <= a < b < |ss| ==> ss[a] != ss[b]
    ensures |SetOf(ss)| == |ss|
    decreases |ss|
  {
    if ss != [] {
      var init := ss[..|ss| - 1];
      var last := ss[|ss| - 1];
      DistinctCardinality(init);
      assert ss == init + [last];
      assert SetOf(ss) == SetOf(init) + {last};
      forall a | 0 <= a < |init| ensures init[a] != last {
        assert init[a] == ss[a];
      }
      assert last !in SetOf(init);
    }
  }

  /** Every link occurrence, in any repository, whose target is the needle. */
  ghost function MatchingSites(repos: seq<Repository>, needle: string): set<Site>
  {
    set r: nat, p: nat, k: Kind, l: nat
      | r < |repos| && p < |repos[r].packages| && k in Kinds
        && l < |LinksOf(repos[r].packages[p], k)|
        && LinksOf(repos[r].packages[p], k)[l].target == needle
      :: Site(r, p, k, l)
  }

  /** No deduplication: there are exactly as many references as matching link occurrences. */
  lemma ReferenceCount(repos: seq<Repository>, needle: string)
    ensures |References(repos, needle)| == |MatchingSites(repos, needle)|
  {
    var ss := AllSites(repos, needle);
    Characterization(repos, needle);
    forall a, b | 0 <= a < b < |ss| ensures ss[a] != ss[b] {
      assert Before(ss[a], ss[b]);
    }
    DistinctCardinality(ss);
    forall s | s in MatchingSites(repos, needle) ensures s in SetOf(ss) {
      assert IsMatch(repos, needle, s);
    }
    forall s | s in SetOf(ss) ensures s in MatchingSites(repos, needle) {
      assert IsMatch(repos, needle, s);
      assert s.kind in Kinds;
    }
    assert SetOf(ss) == MatchingSites(repos, needle);
  }

  /**
   * No deduplication across repositories: the same package, held by two
   * different repositories, contributes one reference per repository.
   */
  lemma SamePackageTwoRepositories(repos: seq<Repository>, needle: string, r1: nat, p1: nat, r2: nat, p2: nat, k: Kind, l: nat)
    requires r1 < r2 < |repos|
    requires p1 < |repos[r1].packages| && p2 < |repos[r2].packages|
    requires repos[r1].packages[p1] == repos[r2].packages[p2]
    requires l < |LinksOf(repos[r1].packages[p1], k)|
    requires LinksOf(repos[r1].packages[p1], k)[l].target == needle
    ensures var refs := References(repos, needle);
      var x := Reference(k, repos[r1].packages[p1], LinksOf(repos[r1].packages[p1], k)[l]);
      exists a, b :: 0 <= a < b < |refs| && refs[a] == x && refs[b] == x
  {
    var a := PositionOf(repos, needle, Site(r1, p1, k, l));
    var b := PositionOf(repos, needle, Site(r2, p2, k, l));
    PositionsFollowSites(repos, needle, a, b);
  }

  /**
   * No deduplication across kinds: a package declaring the needle under two
   * kinds is reported twice, the earlier kind of Kinds first.
   */
  lemma SameTargetTwoKinds(repos: seq<Repository>, needle: string, r: nat, p: nat, k1: Kind, l1: nat, k2: Kind, l2: nat)
    requires r < |repos| && p < |repos[r].packages|
    requires Rank(k1) < Rank(k2)
    requires l1 < |LinksOf(repos[r].packages[p], k1)| && LinksOf(repos[r].packages[p], k1)[l1].target == needle
    requires l2 < |LinksOf(repos[r].packages[p], k2)| && LinksOf(repos[r].packages[p], k2)[l2].target == needle
    ensures var refs := References(repos, needle);
      var pkg := repos[r].packages[p];
      exists a, b :: 0 <= a < b < |refs|
        && refs[a] == Reference(k1, pkg, LinksOf(pkg, k1)[l1])
        && refs[b] == Reference(k2, pkg, LinksOf(pkg, k2)[l2])
  {
    var a := PositionOf(repos, needle, Site(r, p, k1, l1));
    var b := PositionOf(repos, needle, Site(r, p, k2, l2));
    PositionsFollowSites(repos, needle, a, b);
  }

  // ---------------------------------------------------------------------
  // Empty cases: no error, just no references.

  /** A needle that no link targets gives no references; so do an empty list and packageless repositories. */
  lemma NothingMatches(repos: seq<Repository>, needle: string)
    requires forall r, p, k, l :: 0 <= r < |repos| && 0 <= p < |repos[r].packages| && 0 <= l < |LinksOf(repos[r].packages[p], k)|
               ==> LinksOf(repos[r].packages[p], k)[l].target != needle
    ensures References(repos, needle) == []
  {
    var ss := AllSites(repos, needle);
    assert ss != [] ==> IsMatch(repos, needle, ss[0]);
  }

  lemma NoPackages(repos: seq<Repository>, needle: string)
    requires forall r :: 0 <= r < |repos| ==> repos[r].packages == []
    ensures References(repos, needle) == []
  {
    NothingMatches(repos, needle);
  }
}
