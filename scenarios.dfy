// Worked examples of the lookup.

module Scenarios {
  import opened Packages
  import opened Lookup

  const lib := "vendor/lib"
  const app := Package("vendor/app", "1.0.0", [Link(lib, "^1.0")], [], [])
  const tool := Package("vendor/tool", "2.1.0", [], [], [Link(lib, "*")])
  const other := Package("vendor/other", "0.1.0", [Link("vendor/lib-dev", "*")], [], [])
  const both := Package("vendor/app", "1.0.0", [Link(lib, "^1.0")], [Link(lib, "^2.0")], [])

  /** One repository, one package requiring the needle: one reference. */
  lemma SingleRequire()
    ensures References([Repository([app])], lib) == [Reference(Requires, app, Link(lib, "^1.0"))]
  {
    var repos := [Repository([app])];
    var ss := [Site(0, 0, Requires, 0)];
    assert LinkSites(repos, lib, 0, 0, Requires, 1) == ss;
    assert KindSites(repos, lib, 0, 0, 1) == ss;
    assert KindSites(repos, lib, 0, 0, 3) == ss;
    assert AllSites(repos, lib) == ss;
  }

  /** A first repository without matches (a longer name is not a match) contributes nothing; the suggestion in the second is reported. */
  lemma SuggestionInSecondRepository()
    ensures References([Repository([other]), Repository([tool])], lib) == [Reference(Suggests, tool, Link(lib, "*"))]
  {
    var repos := [Repository([other]), Repository([tool])];
    var ss := [Site(1, 0, Suggests, 0)];
    assert "vendor/lib-dev" != lib by {
      assert |"vendor/lib-dev"| != |lib|;
    }
    assert LinkSites(repos, lib, 0, 0, Requires, 1) == [];
    assert KindSites(repos, lib, 0, 0, 3) == [];
    assert Sites(repos, lib, 1) == [];
    assert LinkSites(repos, lib, 1, 0, Suggests, 1) == ss;
    assert KindSites(repos, lib, 1, 0, 3) == ss;
    assert AllSites(repos, lib) == ss;
  }

  /** One package declaring the needle under two kinds: two references, the requirement first. */
  lemma RequireAndRecommend()
    ensures References([Repository([both])], lib)
         == [Reference(Requires, both, Link(lib, "^1.0")), Reference(Recommends, both, Link(lib, "^2.0"))]
  {
    var repos := [Repository([both])];
    var ss := [Site(0, 0, Requires, 0), Site(0, 0, Recommends, 0)];
    assert LinkSites(repos, lib, 0, 0, Requires, 1) == [Site(0, 0, Requires, 0)];
    assert LinkSites(repos, lib, 0, 0, Recommends, 1) == [Site(0, 0, Recommends, 0)];
    assert KindSites(repos, lib, 0, 0, 1) == [Site(0, 0, Requires, 0)];
    assert KindSites(repos, lib, 0, 0, 2) == ss;
    assert KindSites(repos, lib, 0, 0, 3) == ss;
    assert AllSites(repos, lib) == ss;
  }
}
