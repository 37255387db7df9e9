// The depends command: the collector that scans the repositories for links
// to a package (getReferences) and the reporter that renders each reference
// as one line (printReferences).

module DependsCommand {
  import opened Packages
  import opened Lookup

  /**
   * The references to needle, scanning the local repository first and then
   * the configured ones: for every package, for every kind in the order of
   * Kinds, every link whose target is exactly needle.
   */
  method GetReferences(needle: string, local: Repository, configured: seq<Repository>) returns (refs: seq<Reference>)
    ensures refs == References([local] + configured, needle)
  {
    var repos := [local] + configured;
    refs := [];
    var i := 0;
    while i < |repos|
      invariant i <= |repos|
      invariant refs == RefsAt(repos, Sites(repos, needle, i))
    {
      SitesStep(repos, needle, i);
      refs := ScanRepository(repos, needle, i, refs);
      i := i + 1;
    }
  }

  /** The loop over the packages of repository i, appending to acc. */
  method ScanRepository(repos: seq<Repository>, needle: string, i: nat, acc: seq<Reference>) returns (refs: seq<Reference>)
    requires i < |repos|
    ensures refs == acc + RefsAt(repos, PackageSites(repos, needle, i, |repos[i].packages|))
  {
    var packages := repos[i].packages;
    refs := acc;
    var j := 0;
    while j < |packages|
      invariant j <= |packages|
      invariant refs == acc + RefsAt(repos, PackageSites(repos, needle, i, j))
    {
      PackageSitesStep(repos, needle, i, j);
      refs := ScanPackage(repos, needle, i, j, refs);
      j := j + 1;
    }
  }

  /** The loop over the three kinds of package j of repository i, appending to acc. */
  method ScanPackage(repos: seq<Repository>, needle: string, i: nat, j: nat, acc: seq<Reference>) returns (refs: seq<Reference>)
    requires i < |repos| && j < |repos[i].packages|
    ensures refs == acc + RefsAt(repos, KindSites(repos, needle, i, j, |Kinds|))
  {
    refs := acc;
    var t := 0;
    while t < |Kinds|
      invariant t <= |Kinds|
      invariant refs == acc + RefsAt(repos, KindSites(repos, needle, i, j, t))
    {
      var kind := Kinds[t];
      KindSitesStep(repos, needle, i, j, t);
      refs := ScanLinks(repos, needle, i, j, kind, refs);
      t := t + 1;
    }
  }

  /** The loop over the links of one kind of package j of repository i, appending each match to acc. */
  method ScanLinks(repos: seq<Repository>, needle: string, i: nat, j: nat, kind: Kind, acc: seq<Reference>)
    returns (refs: seq<Reference>)
    requires i < |repos| && j < |repos[i].packages|
    ensures refs == acc + RefsAt(repos, LinkSites(repos, needle, i, j, kind, |LinksOf(repos[i].packages[j], kind)|))
  {
    var package := repos[i].packages[j];
    var links := LinksOf(package, kind);
    refs := acc;
    var l := 0;
    while l < |links|
      invariant l <= |links|
      invariant refs == acc + RefsAt(repos, LinkSites(repos, needle, i, j, kind, l))
    {
      LinkSitesStep(repos, needle, i, j, kind, l);
      if links[l].target == needle {
        refs := refs + [Reference(kind, package, links[l])];
      }
      l := l + 1;
    }
  }

  /** The line printed for one reference; the kind is wrapped in literal console style tags. */
  function Line(x: Reference): string
  {
    x.package.prettyName + " " + x.package.prettyVersion + " <info>" + KindName(x.kind) + "</info> " + x.link.prettyConstraint
  }

  /** One line per reference, in the order of the references; no references, no lines. */
  method PrintReferences(refs: seq<Reference>) returns (lines: seq<string>)
    ensures |lines| == |refs|
    ensures forall i :: 0 <= i < |refs| ==> lines[i] == Line(refs[i])
  {
    lines := [];
    for i := 0 to |refs|
      invariant |lines| == i
      invariant forall x :: 0 <= x < i ==> lines[x] == Line(refs[x])
    {
      lines := lines + [Line(refs[i])];
    }
  }

  /** The whole command: collect the references to needle, then render them. */
  method Execute(needle: string, local: Repository, configured: seq<Repository>) returns (lines: seq<string>)
    ensures var refs := References([local] + configured, needle);
      |lines| == |refs| && forall i :: 0 <= i < |refs| ==> lines[i] == Line(refs[i])
  {
    var refs := GetReferences(needle, local, configured);
    lines := PrintReferences(refs);
  }
}
