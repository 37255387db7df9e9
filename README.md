# Composer `depends`: reverse-dependency lookup

This project models the core of Composer's `depends` command ("Where is a package used?").
Given a package name (the needle) and the repositories, the command finds every link that
targets the needle. The repositories are the local repository first, then every configured one.
Links are declared under the kinds `requires`, `recommends` and `suggests`. For each such link
the command prints one line: the referencing package's pretty name and pretty version, the kind
wrapped in `<info>` tags, and the link's pretty constraint.

The model has four modules:

- `Packages` (`packages.dfy`): the metadata the command reads, as values. It holds `Kind` and
  `Kinds` (the three kinds in visiting order) and `Link(target, prettyConstraint)`. It holds
  `Package`, whose three link lists are the fields `requireLinks`, `recommendLinks` and
  `suggestLinks`, because `requires` is a Dafny keyword. It holds `Repository(packages)`.
  The accessor that the source builds from a string (`'get'.$type`) is the total function
  `LinksOf(p, k)`.
- `Lookup` (`lookup.dfy`): the specification. A `Site(repo, pkg, kind, link)` gives the
  coordinates of one link occurrence. `LinkSites`, `KindSites`, `PackageSites` and `Sites` list
  the matching sites, one function per loop of the collector. Each is defined on a prefix of its
  loop's range. `References(repos, needle)` is the reference found at each matching site, in
  visiting order. The lemmas prove soundness, completeness, kind fidelity, the output order, the
  absence of deduplication and the empty cases.
- `DependsCommand` (`depends_command.dfy`): the collector `GetReferences` as nested loops, proved
  equal to `References`. It also holds the reporter `PrintReferences` and `Execute`, which
  chains the two.
- `Scenarios` (`scenarios.dfy`): worked examples.

`GetReferences` keeps the source's four nested loops, over repositories, packages, kinds and
links. Each inner loop is a method of its own (`ScanRepository`, `ScanPackage`, `ScanLinks`).
The methods thread the growing result through the calls, so each match is still appended at
the end of the single result sequence, in the order the source appends it.

## Model

| member | source | states |
|---|---|---|
| `Packages.Rank` | src/Composer/Command/DependsCommand.php:74 | A kind's rank is its position in the fixed visiting order requires, recommends, suggests. |
| `DependsCommand.GetReferences` | src/Composer/Command/DependsCommand.php:61-85 | Builds the repository list as the local repository followed by the configured ones. The result is exactly `References` of that list: the reference at every matching site, in visiting order. |
| `DependsCommand.ScanRepository` | src/Composer/Command/DependsCommand.php:73-81 | The package loop of one repository appends exactly the references of that repository's packages, in package order, after what was already collected. |
| `DependsCommand.ScanPackage` | src/Composer/Command/DependsCommand.php:74-80 | The kind loop of one package appends its matches for requires, then recommends, then suggests, after what was already collected. |
| `DependsCommand.ScanLinks` | src/Composer/Command/DependsCommand.php:75-79 | The link loop of one kind appends `(kind, package, link)` for each link whose target equals the needle, in link order, and nothing else. |
| `DependsCommand.PrintReferences` | src/Composer/Command/DependsCommand.php:87-92 | Gives exactly one line per reference, in the same order, so an empty input gives no lines. Line i is `Line(refs[i])`, which is `prettyName + " " + prettyVersion + " <info>" + kind + "</info> " + prettyConstraint`. |
| `DependsCommand.Execute` | src/Composer/Command/DependsCommand.php:44-50 | Its output is one line per reference of `References([local] + configured, needle)`, in order. |
| `Lookup.References` | src/Composer/Command/DependsCommand.php:76-77 | Soundness: every reference's link target equals the needle exactly, with no prefix, case or version matching. |
| `Lookup.LinkSites` | src/Composer/Command/DependsCommand.php:75-79 | Every listed site of one link list is a matching link of that kind, package and repository. |
| `Lookup.KindSites` | src/Composer/Command/DependsCommand.php:74-80 | Every listed site of one package is a matching link of that package, under one of the kinds visited so far. |
| `Lookup.PackageSites` | src/Composer/Command/DependsCommand.php:73-81 | Every listed site of one repository is a matching link of one of the packages visited so far. |
| `Lookup.Sites` | src/Composer/Command/DependsCommand.php:72-82 | Every listed site is a matching link in one of the repositories visited so far. |
| `Lookup.LinkSitesComplete` | src/Composer/Command/DependsCommand.php:75-79 | Every matching link among the visited links of one kind is listed. |
| `Lookup.KindSitesComplete` | src/Composer/Command/DependsCommand.php:74-80 | Every matching link of a package under a visited kind is listed. |
| `Lookup.PackageSitesComplete` | src/Composer/Command/DependsCommand.php:73-81 | Every matching link of a visited package is listed. |
| `Lookup.SitesComplete` | src/Composer/Command/DependsCommand.php:72-82 | Every matching link of a visited repository is listed. |
| `Lookup.LinkSitesSorted` | src/Composer/Command/DependsCommand.php:75 | The matches of one link list come in increasing link index. |
| `Lookup.KindSitesSorted` | src/Composer/Command/DependsCommand.php:74-75 | A package's matches come in kind order, then in link order. |
| `Lookup.PackageSitesSorted` | src/Composer/Command/DependsCommand.php:73-75 | A repository's matches come in package order, then kind order, then link order. |
| `Lookup.SitesSorted` | src/Composer/Command/DependsCommand.php:72-75 | All matches are strictly increasing in (repository, package, kind, link). |
| `Lookup.Characterization` | src/Composer/Command/DependsCommand.php:72-84 | The result has one entry per matching site. Entry i is the reference at the i-th site. The sites are strictly increasing lexicographically. Every matching site is among them. |
| `Lookup.PositionOf` | src/Composer/Command/DependsCommand.php:76-77 | A matching site has a position in the result, and the reference there is the one found at that site. |
| `Lookup.PositionsFollowSites` | src/Composer/Command/DependsCommand.php:72-75 | Result positions are ordered as their sites are ordered. |
| `Lookup.Completeness` | src/Composer/Command/DependsCommand.php:72-79 | For any repository, package, kind and link of that kind whose target equals the needle, `(kind, package, link)` is in the result. |
| `Lookup.KindFidelity` | src/Composer/Command/DependsCommand.php:74-77 | A reported link lies in the list of the reported kind on the reported package, and that package belongs to one of the repositories. |
| `Lookup.LocalFirst` | src/Composer/Command/DependsCommand.php:68-72 | With the local repository placed first, every reference found there comes from a local package and precedes every reference from a configured repository. |
| `Lookup.ReferenceCount` | src/Composer/Command/DependsCommand.php:72-79 | No deduplication: the number of references equals the number of matching link occurrences. |
| `Lookup.SamePackageTwoRepositories` | src/Composer/Command/DependsCommand.php:72-79 | A package held by two repositories yields the same reference twice, at two positions. |
| `Lookup.SameTargetTwoKinds` | src/Composer/Command/DependsCommand.php:74-79 | A package declaring the needle under two kinds yields two references. The one of the earlier kind comes first. |
| `Lookup.NothingMatches` | src/Composer/Command/DependsCommand.php:65 | If no link targets the needle, the result is empty and there is no error. |
| `Lookup.NoPackages` | src/Composer/Command/DependsCommand.php:65 | An empty repository list, or repositories without packages, give an empty result. |
| `Scenarios.SingleRequire` | src/Composer/Command/DependsCommand.php:72-79 | One package requiring `vendor/lib` gives exactly one `requires` reference. |
| `Scenarios.SuggestionInSecondRepository` | src/Composer/Command/DependsCommand.php:72-79 | A repository whose only link targets `vendor/lib-dev` contributes nothing to a lookup of `vendor/lib`. A suggestion in the second repository is reported. |
| `Scenarios.RequireAndRecommend` | src/Composer/Command/DependsCommand.php:74-79 | `vendor/lib` declared under both `requires` and `recommends` gives two references, with `requires` first. |

## Left out

- `configure()` (command name, argument definition and help text) is console-framework wiring with no logic.
- `getComposer()` in `execute()` is the application-context lookup. The local repository and the configured repositories are parameters instead.
- How the repository manager builds or loads the local and configured repositories is I/O outside this model. Only their order, local first, is modelled.
- Reading the `package` argument and writing with `writeln` are console I/O. The needle is a parameter, and the printed lines are returned as a sequence of strings. The `<info>` style tags are literal text in each line.
- Version constraints are never interpreted. The pretty constraint is an opaque display string.
- Exceptions thrown by repositories or packages while they are enumerated are not modelled. Enumeration is total here.
- Repository enumeration order is taken as the order of the `packages` sequence.
