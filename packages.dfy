// The package metadata the depends command reads: repositories of packages,
// each package carrying three ordered lists of outgoing links, one per
// relationship kind. These are read-only values to the command.

module Packages {

  /** The three relationship kinds a package may declare a link under. */
  datatype Kind = Requires | Recommends | Suggests

  /** The kinds in the fixed order the command visits them. */
  const Kinds: seq<Kind> := [Requires, Recommends, Suggests]

  /** Position of a kind in Kinds: the inverse of indexing Kinds. */
  function Rank(k: Kind): (i: nat)
    ensures i < |Kinds| && Kinds[i] == k
  {
    match k
    case Requires => 0
    case Recommends => 1
    case Suggests => 2
  }

  lemma RankOfKinds(i: nat)
    requires i < |Kinds|
    ensures Rank(Kinds[i]) == i
  {
  }

  /** The tag the command prints for a kind. */
  function KindName(k: Kind): string
  {
    match k
    case Requires => "requires"
    case Recommends => "recommends"
    case Suggests => "suggests"
  }

  /** A declared dependency edge: the target identifier and the display form of its constraint. */
  datatype Link = Link(target: string, prettyConstraint: string)

  /** A package; `requires` is a Dafny keyword, hence the field names of the three link lists. */
  datatype Package = Package(
    prettyName: string,
    prettyVersion: string,
    requireLinks: seq<Link>,
    recommendLinks: seq<Link>,
    suggestLinks: seq<Link>)

  datatype Repository = Repository(packages: seq<Package>)

  /** The accessor for kind k: getRequires, getRecommends or getSuggests. */
  function LinksOf(p: Package, k: Kind): seq<Link>
  {
    match k
    case Requires => p.requireLinks
    case Recommends => p.recommendLinks
    case Suggests => p.suggestLinks
  }
}
