/** The eight principal ranks of a Kraken translation and the string
    prefixes that identify a taxon token of each rank. */
module Ranks {

  datatype Rank = Domain | Phylum | Class | Order | Family | Genus | Species | Subspecies

  /** The Kraken separator between the rank label and the taxon name. */
  const Separator: string := "__"

  /** The rank label constants of the Sample class. */
  function Label(r: Rank): string
  {
    match r
    case Domain => "d"
    case Phylum => "p"
    case Class => "c"
    case Order => "o"
    case Family => "f"
    case Genus => "g"
    case Species => "s"
    case Subspecies => "s1"
  }

  function Prefix(r: Rank): string
  {
    Label(r) + Separator
  }

  /** The token begins with the rank's label followed by the separator. */
  predicate Matches(token: string, r: Rank)
  {
    Prefix(r) <= token
  }

  /** A token carries the prefix of at most one rank; in particular no token
      is both a species ("s__") and a subspecies ("s1__") token. */
  lemma AtMostOneRank(token: string, a: Rank, b: Rank)
    requires Matches(token, a) && Matches(token, b)
    ensures a == b
  {
    assert token[0] == Prefix(a)[0] == Prefix(b)[0];
    assert token[1] == Prefix(a)[1] == Prefix(b)[1];
  }
}
