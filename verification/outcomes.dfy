/**
  The reply catalog: one constructor per response template a handler can
  produce, carrying the values the template interpolates. The exact wording
  of the templates is not modelled.
*/
module Outcomes {
  import opened Text
  import opened Models

  /** How a requester's matches are addressed: "gentlemen" for a female
      requester, "ladies" otherwise. */
  datatype GenderTerm = Gentlemen | Ladies

  datatype Pronoun = Himself | Herself

  function TermFor(requester: Gender): GenderTerm {
    if requester == Female then Gentlemen else Ladies
  }

  function PronounFor(g: Gender): Pronoun {
    if g == Male then Himself else Herself
  }

  /** One match line: "{name} aged {age}, {phone}." */
  datatype Card = Card(name: string, age: int, phone: string)

  function CardOf(u: User): Card {
    Card(u.name, u.age, u.phone)
  }

  /** The "send NEXT to receive the remaining ..." line. */
  datatype Prompt = Prompt(remaining: int, term: GenderTerm)

  /** The five detail columns as the profile reply prints them. */
  datatype DetailLine = DetailLine(
    education: string,
    profession: string,
    marital: string,
    religion: string,
    ethnicity: string)

  datatype Outcome =
    // start#
    | Registered(name: string)
    | RegistrationInvalidFormat
    | RegistrationInvalidAgeFormat
    | RegistrationInvalidAge
    | RegistrationInvalidGender
    | AlreadyRegistered(name: string)
    // details#
    | DetailsPrompt
    | DetailsInvalidFormat
    | DetailsInvalidMarital
    // myself
    | SelfDescriptionSaved
    | SelfDescriptionTooShort
    // match#
    | MatchFound(count: nat, term: GenderTerm, page: seq<Card>, prompt: Option<Prompt>)
    | MatchNoResults(town: string)
    | MatchInvalidFormat
    | MatchInvalidAgeFormat
    | MatchFailed
    // next
    | NextPage(cards: seq<Card>, more: Option<Prompt>)
    | NextNoActiveRequest
    | NextNoMoreMatches
    | NextFailed
    // ten-digit phone number
    | ProfileShown(targetName: string, targetAge: int, county: string, town: string,
                   extras: Option<DetailLine>, phone: string)
    | ProfileNotFound
    // describe
    | DescribeInvalidFormat
    | DescribeNotFound
    | DescribeNoDescription(who: string)
    | Described(subject: string, pronoun: Pronoun, description: string)
}
