/**
  The records of the matchmaking store and their column-level rules:
  users keyed by phone number, the optional per-user detail row, match
  requests with their pagination cursor, the positioned match rows and the
  notification messages. Enumerated columns are datatypes, so a value outside
  the enumeration cannot be stored.
*/
module Models {
  import opened Text

  datatype Gender = Male | Female

  /** The `registration_stage` enumeration. */
  datatype Level = Basic | Details | Completed

  datatype Marital = Single | Married | Divorced

  function GenderName(g: Gender): string {
    match g
    case Male => "male"
    case Female => "female"
  }

  function MaritalName(m: Marital): string {
    match m
    case Single => "single"
    case Married => "married"
    case Divorced => "divorced"
  }

  /** Membership test of the registration handler: exactly "male" or
      "female" after lower-casing. */
  function ParseGender(s: string): (g: Option<Gender>)
    ensures g.None? <==> Lower(s) != "male" && Lower(s) != "female"
    ensures g.Some? ==> GenderName(g.value) == Lower(s)
  {
    var t := Lower(s);
    if t == "male" then Some(Male)
    else if t == "female" then Some(Female)
    else None
  }

  /** Membership test of the details handler: one of "single", "married",
      "divorced" after lower-casing. */
  function ParseMarital(s: string): (m: Option<Marital>)
    ensures m.None? <==> Lower(s) !in {"single", "married", "divorced"}
    ensures m.Some? ==> MaritalName(m.value) == Lower(s)
  {
    var t := Lower(s);
    if t == "single" then Some(Single)
    else if t == "married" then Some(Married)
    else if t == "divorced" then Some(Divorced)
    else None
  }

  /** Every enumeration value survives a round trip through its stored name. */
  lemma EnumNamesRoundTrip(g: Gender, m: Marital)
    ensures ParseGender(GenderName(g)) == Some(g)
    ensures ParseMarital(MaritalName(m)) == Some(m)
  {
    assert Lower(GenderName(g)) == GenderName(g);
    assert Lower(MaritalName(m)) == MaritalName(m);
  }

  /** A `users` row; `phone` is the unique natural key. */
  datatype User = User(
    id: nat,
    name: string,
    phone: string,
    age: int,
    gender: Gender,
    county: string,
    town: string,
    level: Level)

  /** A `user_details` row, keyed in the store by its user id (the column is
      unique, so there is at most one per user). Every column is nullable. */
  datatype UserDetail = UserDetail(
    education: Option<string>,
    profession: Option<string>,
    marital: Option<Marital>,
    religion: Option<string>,
    ethnicity: Option<string>,
    selfDescription: Option<string>)

  const EmptyDetail := UserDetail(None, None, None, None, None, None)

  /** Shortest self-description accepted. */
  const MinDescriptionLength := 10

  /** Default page size of a match request. */
  const MatchesPerPage := 3

  /** A `match_requests` row: the search criteria and the pagination cursor. */
  datatype MatchRequest = MatchRequest(
    id: nat,
    userId: nat,
    ageStart: int,
    ageEnd: int,
    town: string,
    total: int,
    offset: int,
    perPage: int,
    active: bool)

  /** A `profile_match` row: one matched user at a fixed position. */
  datatype ProfileMatch = ProfileMatch(
    requestId: nat,
    matchedUserId: nat,
    sent: bool,
    position: int)

  /** A `messages` row; its text content is not modelled. */
  datatype Message = Message(
    senderId: nat,
    recipientId: nat,
    phone: string)

  /** A freshly constructed match request: the caller's columns plus the
      column defaults total 0, offset 0, page size 3 and active. */
  function NewMatchRequest(id: nat, userId: nat, ageStart: int, ageEnd: int, town: string): (r: MatchRequest)
    ensures r.id == id && r.userId == userId && r.town == town
    ensures r.ageStart == ageStart && r.ageEnd == ageEnd
    ensures r.total == 0 && r.offset == 0 && r.perPage == 3 && r.active
  {
    MatchRequest(id, userId, ageStart, ageEnd, town, 0, 0, MatchesPerPage, true)
  }

  /** `has_more_matches`: the cursor has not reached the match count. */
  predicate HasMoreMatches(r: MatchRequest) {
    r.offset < r.total
  }

  /** `advance_pagination`: move the cursor on by one page size, whether or
      not a full page was left, and change nothing else. */
  function AdvancePagination(r: MatchRequest): (r': MatchRequest)
    ensures r'.offset - r.offset == r.perPage
    ensures r'.(offset := r.offset) == r
  {
    r.(offset := r.offset + r.perPage)
  }
}
