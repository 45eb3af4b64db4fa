/**
  The command handlers of the SMS processor. Each takes the store (and, for
  commands of a registered user, that user's row) and the normalised text,
  and returns the new store together with the reply.
*/
module Handlers {
  import opened Text
  import opened Models
  import opened Pagination
  import opened Storage
  import opened Outcomes

  /** A handler's effect: the store after the command and the reply. */
  datatype Step = Step(store: Store, outcome: Outcome)

  /** The fields of a command, or the reply that rejects it. */
  datatype Parsed<+T> = Parsed(value: T) | Rejected(outcome: Outcome)

  const MinAge := 18
  const MaxAge := 80

  /** Python `s[n:]`: empty when `s` is shorter than `n`. */
  function DropPrefix(s: string, n: nat): (r: string)
    ensures |s| <= n ==> r == ""
    ensures |s| > n ==> s == s[..n] + r
  {
    if |s| <= n then "" else s[n..]
  }

  // ------------------------------------------------------------------ start#

  datatype Registration = Registration(
    name: string, age: int, gender: Gender, county: string, town: string)

  /** `start#name#age#gender#county#town`, checked in the handler's order:
      field count, integer age, age range, gender. */
  function ParseRegistration(m: string): (r: Parsed<Registration>)
    ensures var parts := Split(m, '#');
      && (r == Rejected(RegistrationInvalidFormat) <==> |parts| != 6)
      && (r == Rejected(RegistrationInvalidAgeFormat) <==>
            |parts| == 6 && ParseInt(parts[2]).None?)
      && (r == Rejected(RegistrationInvalidAge) <==>
            |parts| == 6 && ParseInt(parts[2]).Some?
            && !(MinAge <= ParseInt(parts[2]).value <= MaxAge))
      && (r == Rejected(RegistrationInvalidGender) <==>
            |parts| == 6 && ParseInt(parts[2]).Some?
            && MinAge <= ParseInt(parts[2]).value <= MaxAge && ParseGender(parts[3]).None?)
      && (r.Parsed? <==>
            |parts| == 6 && ParseInt(parts[2]).Some?
            && MinAge <= ParseInt(parts[2]).value <= MaxAge && ParseGender(parts[3]).Some?)
      && (r.Parsed? ==>
            |parts| == 6 && MinAge <= r.value.age <= MaxAge
            && ParseInt(parts[2]) == Some(r.value.age)
            && GenderName(r.value.gender) == Lower(parts[3])
            && r.value.name == parts[1] && r.value.county == parts[4] && r.value.town == parts[5])
  {
    var parts := Split(m, '#');
    if |parts| != 6 then Rejected(RegistrationInvalidFormat)
    else match ParseInt(parts[2])
      case None => Rejected(RegistrationInvalidAgeFormat)
      case Some(age) =>
        if age < MinAge || age > MaxAge then Rejected(RegistrationInvalidAge)
        else match ParseGender(parts[3])
          case None => Rejected(RegistrationInvalidGender)
          case Some(g) => Parsed(Registration(parts[1], age, g, parts[4], parts[5]))
  }

  /** `handle_registration`: validate, refuse an already registered phone
      without touching the store, otherwise add exactly one `basic` user. */
  function Register(s: Store, phone: string, m: string): (r: Step)
    ensures ParseRegistration(m).Rejected? ==> r == Step(s, ParseRegistration(m).outcome)
    ensures ParseRegistration(m).Parsed? && PhoneTaken(s.users, phone) ==>
      && r.store == s
      && exists i :: 0 <= i < |s.users| && s.users[i].phone == phone
                     && r.outcome == AlreadyRegistered(s.users[i].name)
    ensures r.outcome.Registered? <==> ParseRegistration(m).Parsed? && !PhoneTaken(s.users, phone)
    ensures !r.outcome.Registered? ==> r.store == s
    ensures r.outcome.Registered? ==>
      var reg := ParseRegistration(m).value;
      && |r.store.users| == |s.users| + 1
      && r.store == s.(users := s.users + [r.store.users[|s.users|]])
      && r.store.users[|s.users|] == User(|s.users| + 1, Title(reg.name), phone, reg.age,
                                         reg.gender, Title(reg.county), Title(reg.town), Basic)
      && r.outcome == Registered(Title(reg.name))
  {
    match ParseRegistration(m)
    case Rejected(o) => Step(s, o)
    case Parsed(reg) =>
      match FindUserByPhone(s.users, phone)
      case Some(existing) => Step(s, AlreadyRegistered(existing.name))
      case None =>
        var u := User(|s.users| + 1, Title(reg.name), phone, reg.age, reg.gender,
                      Title(reg.county), Title(reg.town), Basic);
        Step(s.(users := s.users + [u]), Registered(u.name))
  }

  // ------------------------------------------------------- stage bookkeeping

  /** Set the registration level of the user with id `id`; nothing else
      about any user changes. */
  function SetLevel(users: seq<User>, id: nat, level: Level): (r: seq<User>)
    ensures |r| == |users|
    ensures forall i :: 0 <= i < |users| ==> r[i].(level := users[i].level) == users[i]
    ensures forall i :: 0 <= i < |users| ==>
              r[i].level == (if users[i].id == id then level else users[i].level)
  {
    seq(|users|, i requires 0 <= i < |users| =>
      if users[i].id == id then users[i].(level := level) else users[i])
  }

  /** The user's detail row, or a fresh all-null one. */
  function DetailOf(s: Store, id: nat): UserDetail {
    if id in s.details then s.details[id] else EmptyDetail
  }

  // ---------------------------------------------------------------- details#

  datatype DetailsForm = DetailsForm(
    education: string, profession: string, marital: Marital, religion: string, ethnicity: string)

  /** `details#education#profession#marital#religion#ethnicity`. */
  function ParseDetails(m: string): (r: Parsed<DetailsForm>)
    ensures var parts := Split(m, '#');
      && (r == Rejected(DetailsInvalidFormat) <==> |parts| != 6)
      && (r == Rejected(DetailsInvalidMarital) <==> |parts| == 6 && ParseMarital(parts[3]).None?)
      && (r.Parsed? <==> |parts| == 6 && ParseMarital(parts[3]).Some?)
      && (r.Parsed? ==>
            |parts| == 6 && MaritalName(r.value.marital) == Lower(parts[3])
            && r.value.education == parts[1] && r.value.profession == parts[2]
            && r.value.religion == parts[4] && r.value.ethnicity == parts[5])
  {
    var parts := Split(m, '#');
    if |parts| != 6 then Rejected(DetailsInvalidFormat)
    else match ParseMarital(parts[3])
      case None => Rejected(DetailsInvalidMarital)
      case Some(ms) => Parsed(DetailsForm(parts[1], parts[2], ms, parts[4], parts[5]))
  }

  /** `handle_details`: upsert the user's single detail row (overwriting the
      five columns, keeping any self-description) and set the level to
      `details` whatever it was before. */
  function SaveDetails(s: Store, user: User, m: string): (r: Step)
    ensures ParseDetails(m).Rejected? ==> r == Step(s, ParseDetails(m).outcome)
    ensures ParseDetails(m).Parsed? ==>
      var f := ParseDetails(m).value;
      && r.outcome == DetailsPrompt
      && r.store.details.Keys == s.details.Keys + {user.id}
      && r.store.details[user.id] ==
           UserDetail(Some(Title(f.education)), Some(Title(f.profession)), Some(f.marital),
                      Some(Title(f.religion)), Some(Title(f.ethnicity)),
                      DetailOf(s, user.id).selfDescription)
      && (forall id :: id in s.details && id != user.id ==> r.store.details[id] == s.details[id])
      && r.store.users == SetLevel(s.users, user.id, Details)
      && r.store.requests == s.requests && r.store.matches == s.matches
      && r.store.messages == s.messages
  {
    match ParseDetails(m)
    case Rejected(o) => Step(s, o)
    case Parsed(f) =>
      var d := DetailOf(s, user.id).(
        education := Some(Title(f.education)),
        profession := Some(Title(f.profession)),
        marital := Some(f.marital),
        religion := Some(Title(f.religion)),
        ethnicity := Some(Title(f.ethnicity)));
      Step(s.(details := s.details[user.id := d], users := SetLevel(s.users, user.id, Details)),
           DetailsPrompt)
  }

  // ------------------------------------------------------------------ myself

  /** The self-description of a `myself` text: everything after the first six
      characters, stripped. */
  function DescriptionOf(m: string): string {
    Strip(DropPrefix(m, 6))
  }

  /** `handle_self_description`: refuse a description shorter than 10
      characters; otherwise store it verbatim and set the level to
      `completed`. */
  function SelfDescribe(s: Store, user: User, m: string): (r: Step)
    ensures |DescriptionOf(m)| < MinDescriptionLength ==> r == Step(s, SelfDescriptionTooShort)
    ensures |DescriptionOf(m)| >= MinDescriptionLength ==>
      && r.outcome == SelfDescriptionSaved
      && r.store.details.Keys == s.details.Keys + {user.id}
      && r.store.details[user.id] ==
           DetailOf(s, user.id).(selfDescription := Some(DescriptionOf(m)))
      && (forall id :: id in s.details && id != user.id ==> r.store.details[id] == s.details[id])
      && r.store.users == SetLevel(s.users, user.id, Completed)
      && r.store.requests == s.requests && r.store.matches == s.matches
      && r.store.messages == s.messages
  {
    var d := DescriptionOf(m);
    if |d| < MinDescriptionLength then Step(s, SelfDescriptionTooShort)
    else
      var row := DetailOf(s, user.id).(selfDescription := Some(d));
      Step(s.(details := s.details[user.id := row], users := SetLevel(s.users, user.id, Completed)),
           SelfDescriptionSaved)
  }

  /** The description sent after the keyword comes back unchanged. */
  lemma DescriptionRoundTrip(d: string)
    requires |d| > 0 && !IsSpace(d[0]) && !IsSpace(d[|d| - 1])
    ensures DescriptionOf("myself " + d) == d
  {
    assert DropPrefix("myself " + d, 6) == [' '] + d;
    StripOneSpace(' ', d);
  }

  // ------------------------------------------------------------------ match#

  /** The age part of `match#`: `a-b` gives [a, b], `a` gives [a, a]; anything
      that does not unpack into integers is an age-format error. */
  function ParseAgeSpec(p: string): (r: Option<(int, int)>)
    ensures '-' !in p ==>
      (r.Some? <==> ParseInt(p).Some?)
      && (r.Some? ==> r.value.0 == ParseInt(p).value == r.value.1)
    ensures '-' in p ==>
      var xs := Split(p, '-');
      (r.Some? <==> |xs| == 2 && ParseInt(xs[0]).Some? && ParseInt(xs[1]).Some?)
      && (r.Some? ==> r.value == (ParseInt(xs[0]).value, ParseInt(xs[1]).value))
  {
    if '-' in p then
      var xs := Split(p, '-');
      if |xs| != 2 then None
      else match (ParseInt(xs[0]), ParseInt(xs[1]))
        case (Some(a), Some(b)) => Some((a, b))
        case _ => None
    else
      match ParseInt(p)
      case Some(a) => Some((a, a))
      case None => None
  }

  /** The spellings `a` and `a-b` of non-negative ages parse back to [a, a]
      and [a, b]. */
  lemma AgeSpecRoundTrip(a: nat, b: nat)
    ensures ParseAgeSpec(ShowNat(a)) == Some((a, a))
    ensures ParseAgeSpec(ShowNat(a) + "-" + ShowNat(b)) == Some((a, b))
  {
    var sa, sb := ShowNat(a), ShowNat(b);
    ParseShowNat(a);
    ParseShowNat(b);
    var p := sa + "-" + sb;
    assert p[|sa|] == '-';
    SplitJoin([sa, sb], '-');
    assert Join([sa, sb], '-') == p by {
      assert [sa, sb][1..] == [sb];
    }
  }

  datatype Criteria = Criteria(
    gender: Gender, ageStart: int, ageEnd: int, town: string, requesterId: nat)

  /** `find_matches` looks for 'female' when the requester is 'male' and for
      'male' otherwise. */
  function Opposite(g: Gender): Gender {
    if g == Male then Female else Male
  }

  function CriteriaFor(user: User, ageStart: int, ageEnd: int, town: string): Criteria {
    Criteria(Opposite(user.gender), ageStart, ageEnd, town, user.id)
  }

  predicate Eligible(u: User, c: Criteria) {
    && u.gender == c.gender
    && c.ageStart <= u.age <= c.ageEnd
    && u.town == c.town
    && u.id != c.requesterId
  }

  predicate IdsIncreasing(users: seq<User>) {
    forall i, j :: 0 <= i < j < |users| ==> users[i].id < users[j].id
  }

  /** `find_matches`: exactly the eligible users, in store order. */
  function FindMatches(users: seq<User>, c: Criteria): (found: seq<User>)
    ensures forall u :: u in found <==> u in users && Eligible(u, c)
    ensures IdsIncreasing(users) ==> IdsIncreasing(found)
    decreases |users|
  {
    if |users| == 0 then []
    else
      var rest := FindMatches(users[1..], c);
      assert forall u :: u in users <==> u == users[0] || u in users[1..];
      assert IdsIncreasing(users) ==> IdsIncreasing(users[1..]);
      assert IdsIncreasing(users) ==> forall u :: u in users[1..] ==> users[0].id < u.id;
      if Eligible(users[0], c) then [users[0]] + rest else rest
  }

  /** The head of an id-ordered list has the least id, and no other member
      shares it. */
  lemma HeadHasLeastId(a: seq<User>, u: User)
    requires IdsIncreasing(a) && u in a
    ensures a[0].id <= u.id
    ensures u.id == a[0].id ==> u == a[0]
  {
    var i :| 0 <= i < |a| && a[i] == u;
    assert i == 0 || a[0].id < a[i].id;
  }

  lemma HeadIsMember(a: seq<User>)
    ensures |a| > 0 ==> a[0] in a
  {
  }

  /** Every member after the head of a non-empty id-ordered list has a
      larger id; the members are the head and those of the tail. */
  lemma TailAbove(a: seq<User>)
    requires IdsIncreasing(a) && |a| > 0
    ensures IdsIncreasing(a[1..])
    ensures forall u :: u in a[1..] ==> u.id > a[0].id
    ensures forall u :: u in a <==> u == a[0] || u in a[1..]
  {
    forall u | u in a[1..] ensures u.id > a[0].id {
      var j :| 0 <= j < |a[1..]| && a[1..][j] == u;
      assert a[j + 1] == u;
    }
    assert a == [a[0]] + a[1..];
  }

  /** Two id-ordered lists with the same members are the same list, so the
      two properties of FindMatches determine its result. */
  lemma {:induction false} IdOrderedUnique(a: seq<User>, b: seq<User>)
    requires IdsIncreasing(a) && IdsIncreasing(b)
    requires forall u :: u in a <==> u in b
    ensures a == b
    decreases |a|
  {
    if |a| == 0 || |b| == 0 {
      assert forall u :: u !in a && u !in b;
      HeadIsMember(a);
      HeadIsMember(b);
    } else {
      assert a[0] == b[0] by {
        HeadHasLeastId(a, b[0]);
        HeadHasLeastId(b, a[0]);
      }
      TailAbove(a);
      TailAbove(b);
      IdOrderedUnique(a[1..], b[1..]);
      assert a == [a[0]] + a[1..] && b == [b[0]] + b[1..];
    }
  }

  /** The match rows of a new request: one per matched user, at positions
      0..n-1 in result order. Selected by request id they come back whole,
      fill the positions a request of n matches needs, and add nothing to
      any other request. */
  function MatchRows(requestId: nat, found: seq<User>): (rows: seq<ProfileMatch>)
    ensures |rows| == |found|
    ensures forall i :: 0 <= i < |rows| ==>
              rows[i].requestId == requestId && rows[i].matchedUserId == found[i].id
              && !rows[i].sent
    ensures RowsOf(rows, requestId) == rows && RowsFit(rows, |found|)
    ensures forall other: nat :: other != requestId ==> RowsOf(rows, other) == []
  {
    var rows := seq(|found|, i requires 0 <= i < |found| =>
                      ProfileMatch(requestId, found[i].id, false, i));
    RowsOfUniform(rows, requestId);
    forall other: nat | other != requestId
      ensures RowsOf(rows, other) == []
    {
      assert forall j :: 0 <= j < |rows| ==> rows[j].requestId != other;
    }
    rows
  }

  function Cards(users: seq<User>): (cards: seq<Card>)
    ensures |cards| == |users|
    ensures forall i :: 0 <= i < |users| ==> cards[i] == CardOf(users[i])
  {
    seq(|users|, i requires 0 <= i < |users| => CardOf(users[i]))
  }

  /** The continuation prompt, shown only while some matches are unsent. */
  function PromptFor(remaining: int, requester: Gender): (p: Option<Prompt>)
    ensures p.Some? <==> remaining > 0
    ensures p.Some? ==> p.value == Prompt(remaining, TermFor(requester))
  {
    if remaining > 0 then Some(Prompt(remaining, TermFor(requester))) else None
  }

  /** The range of an SQLite INTEGER: binding a Python int outside it to a
      query raises OverflowError. */
  const SqliteIntMin := -0x8000_0000_0000_0000
  const SqliteIntMax := 0x7FFF_FFFF_FFFF_FFFF

  /** Both ages of the criteria can be bound as query parameters. */
  predicate Bindable(c: Criteria) {
    SqliteIntMin <= c.ageStart <= SqliteIntMax && SqliteIntMin <= c.ageEnd <= SqliteIntMax
  }

  /** The criteria a well-formed `match#` text asks for, if any. */
  function MatchCriteria(user: User, m: string): Option<Criteria> {
    var parts := Split(m, '#');
    if |parts| != 3 then None
    else match ParseAgeSpec(parts[1])
      case None => None
      case Some(ages) => Some(CriteriaFor(user, ages.0, ages.1, Title(parts[2])))
  }

  /** `handle_match_request`: ages the database cannot bind fail the query
      (the generic failure reply); on a non-empty result add exactly one
      request (total = n, cursor left at 0) and n positioned rows, and reply
      with the first min(3, n) matches plus a prompt exactly when n > 3. */
  function RequestMatches(s: Store, user: User, m: string): (r: Step)
    ensures |Split(m, '#')| != 3 ==> r == Step(s, MatchInvalidFormat)
    ensures |Split(m, '#')| == 3 && ParseAgeSpec(Split(m, '#')[1]).None? ==>
              r == Step(s, MatchInvalidAgeFormat)
    ensures !r.outcome.MatchFound? ==> r.store == s
    ensures r.outcome == MatchFailed <==>
              MatchCriteria(user, m).Some? && !Bindable(MatchCriteria(user, m).value)
    ensures r.outcome.MatchNoResults? <==>
              MatchCriteria(user, m).Some? && Bindable(MatchCriteria(user, m).value)
              && FindMatches(s.users, MatchCriteria(user, m).value) == []
    ensures r.outcome.MatchNoResults? ==>
              |Split(m, '#')| == 3 && r.outcome.town == Title(Split(m, '#')[2])
    ensures r.outcome.MatchFound? <==>
              MatchCriteria(user, m).Some? && Bindable(MatchCriteria(user, m).value)
              && FindMatches(s.users, MatchCriteria(user, m).value) != []
    ensures r.outcome.MatchFound? ==>
      var c := MatchCriteria(user, m).value;
      var found := FindMatches(s.users, c);
      var n := |found|;
      var rid := |s.requests| + 1;
      && n > 0
      && r.store.requests ==
           s.requests + [NewMatchRequest(rid, user.id, c.ageStart, c.ageEnd, c.town).(total := n)]
      && r.store.matches == s.matches + MatchRows(rid, found)
      && r.store.users == s.users && r.store.details == s.details
      && r.store.messages == s.messages
      && r.outcome.count == n
      && r.outcome.term == TermFor(user.gender)
      && r.outcome.page == Cards(found[..Min(PageLimit, n)])
      && (r.outcome.prompt.Some? <==> n > PageLimit)
      && (n > PageLimit ==> r.outcome.prompt.value == Prompt(n - PageLimit, TermFor(user.gender)))
  {
    var parts := Split(m, '#');
    if |parts| != 3 then Step(s, MatchInvalidFormat)
    else match ParseAgeSpec(parts[1])
      case None => Step(s, MatchInvalidAgeFormat)
      case Some(ages) =>
        var town := Title(parts[2]);
        if !Bindable(CriteriaFor(user, ages.0, ages.1, town)) then Step(s, MatchFailed)
        else
          var found := FindMatches(s.users, CriteriaFor(user, ages.0, ages.1, town));
          if |found| == 0 then Step(s, MatchNoResults(town))
          else
            var rid := |s.requests| + 1;
            var req := NewMatchRequest(rid, user.id, ages.0, ages.1, town).(total := |found|);
            var term := TermFor(user.gender);
            Step(s.(requests := s.requests + [req], matches := s.matches + MatchRows(rid, found)),
                 MatchFound(|found|, term, Cards(found[..Min(PageLimit, |found|)]),
                            PromptFor(|found| - PageLimit, user.gender)))
  }

  // -------------------------------------------------------------------- next

  /** The matched users of some rows as reply cards; None when a row points
      at no user (the attribute access would raise). */
  function CardsOfRows(users: seq<User>, rows: seq<ProfileMatch>): (r: Option<seq<Card>>)
    ensures r.Some? <==>
              forall i :: 0 <= i < |rows| ==> FindUserById(users, rows[i].matchedUserId).Some?
    ensures r.Some? ==> |r.value| == |rows|
    ensures r.Some? ==> forall i :: 0 <= i < |rows| ==>
              r.value[i] == CardOf(FindUserById(users, rows[i].matchedUserId).value)
    decreases |rows|
  {
    if |rows| == 0 then Some([])
    else match (FindUserById(users, rows[0].matchedUserId), CardsOfRows(users, rows[1..]))
      case (Some(u), Some(rest)) =>
        assert forall i :: 1 <= i < |rows| ==> rows[1..][i - 1] == rows[i];
        Some([CardOf(u)] + rest)
      case (_, r) =>
        assert forall i :: 1 <= i < |rows| ==> rows[1..][i - 1] == rows[i];
        None
  }

  /** `handle_next_matches`: serve the page at the cursor of the user's most
      recent active request while the cursor is below the match count, and
      advance the cursor by a full page even after a short final page. */
  function NextMatches(s: Store, user: User): (r: Step)
    ensures LatestActiveRequest(s.requests, user.id).None? ==> r == Step(s, NextNoActiveRequest)
    ensures LatestActiveRequest(s.requests, user.id).Some? &&
            !HasMoreMatches(s.requests[LatestActiveRequest(s.requests, user.id).value]) ==>
              r == Step(s, NextNoMoreMatches)
    ensures !r.outcome.NextPage? ==> r.store == s
    ensures r.outcome.NextPage? ==>
      var k := LatestActiveRequest(s.requests, user.id).value;
      var req := s.requests[k];
      var rows := PageOf(RowsOf(s.matches, req.id), req.offset);
      && HasMoreMatches(req)
      && r.store == s.(requests := s.requests[k := AdvancePagination(req)])
      && |rows| > 0
      && |r.outcome.cards| == |rows|
      && (forall i :: 0 <= i < |rows| ==> FindUserById(s.users, rows[i].matchedUserId).Some?)
      && (forall i :: 0 <= i < |rows| ==>
            r.outcome.cards[i] == CardOf(FindUserById(s.users, rows[i].matchedUserId).value))
      && r.outcome.more == PromptFor(req.total - (req.offset + req.perPage), user.gender)
  {
    match LatestActiveRequest(s.requests, user.id)
    case None => Step(s, NextNoActiveRequest)
    case Some(k) =>
      var req := s.requests[k];
      if !HasMoreMatches(req) then Step(s, NextNoMoreMatches)
      else
        var rows := PageOf(RowsOf(s.matches, req.id), req.offset);
        if |rows| == 0 then Step(s, NextNoMoreMatches)
        else match CardsOfRows(s.users, rows)
          case None => Step(s, NextFailed)
          case Some(cards) =>
            var advanced := AdvancePagination(req);
            Step(s.(requests := s.requests[k := advanced]),
                 NextPage(cards, PromptFor(advanced.total - advanced.offset, user.gender)))
  }

  // ----------------------------------------------------------- phone number

  /** `value or 'N/A'`: a missing or empty column prints as N/A. */
  function ShowOrNA(o: Option<string>): (r: string)
    ensures o.None? || o.value == "" ==> r == "N/A"
    ensures o.Some? && o.value != "" ==> r == o.value
  {
    if o.Some? && o.value != "" then o.value else "N/A"
  }

  function DetailLineOf(d: UserDetail): DetailLine {
    DetailLine(
      ShowOrNA(d.education),
      ShowOrNA(d.profession),
      ShowOrNA(if d.marital.Some? then Some(MaritalName(d.marital.value)) else None),
      ShowOrNA(d.religion),
      ShowOrNA(d.ethnicity))
  }

  /** `notify_interest` (record creation only): a message from sender 0 to
      the requested user. */
  function NotifyInterest(requested: User, interested: User): (msg: Message)
    ensures msg.senderId == 0 && msg.recipientId == requested.id
    ensures msg.phone == requested.phone
  {
    Message(0, requested.id, requested.phone)
  }

  /** `handle_profile_request`: an unknown number changes nothing; a known
      one is shown and gets exactly one notification. */
  function RequestProfile(s: Store, user: User, target: string): (r: Step)
    ensures !PhoneTaken(s.users, target) ==> r == Step(s, ProfileNotFound)
    ensures PhoneTaken(s.users, target) ==>
      var t := FindUserByPhone(s.users, target).value;
      && r.store == s.(messages := s.messages + [Message(0, t.id, t.phone)])
      && r.outcome == ProfileShown(t.name, t.age, t.county, t.town,
                                   if t.id in s.details then Some(DetailLineOf(s.details[t.id])) else None,
                                   target)
  {
    match FindUserByPhone(s.users, target)
    case None => Step(s, ProfileNotFound)
    case Some(t) =>
      var extras := if t.id in s.details then Some(DetailLineOf(s.details[t.id])) else None;
      Step(s.(messages := s.messages + [NotifyInterest(t, user)]),
           ProfileShown(t.name, t.age, t.county, t.town, extras, target))
  }

  // ---------------------------------------------------------------- describe

  /** `handle_describe_request`: read-only; the stored self-description is
      returned unchanged. */
  function RequestDescription(s: Store, m: string): (r: Step)
    ensures r.store == s
    ensures |Words(m)| != 2 ==> r.outcome == DescribeInvalidFormat
    ensures |Words(m)| == 2 ==>
              (r.outcome == DescribeNotFound <==> !PhoneTaken(s.users, Words(m)[1]))
    ensures |Words(m)| == 2 && PhoneTaken(s.users, Words(m)[1]) ==>
              r.outcome.DescribeNoDescription? || r.outcome.Described?
    ensures r.outcome.DescribeNoDescription? || r.outcome.Described? ==>
      && |Words(m)| == 2 && PhoneTaken(s.users, Words(m)[1])
      && var t := FindUserByPhone(s.users, Words(m)[1]).value;
      && var d := DetailOf(s, t.id).selfDescription;
      && (r.outcome.DescribeNoDescription? <==> d.None? || d.value == "")
      && (r.outcome.DescribeNoDescription? ==> r.outcome.who == t.name)
      && (r.outcome.Described? ==>
            r.outcome == Described(t.name, PronounFor(t.gender), d.value))
  {
    var parts := Words(m);
    if |parts| != 2 then Step(s, DescribeInvalidFormat)
    else match FindUserByPhone(s.users, parts[1])
      case None => Step(s, DescribeNotFound)
      case Some(t) =>
        var d := DetailOf(s, t.id).selfDescription;
        if d.None? || d.value == "" then Step(s, DescribeNoDescription(t.name))
        else Step(s, Described(t.name, PronounFor(t.gender), d.value))
  }
}
