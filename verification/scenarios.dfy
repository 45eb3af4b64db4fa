/**
  Multi-step behaviour of the service: what a well-formed registration
  stores, what the first NEXT after a match returns, how re-submitting
  details moves a completed user back, and the NEXT schedule of a
  seven-match request.
*/
module Scenarios {
  import opened Text
  import opened Models
  import opened Pagination
  import opened Storage
  import opened Outcomes
  import opened Handlers
  import opened Invariants

  /** `start#name#age#gender#county#town` assembled from its fields. */
  function RegistrationText(name: string, age: nat, g: Gender, county: string, town: string): string {
    Join(["start", name, ShowNat(age), GenderName(g), county, town], '#')
  }

  lemma RegistrationTextSplits(name: string, age: nat, g: Gender, county: string, town: string)
    requires '#' !in name && '#' !in county && '#' !in town
    ensures Split(RegistrationText(name, age, g, county, town), '#') ==
              ["start", name, ShowNat(age), GenderName(g), county, town]
  {
    var digits := ShowNat(age);
    var parts := ["start", name, digits, GenderName(g), county, town];
    assert '#' !in digits by {
      assert forall i :: 0 <= i < |digits| ==> IsDigit(digits[i]);
    }
    assert '#' !in GenderName(g);
    assert forall i :: 0 <= i < |parts| ==> '#' !in parts[i];
    SplitJoin(parts, '#');
  }

  /** A registration text built from fields free of `#`, with an age in
      range, parses back to those fields. */
  lemma RegistrationTextParses(name: string, age: nat, g: Gender, county: string, town: string)
    requires '#' !in name && '#' !in county && '#' !in town
    requires MinAge <= age <= MaxAge
    ensures ParseRegistration(RegistrationText(name, age, g, county, town)) ==
              Parsed(Registration(name, age, g, county, town))
  {
    var parts := Split(RegistrationText(name, age, g, county, town), '#');
    RegistrationTextSplits(name, age, g, county, town);
    assert ParseInt(parts[2]) == Some(age) by {
      ParseShowInt(age);
      assert ShowInt(age) == ShowNat(age);
    }
    assert ParseGender(parts[3]) == Some(g) by {
      EnumNamesRoundTrip(g, Single);
    }
  }

  /** Such a text from a new phone registers exactly that user, with the
      name, county and town title-cased. */
  lemma RegisterFromFields(s: Store, phone: string, name: string, age: nat, g: Gender,
                           county: string, town: string)
    requires '#' !in name && '#' !in county && '#' !in town
    requires MinAge <= age <= MaxAge
    requires !PhoneTaken(s.users, phone)
    ensures var r := Register(s, phone, RegistrationText(name, age, g, county, town));
      && r.outcome == Registered(Title(name))
      && r.store == s.(users := s.users + [User(|s.users| + 1, Title(name), phone, age, g,
                                                Title(county), Title(town), Basic)])
  {
    RegistrationTextParses(name, age, g, county, town);
  }

  /** The request a MatchFound step adds is the requester's latest active
      one. */
  lemma NewRequestIsLatest(s: Store, user: User, m: string)
    ensures RequestMatches(s, user, m).outcome.MatchFound? ==>
              LatestActiveRequest(RequestMatches(s, user, m).store.requests, user.id) ==
              Some(|s.requests|)
  {
    var r := RequestMatches(s, user, m);
    if r.outcome.MatchFound? {
      assert OwnedActive(r.store.requests[|s.requests|], user.id);
    }
  }

  /** Rows appended for an id no earlier row carries are exactly that id's
      rows. */
  lemma FreshRowsOf(matches: seq<ProfileMatch>, rid: nat, found: seq<User>)
    requires forall j :: 0 <= j < |matches| ==> matches[j].requestId < rid
    ensures RowsOf(matches + MatchRows(rid, found), rid) == MatchRows(rid, found)
  {
    RowsOfAppend(matches, MatchRows(rid, found), rid);
    assert RowsOf(matches, rid) == [];
  }

  /** The rows of a fresh request are exactly the rows the match step
      created. */
  lemma NewRequestRows(s: Store, user: User, m: string)
    requires Valid(s)
    ensures RequestMatches(s, user, m).outcome.MatchFound? ==>
      var found := FindMatches(s.users, MatchCriteria(user, m).value);
      RowsOf(RequestMatches(s, user, m).store.matches, |s.requests| + 1) ==
        MatchRows(|s.requests| + 1, found)
  {
    var r := RequestMatches(s, user, m);
    if r.outcome.MatchFound? {
      var found := FindMatches(s.users, MatchCriteria(user, m).value);
      var rid := |s.requests| + 1;
      assert r.store.matches == s.matches + MatchRows(rid, found);
      assert RowsValid(s);
      FreshRowsOf(s.matches, rid, found);
    }
  }

  /** The first page of a fresh request's rows, as reply cards, is the
      first min(3, n) matched users. */
  lemma FirstPageCards(users: seq<User>, id: nat, found: seq<User>)
    requires UsersWellFormed(users)
    requires forall u :: u in found ==> u in users
    ensures CardsOfRows(users, PageOf(MatchRows(id, found), 0)) ==
              Some(Cards(found[..Min(PageLimit, |found|)]))
  {
    var rows := PageOf(MatchRows(id, found), 0);
    var page := Cards(found[..Min(PageLimit, |found|)]);
    forall i | 0 <= i < |rows|
      ensures FindUserById(users, rows[i].matchedUserId) == Some(found[i])
    {
      assert rows[i].matchedUserId == found[i].id;
      assert found[i] in found;
      UserIndex(users, found[i]);
      FindUserByIdWellFormed(users, found[i].id);
    }
    var cards := CardsOfRows(users, rows);
    assert cards.value == page;
  }

  /** NEXT on a request whose cursor is still at 0 serves the first
      min(3, n) of its matched users and prompts for the other n - 3. */
  lemma NextFromFreshCursor(t: Store, user: User, k: nat, found: seq<User>)
    requires UsersWellFormed(t.users)
    requires LatestActiveRequest(t.requests, user.id) == Some(k)
    requires t.requests[k].offset == 0 && t.requests[k].perPage == MatchesPerPage
    requires t.requests[k].total == |found| > 0
    requires RowsOf(t.matches, t.requests[k].id) == MatchRows(t.requests[k].id, found)
    requires forall u :: u in found ==> u in t.users
    ensures NextMatches(t, user).outcome ==
              NextPage(Cards(found[..Min(PageLimit, |found|)]), PromptFor(|found| - PageLimit, user.gender))
  {
    var req := t.requests[k];
    var rows := PageOf(RowsOf(t.matches, req.id), req.offset);
    assert rows == PageOf(MatchRows(req.id, found), 0);
    FirstPageCards(t.users, req.id, found);
    assert HasMoreMatches(req) && |rows| > 0;
    var advanced := AdvancePagination(req);
    assert advanced.total - advanced.offset == |found| - PageLimit;
    assert NextMatches(t, user).outcome ==
             NextPage(CardsOfRows(t.users, rows).value, PromptFor(advanced.total - advanced.offset, user.gender));
  }

  /** The cursor of a new request starts at 0, so the first NEXT after a
      successful `match#` sends the same matches and prompt the `match#`
      reply already sent. */
  lemma FirstNextRepeatsMatchPage(s: Store, user: User, m: string)
    requires Valid(s)
    ensures var r := RequestMatches(s, user, m);
      r.outcome.MatchFound? ==>
        NextMatches(r.store, user).outcome == NextPage(r.outcome.page, r.outcome.prompt)
  {
    var r := RequestMatches(s, user, m);
    if r.outcome.MatchFound? {
      var found := FindMatches(s.users, MatchCriteria(user, m).value);
      NewRequestIsLatest(s, user, m);
      NewRequestRows(s, user, m);
      assert r.outcome.prompt == PromptFor(|found| - PageLimit, user.gender);
      NextFromFreshCursor(r.store, user, |s.requests|, found);
    }
  }

  /** Re-submitting details moves a `completed` user back to `details` and
      keeps the stored self-description. */
  lemma DetailsRegressCompleted(s: Store, user: User, m: string)
    requires Valid(s) && user in s.users && user.level == Completed
    requires ParseDetails(m).Parsed?
    ensures var t := SaveDetails(s, user, m).store;
      && 1 <= user.id <= |t.users|
      && t.users[user.id - 1].level == Details
      && user.id in s.details
      && t.details[user.id].selfDescription == s.details[user.id].selfDescription
      && t.details[user.id].selfDescription.Some?
  {
    UserIndex(s.users, user);
  }

  /** Seven matches and a fresh cursor: NEXT moves the cursor to 3, 6 and 9;
      the third NEXT serves the last match alone and the fourth finds none
      left; the three pages together are the seven rows in order. */
  lemma SevenMatchSchedule<T>(r: MatchRequest, rows: seq<T>)
    requires r.offset == 0 && r.perPage == MatchesPerPage && r.total == 7 && |rows| == 7
    ensures CursorAfter(r, 1).offset == 3
    ensures CursorAfter(r, 2).offset == 6
    ensures CursorAfter(r, 3).offset == 9
    ensures HasMoreMatches(CursorAfter(r, 2)) && !HasMoreMatches(CursorAfter(r, 3))
    ensures PageOf(rows, CursorAfter(r, 2).offset) == [rows[6]]
    ensures PagesFrom(rows, r, 3) == rows
  {
    CursorSchedule(r, 1);
    CursorSchedule(r, 2);
    CursorSchedule(r, 3);
    PagesCoverAllRows(rows, r, 3);
  }

  // ------------------------------------------------------ consecutive NEXTs

  /** The cards a NEXT step served: its page, or nothing. */
  function Served(r: Step): seq<Card> {
    if r.outcome.NextPage? then r.outcome.cards else []
  }

  /** The store after `n` steps of `next`, with the cards they served in
      order. */
  function NextSteps(next: Store -> Step, s: Store, n: nat): (Store, seq<Card>)
    decreases n
  {
    if n == 0 then (s, [])
    else
      var before := NextSteps(next, s, n - 1);
      var r := next(before.0);
      (r.store, before.1 + Served(r))
  }

  /** The store after `n` consecutive NEXT messages from `user`, with the
      cards they served in order. */
  function NextRun(s: Store, user: User, n: nat): (Store, seq<Card>) {
    NextSteps(t => NextMatches(t, user), s, n)
  }

  /** The store with request `k`'s cursor moved by `i` NEXTs. */
  function CursorAt(s: Store, k: nat, i: nat): Store
    requires k < |s.requests|
  {
    s.(requests := s.requests[k := CursorAfter(s.requests[k], i)])
  }

  /** Moving one request's cursor leaves the user's latest active request
      where it was. */
  lemma LatestAfterCursorMove(requests: seq<MatchRequest>, k: nat, moved: MatchRequest, userId: nat)
    requires k < |requests|
    requires moved.userId == requests[k].userId && moved.active == requests[k].active
    ensures LatestActiveRequest(requests[k := moved], userId) == LatestActiveRequest(requests, userId)
  {
    var after := requests[k := moved];
    assert forall j :: 0 <= j < |requests| ==>
      (OwnedActive(after[j], userId) <==> OwnedActive(requests[j], userId));
    var a, b := LatestActiveRequest(requests, userId), LatestActiveRequest(after, userId);
    if a.Some? {
      assert OwnedActive(after[a.value], userId);
    }
    if b.Some? {
      assert OwnedActive(requests[b.value], userId);
    }
  }

  /** Cards of concatenated rows are the concatenated cards. */
  lemma CardsOfRowsAppend(users: seq<User>, a: seq<ProfileMatch>, b: seq<ProfileMatch>)
    ensures CardsOfRows(users, a + b).Some? <==>
              CardsOfRows(users, a).Some? && CardsOfRows(users, b).Some?
    ensures CardsOfRows(users, a + b).Some? ==>
              CardsOfRows(users, a + b).value == CardsOfRows(users, a).value + CardsOfRows(users, b).value
  {
    var ab := a + b;
    var ca, cb, cab := CardsOfRows(users, a), CardsOfRows(users, b), CardsOfRows(users, ab);
    if ca.Some? && cb.Some? {
      forall i | 0 <= i < |ab|
        ensures FindUserById(users, ab[i].matchedUserId).Some?
      {
        if i < |a| { assert ab[i] == a[i]; } else { assert ab[i] == b[i - |a|]; }
      }
      var both := ca.value + cb.value;
      forall i | 0 <= i < |ab|
        ensures cab.value[i] == both[i]
      {
        if i < |a| { assert ab[i] == a[i]; } else { assert ab[i] == b[i - |a|]; }
      }
      assert cab.value == both;
    } else if ca.None? {
      var i :| 0 <= i < |a| && FindUserById(users, a[i].matchedUserId).None?;
      assert ab[i] == a[i];
    } else {
      var i :| 0 <= i < |b| && FindUserById(users, b[i].matchedUserId).None?;
      assert ab[|a| + i] == b[i];
    }
  }

  /** Cards of two row lists, composed. */
  lemma CardsCompose(users: seq<User>, a: seq<ProfileMatch>, b: seq<ProfileMatch>,
                     x: seq<Card>, y: seq<Card>)
    requires Some(x) == CardsOfRows(users, a) && Some(y) == CardsOfRows(users, b)
    ensures Some(x + y) == CardsOfRows(users, a + b)
  {
    CardsOfRowsAppend(users, a, b);
  }

  /** What a run of NEXTs needs of the store: the user's latest active
      request is `requests[k]`, and it, the user table and the match rows
      are well-formed. Every valid store with such a request satisfies it. */
  predicate Serving(s: Store, user: User, k: nat) {
    && LatestActiveRequest(s.requests, user.id) == Some(k)
    && k < |s.requests|
    && UsersWellFormed(s.users)
    && RowsValid(s)
    && RequestValid(s, k)
  }

  /** One NEXT on a serving store moves the cursor exactly as NextCursor
      does and serves the cards of the page at the old cursor while matches
      remain. */
  lemma NextStep(s: Store, user: User, k: nat)
    requires Serving(s, user, k)
    ensures NextMatches(s, user).store == s.(requests := s.requests[k := NextCursor(s.requests[k])])
    ensures Some(Served(NextMatches(s, user))) ==
              CardsOfRows(s.users, PageAt(RowsOf(s.matches, s.requests[k].id), s.requests[k]))
  {
    var r := NextMatches(s, user);
    var req := s.requests[k];
    var all := RowsOf(s.matches, req.id);
    if HasMoreMatches(req) {
      var rows := PageOf(all, req.offset);
      assert 0 <= req.offset < |all|;
      forall i | 0 <= i < |rows|
        ensures FindUserById(s.users, rows[i].matchedUserId).Some?
      {
        assert rows[i] == all[req.offset + i];
        assert all[req.offset + i] in s.matches;
        var j :| 0 <= j < |s.matches| && s.matches[j] == rows[i];
        FindUserByIdWellFormed(s.users, rows[i].matchedUserId);
      }
      assert CardsOfRows(s.users, rows).Some?;
      assert r.outcome.cards == CardsOfRows(s.users, rows).value;
    } else {
      assert s.requests[k := req] == s.requests;
    }
  }

  /** After one NEXT the store still serves the same request. */
  lemma NextStepServing(s: Store, user: User, k: nat)
    requires Serving(s, user, k)
    ensures Serving(NextMatches(s, user).store, user, k)
  {
    NextStep(s, user, k);
    CursorAtServing(s, user, k, 1);
    assert s.requests[k := NextCursor(s.requests[k])] == CursorAt(s, k, 1).requests;
  }

  /** The same step on a valid store, which also stays valid: NEXT is
      NextCursor on the latest active request, serving PageOf at the old
      cursor. */
  lemma NextMatchesFollowsCursor(s: Store, user: User, k: nat)
    requires Valid(s) && LatestActiveRequest(s.requests, user.id) == Some(k)
    ensures NextMatches(s, user).store == s.(requests := s.requests[k := NextCursor(s.requests[k])])
    ensures Valid(NextMatches(s, user).store)
    ensures LatestActiveRequest(NextMatches(s, user).store.requests, user.id) == Some(k)
    ensures Some(Served(NextMatches(s, user))) ==
              CardsOfRows(s.users, PageAt(RowsOf(s.matches, s.requests[k].id), s.requests[k]))
  {
    assert RequestValid(s, k);
    NextStep(s, user, k);
    NextStepServing(s, user, k);
    NextMatchesKeepsValid(s, user);
  }

  /** A store whose serving request has had its cursor moved still serves
      it. */
  lemma CursorAtServing(s: Store, user: User, k: nat, i: nat)
    requires Serving(s, user, k)
    ensures Serving(CursorAt(s, k, i), user, k)
  {
    var req := s.requests[k];
    var t := CursorAt(s, k, i);
    CursorAfterKeeps(req, i);
    LatestAfterCursorMove(s.requests, k, CursorAfter(req, i), user.id);
    assert RequestValid(t, k);
  }

  /** The NEXT after `i` others moves the cursor once more and serves the
      page at the cursor the `i` NEXTs left. */
  lemma StepAt(s: Store, user: User, k: nat, i: nat)
    requires Serving(s, user, k)
    ensures NextMatches(CursorAt(s, k, i), user).store == CursorAt(s, k, i + 1)
    ensures Some(Served(NextMatches(CursorAt(s, k, i), user))) ==
              CardsOfRows(s.users, PageAt(RowsOf(s.matches, s.requests[k].id), CursorAfter(s.requests[k], i)))
  {
    var t := CursorAt(s, k, i);
    CursorAtServing(s, user, k, i);
    NextStep(t, user, k);
    assert t.requests[k := NextCursor(t.requests[k])] == CursorAt(s, k, i + 1).requests;
  }

  /** The step from request `k`'s cursor after `i` NEXTs moves it once more
      and serves the page at that cursor. */
  ghost predicate StepFollowsCursor(next: Store -> Step, s: Store, k: nat, rows: seq<ProfileMatch>, i: nat)
    requires k < |s.requests|
  {
    && next(CursorAt(s, k, i)).store == CursorAt(s, k, i + 1)
    && Some(Served(next(CursorAt(s, k, i)))) == CardsOfRows(s.users, PageAt(rows, CursorAfter(s.requests[k], i)))
  }

  ghost predicate StepsFollowCursor(next: Store -> Step, s: Store, k: nat, rows: seq<ProfileMatch>)
    requires k < |s.requests|
  {
    forall i: nat :: StepFollowsCursor(next, s, k, rows, i)
  }

  /** NEXT from a serving store is such a step. */
  lemma ServingFollowsCursor(s: Store, user: User, k: nat)
    requires Serving(s, user, k)
    ensures StepsFollowCursor(t => NextMatches(t, user), s, k, RowsOf(s.matches, s.requests[k].id))
  {
    var next: Store -> Step := t => NextMatches(t, user);
    var rows := RowsOf(s.matches, s.requests[k].id);
    forall i: nat
      ensures StepFollowsCursor(next, s, k, rows, i)
    {
      StepAt(s, user, k, i);
    }
  }

  /** `n` such steps move only the cursor of request `k`, to
      CursorAfter(req, n). */
  lemma {:induction false} RunStore(next: Store -> Step, s: Store, n: nat, k: nat, rows: seq<ProfileMatch>)
    requires k < |s.requests| && StepsFollowCursor(next, s, k, rows)
    ensures NextSteps(next, s, n).0 == CursorAt(s, k, n)
    decreases n
  {
    if n == 0 {
      assert s.requests[k := s.requests[k]] == s.requests;
    } else {
      RunStore(next, s, n - 1, k, rows);
      assert StepFollowsCursor(next, s, k, rows, n - 1);
    }
  }

  /** One more step appends the cards of the page at the cursor the earlier
      steps left. */
  lemma RunCardsStep(next: Store -> Step, s: Store, n: nat, k: nat, rows: seq<ProfileMatch>)
    requires k < |s.requests| && StepsFollowCursor(next, s, k, rows) && n > 0
    requires Some(NextSteps(next, s, n - 1).1) == CardsOfRows(s.users, PagesFrom(rows, s.requests[k], n - 1))
    ensures Some(NextSteps(next, s, n).1) == CardsOfRows(s.users, PagesFrom(rows, s.requests[k], n))
  {
    var req := s.requests[k];
    var before := NextSteps(next, s, n - 1);
    var r := next(before.0);
    var earlier, last := PagesFrom(rows, req, n - 1), PageAt(rows, CursorAfter(req, n - 1));
    assert Some(Served(r)) == CardsOfRows(s.users, last) by {
      RunStore(next, s, n - 1, k, rows);
      assert StepFollowsCursor(next, s, k, rows, n - 1);
    }
    PagesFromSnoc(rows, req, n);
    CardsCompose(s.users, earlier, last, before.1, Served(r));
  }

  /** The cards `n` such steps serve are those of PagesFrom, the pages the
      cursor schedule reads. */
  lemma {:induction false} RunCards(next: Store -> Step, s: Store, n: nat, k: nat, rows: seq<ProfileMatch>)
    requires k < |s.requests| && StepsFollowCursor(next, s, k, rows)
    ensures Some(NextSteps(next, s, n).1) == CardsOfRows(s.users, PagesFrom(rows, s.requests[k], n))
    decreases n
  {
    if n > 0 {
      RunCards(next, s, n - 1, k, rows);
      RunCardsStep(next, s, n, k, rows);
    }
  }

  /** On a valid store, `n` consecutive NEXTs move the cursor of the user's
      latest active request to CursorAfter(req, n), change nothing else, and
      serve the cards of PagesFrom(rows, req, n). */
  lemma NextRunFollowsCursor(s: Store, user: User, n: nat, k: nat)
    requires Valid(s) && LatestActiveRequest(s.requests, user.id) == Some(k)
    ensures NextRun(s, user, n).0 == s.(requests := s.requests[k := CursorAfter(s.requests[k], n)])
    ensures Some(NextRun(s, user, n).1) ==
              CardsOfRows(s.users, PagesFrom(RowsOf(s.matches, s.requests[k].id), s.requests[k], n))
  {
    assert RequestValid(s, k);
    ServingFollowsCursor(s, user, k);
    RunStore(t => NextMatches(t, user), s, n, k, RowsOf(s.matches, s.requests[k].id));
    RunCards(t => NextMatches(t, user), s, n, k, RowsOf(s.matches, s.requests[k].id));
  }

  /** The cards of all rows of a fresh request are the matched users' cards
      in result order. */
  lemma AllRowsCards(users: seq<User>, id: nat, found: seq<User>)
    requires UsersWellFormed(users)
    requires forall u :: u in found ==> u in users
    ensures CardsOfRows(users, MatchRows(id, found)) == Some(Cards(found))
  {
    var rows := MatchRows(id, found);
    forall i | 0 <= i < |rows|
      ensures FindUserById(users, rows[i].matchedUserId) == Some(found[i])
    {
      assert found[i] in found;
      UserIndex(users, found[i]);
      FindUserByIdWellFormed(users, found[i].id);
    }
    assert CardsOfRows(users, rows).value == Cards(found);
  }

  /** After a successful `match#`, enough consecutive NEXTs (one per page of
      three) serve every matched user exactly once, in result order, and the
      next NEXT finds no more matches. */
  lemma MatchThenNexts(s: Store, user: User, m: string, n: nat)
    requires Valid(s) && user in s.users
    ensures var r := RequestMatches(s, user, m);
      r.outcome.MatchFound? && n >= PagesNeeded(r.outcome.count) ==>
        && NextRun(r.store, user, n).1 == Cards(FindMatches(s.users, MatchCriteria(user, m).value))
        && NextMatches(NextRun(r.store, user, n).0, user).outcome == NextNoMoreMatches
  {
    var r := RequestMatches(s, user, m);
    if r.outcome.MatchFound? && n >= PagesNeeded(r.outcome.count) {
      var found := FindMatches(s.users, MatchCriteria(user, m).value);
      var t := r.store;
      var k := |s.requests|;
      RequestMatchesKeepsValid(s, user, m);
      NewRequestIsLatest(s, user, m);
      NewRequestRows(s, user, m);
      var req := t.requests[k];
      assert req.id == k + 1 && req.offset == 0 && req.perPage == MatchesPerPage;
      assert req.total == |found| == r.outcome.count;
      NextRunFollowsCursor(t, user, n, k);
      PagesCoverAllRows(MatchRows(req.id, found), req, n);
      AllRowsCards(t.users, req.id, found);
      var after := NextRun(t, user, n).0;
      CursorSchedule(req, n);
      LatestAfterCursorMove(t.requests, k, CursorAfter(req, n), user.id);
      assert after.requests[k] == CursorAfter(req, n);
    }
  }
}
