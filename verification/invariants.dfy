/**
  What every store reachable from the empty one satisfies, and how a store
  may evolve under one message: users and detail rows are never removed,
  match rows and messages are only appended, and a stored request only ever
  moves its cursor forward.
*/
module Invariants {
  import opened Text
  import opened Models
  import opened Pagination
  import opened Storage
  import opened Outcomes
  import opened Commands
  import opened Handlers
  import opened Engine

  /** In a well-formed table a user row sits at index `id - 1`. */
  lemma UserIndex(users: seq<User>, user: User)
    requires UsersWellFormed(users) && user in users
    ensures 1 <= user.id <= |users| && users[user.id - 1] == user
  {
    var i :| 0 <= i < |users| && users[i] == user;
    assert users[i].id == i + 1;
  }

  /** Changing levels keeps a well-formed user table well-formed. */
  lemma SetLevelWellFormed(users: seq<User>, id: nat, level: Level)
    requires UsersWellFormed(users)
    ensures UsersWellFormed(SetLevel(users, id, level))
  {
    var r := SetLevel(users, id, level);
    forall i | 0 <= i < |users|
      ensures r[i].id == users[i].id && r[i].age == users[i].age && r[i].phone == users[i].phone
    {
      assert r[i].(level := users[i].level) == users[i];
    }
  }

  lemma RequestsKeepValid(s: Store, t: Store)
    requires Valid(s)
    requires t.requests == s.requests && t.matches == s.matches && |t.users| == |s.users|
    ensures forall k: nat :: k < |t.requests| ==> RequestValid(t, k)
  {
    forall k: nat | k < |t.requests| ensures RequestValid(t, k) {
      assert RequestValid(s, k);
    }
  }

  /** Adding a `basic` user with the next id, an age in range and an unused
      phone keeps the invariant. */
  lemma NewUserKeepsValid(s: Store, u: User)
    requires Valid(s)
    requires u.id == |s.users| + 1 && MinAge <= u.age <= MaxAge && u.level == Basic
    requires !PhoneTaken(s.users, u.phone)
    ensures Valid(s.(users := s.users + [u]))
  {
    var t := s.(users := s.users + [u]);
    assert |s.users| + 1 !in s.details;
    forall k: nat | k < |t.requests| ensures RequestValid(t, k) {
      assert RequestValid(s, k);
    }
  }

  lemma RegisterKeepsValid(s: Store, phone: string, m: string)
    requires Valid(s)
    ensures Valid(Register(s, phone, m).store)
  {
    var r := Register(s, phone, m);
    if r.outcome.Registered? {
      NewUserKeepsValid(s, r.store.users[|s.users|]);
    }
  }

  /** Writing one user's detail row and level keeps the invariant when the
      row keeps the stage rules: a row exists from `details` on, and a
      `completed` user's row has a self-description of at least 10
      characters. */
  lemma DetailWriteKeepsValid(s: Store, t: Store, uid: nat, d: UserDetail, level: Level)
    requires Valid(s) && 1 <= uid <= |s.users|
    requires level != Basic
    requires level == Completed ==> d.selfDescription.Some?
    requires d.selfDescription.Some? ==> |d.selfDescription.value| >= MinDescriptionLength
    requires t == s.(details := s.details[uid := d], users := SetLevel(s.users, uid, level))
    ensures Valid(t)
  {
    SetLevelWellFormed(s.users, uid, level);
    forall i | 0 <= i < |t.users|
      ensures t.users[i].level == Basic <==> i + 1 !in t.details
      ensures t.users[i].level == Completed ==>
                i + 1 in t.details && t.details[i + 1].selfDescription.Some?
    {
      assert s.users[i].id == i + 1;
    }
    RequestsKeepValid(s, t);
  }

  lemma SaveDetailsKeepsValid(s: Store, user: User, m: string)
    requires Valid(s) && user in s.users
    ensures Valid(SaveDetails(s, user, m).store)
  {
    var r := SaveDetails(s, user, m);
    if ParseDetails(m).Parsed? {
      UserIndex(s.users, user);
      var d := r.store.details[user.id];
      assert r.store == s.(details := s.details[user.id := d],
                           users := SetLevel(s.users, user.id, Details));
      DetailWriteKeepsValid(s, r.store, user.id, d, Details);
    }
  }

  lemma SelfDescribeKeepsValid(s: Store, user: User, m: string)
    requires Valid(s) && user in s.users
    ensures Valid(SelfDescribe(s, user, m).store)
  {
    var r := SelfDescribe(s, user, m);
    if |DescriptionOf(m)| >= MinDescriptionLength {
      UserIndex(s.users, user);
      var d := r.store.details[user.id];
      assert r.store == s.(details := s.details[user.id := d],
                           users := SetLevel(s.users, user.id, Completed));
      DetailWriteKeepsValid(s, r.store, user.id, d, Completed);
    }
  }

  /** The conditions under which a request and its rows can be added. */
  predicate Addable(s: Store, req: MatchRequest, rows: seq<ProfileMatch>) {
    && req.id == |s.requests| + 1 && 1 <= req.userId <= |s.users| && req.active
    && req.total >= 1 && CursorInvariant(req) && RowsFit(rows, req.total)
    && forall i :: 0 <= i < |rows| ==>
         rows[i].requestId == req.id && 1 <= rows[i].matchedUserId <= |s.users|
  }

  lemma OldRequestStaysValid(s: Store, req: MatchRequest, rows: seq<ProfileMatch>, k: nat)
    requires Valid(s) && Addable(s, req, rows) && k < |s.requests|
    ensures RequestValid(s.(requests := s.requests + [req], matches := s.matches + rows), k)
  {
    assert RequestValid(s, k);
    RowsOfAppend(s.matches, rows, k + 1);
    assert RowsOf(rows, k + 1) == [];
  }

  lemma AddedRequestValid(s: Store, req: MatchRequest, rows: seq<ProfileMatch>)
    requires Valid(s) && Addable(s, req, rows)
    ensures RequestValid(s.(requests := s.requests + [req], matches := s.matches + rows), |s.requests|)
  {
    RowsOfAppend(s.matches, rows, req.id);
    assert RowsOf(s.matches, req.id) == [];
    RowsOfUniform(rows, req.id);
  }

  /** Adding a request together with its rows keeps the invariant when the
      request is well-formed and the rows are exactly its positions. */
  lemma NewRequestKeepsValid(s: Store, req: MatchRequest, rows: seq<ProfileMatch>)
    requires Valid(s) && Addable(s, req, rows)
    ensures Valid(s.(requests := s.requests + [req], matches := s.matches + rows))
  {
    var t := s.(requests := s.requests + [req], matches := s.matches + rows);
    forall k: nat | k < |t.requests| ensures RequestValid(t, k) {
      if k < |s.requests| {
        OldRequestStaysValid(s, req, rows, k);
      } else {
        AddedRequestValid(s, req, rows);
      }
    }
    assert RowsValid(t);
  }

  lemma RequestMatchesKeepsValid(s: Store, user: User, m: string)
    requires Valid(s) && user in s.users
    ensures Valid(RequestMatches(s, user, m).store)
  {
    var r := RequestMatches(s, user, m);
    if r.outcome.MatchFound? {
      var c := MatchCriteria(user, m).value;
      var found := FindMatches(s.users, c);
      var rid := |s.requests| + 1;
      var rows := MatchRows(rid, found);
      var req := NewMatchRequest(rid, user.id, c.ageStart, c.ageEnd, c.town).(total := |found|);
      UserIndex(s.users, user);
      forall i | 0 <= i < |found| ensures 1 <= found[i].id <= |s.users| {
        assert found[i] in found;
        UserIndex(s.users, found[i]);
      }
      assert r.store == s.(requests := s.requests + [req], matches := s.matches + rows);
      NewRequestKeepsValid(s, req, rows);
    }
  }

  /** Advancing the cursor of a request that still has matches keeps the
      invariant. */
  lemma AdvanceKeepsValid(s: Store, k: nat)
    requires Valid(s) && k < |s.requests| && HasMoreMatches(s.requests[k])
    ensures Valid(s.(requests := s.requests[k := AdvancePagination(s.requests[k])]))
  {
    var t := s.(requests := s.requests[k := AdvancePagination(s.requests[k])]);
    forall j: nat | j < |t.requests| ensures RequestValid(t, j) {
      assert RequestValid(s, j);
    }
  }

  lemma NextMatchesKeepsValid(s: Store, user: User)
    requires Valid(s)
    ensures Valid(NextMatches(s, user).store)
  {
    var r := NextMatches(s, user);
    if r.outcome.NextPage? {
      AdvanceKeepsValid(s, LatestActiveRequest(s.requests, user.id).value);
    }
  }

  lemma RequestProfileKeepsValid(s: Store, user: User, target: string)
    requires Valid(s)
    ensures Valid(RequestProfile(s, user, target).store)
  {
    if PhoneTaken(s.users, target) {
      var t := FindUserByPhone(s.users, target).value;
      UserIndex(s.users, t);
      RequestsKeepValid(s, RequestProfile(s, user, target).store);
    }
  }

  /** Every inbound message keeps the store invariant. */
  lemma PostKeepsValid(s: Store, from: Option<string>, text: Option<string>)
    requires Valid(s)
    ensures Valid(Post(s, from, text).store)
  {
    if Given(from) && Given(text) {
      var phone := from.value;
      var m := Normalize(text.value);
      var c := Classify(m);
      if c == Start {
        RegisterKeepsValid(s, phone, m);
      } else if c != Unsupported && PhoneTaken(s.users, phone) {
        var u := FindUserByPhone(s.users, phone).value;
        match c
        case SubmitDetails => SaveDetailsKeepsValid(s, u, m);
        case Myself => SelfDescribeKeepsValid(s, u, m);
        case Match => RequestMatchesKeepsValid(s, u, m);
        case Next => NextMatchesKeepsValid(s, u);
        case Profile => RequestProfileKeepsValid(s, u, m);
        case Describe =>
        case Yes =>
      }
    }
  }

  /** The store after a sequence of inbound (from, text) messages. */
  function Run(s: Store, inbox: seq<(Option<string>, Option<string>)>): Store
    decreases |inbox|
  {
    if |inbox| == 0 then s
    else Run(Post(s, inbox[0].0, inbox[0].1).store, inbox[1..])
  }

  /** Any store the service can reach satisfies the invariant. */
  lemma {:induction false} RunKeepsValid(s: Store, inbox: seq<(Option<string>, Option<string>)>)
    requires Valid(s)
    ensures Valid(Run(s, inbox))
    decreases |inbox|
  {
    if |inbox| > 0 {
      PostKeepsValid(s, inbox[0].0, inbox[0].1);
      RunKeepsValid(Post(s, inbox[0].0, inbox[0].1).store, inbox[1..]);
    }
  }

  lemma ReachableIsValid(inbox: seq<(Option<string>, Option<string>)>)
    ensures Valid(Run(EmptyStore, inbox))
  {
    EmptyStoreValid();
    RunKeepsValid(EmptyStore, inbox);
  }

  // ----------------------------------------------------------- evolution

  /** `t` is a possible successor of `s`: no row is removed, a user row
      changes only its level, match rows and messages are only appended, and
      a request changes only its cursor, which never moves back. */
  predicate Evolves(s: Store, t: Store) {
    && |s.users| <= |t.users|
    && (forall i :: 0 <= i < |s.users| ==> t.users[i].(level := s.users[i].level) == s.users[i])
    && s.details.Keys <= t.details.Keys
    && |s.requests| <= |t.requests|
    && (forall k :: 0 <= k < |s.requests| ==>
          t.requests[k].(offset := s.requests[k].offset) == s.requests[k]
          && s.requests[k].offset <= t.requests[k].offset)
    && s.matches <= t.matches
    && s.messages <= t.messages
  }

  lemma DetailWriteEvolves(s: Store, uid: nat, d: UserDetail, level: Level)
    ensures Evolves(s, s.(details := s.details[uid := d], users := SetLevel(s.users, uid, level)))
  {
  }

  lemma SaveDetailsEvolves(s: Store, user: User, m: string)
    ensures Evolves(s, SaveDetails(s, user, m).store)
  {
    var r := SaveDetails(s, user, m);
    if ParseDetails(m).Parsed? {
      var d := r.store.details[user.id];
      DetailWriteEvolves(s, user.id, d, Details);
      assert r.store == s.(details := s.details[user.id := d],
                           users := SetLevel(s.users, user.id, Details));
    }
  }

  lemma SelfDescribeEvolves(s: Store, user: User, m: string)
    ensures Evolves(s, SelfDescribe(s, user, m).store)
  {
    var r := SelfDescribe(s, user, m);
    if |DescriptionOf(m)| >= MinDescriptionLength {
      var d := r.store.details[user.id];
      DetailWriteEvolves(s, user.id, d, Completed);
      assert r.store == s.(details := s.details[user.id := d],
                           users := SetLevel(s.users, user.id, Completed));
    }
  }

  lemma AppendEvolves(s: Store, reqs: seq<MatchRequest>, rows: seq<ProfileMatch>, msgs: seq<Message>)
    ensures Evolves(s, s.(requests := s.requests + reqs, matches := s.matches + rows,
                          messages := s.messages + msgs))
  {
  }

  lemma RequestMatchesEvolves(s: Store, user: User, m: string)
    ensures Evolves(s, RequestMatches(s, user, m).store)
  {
    var r := RequestMatches(s, user, m);
    if r.outcome.MatchFound? {
      var req := r.store.requests[|s.requests|];
      var rows := r.store.matches[|s.matches|..];
      assert r.store.matches == s.matches + rows;
      assert r.store.requests == s.requests + [req];
      AppendEvolves(s, [req], rows, []);
      assert s.messages + [] == s.messages;
    }
  }

  lemma NextMatchesEvolves(s: Store, user: User)
    requires Valid(s)
    ensures Evolves(s, NextMatches(s, user).store)
  {
    var r := NextMatches(s, user);
    if r.outcome.NextPage? {
      var k := LatestActiveRequest(s.requests, user.id).value;
      assert RequestValid(s, k);
    }
  }

  lemma RequestProfileEvolves(s: Store, user: User, target: string)
    ensures Evolves(s, RequestProfile(s, user, target).store)
  {
    if PhoneTaken(s.users, target) {
      var t := FindUserByPhone(s.users, target).value;
      AppendEvolves(s, [], [], [Message(0, t.id, t.phone)]);
      assert s.requests + [] == s.requests && s.matches + [] == s.matches;
    }
  }

  lemma RegisterEvolves(s: Store, phone: string, m: string)
    ensures Evolves(s, Register(s, phone, m).store)
  {
    var t := Register(s, phone, m).store;
    if Register(s, phone, m).outcome.Registered? {
      forall i | 0 <= i < |s.users|
        ensures t.users[i] == s.users[i]
      {
      }
    }
  }

  lemma HandlerEvolves(s: Store, user: User, c: Command, m: string)
    requires Valid(s) && c != Start && c != Unsupported
    ensures Evolves(s, Dispatch(s, user, c, m).store)
  {
    match c
    case SubmitDetails => SaveDetailsEvolves(s, user, m);
    case Myself => SelfDescribeEvolves(s, user, m);
    case Match => RequestMatchesEvolves(s, user, m);
    case Next => NextMatchesEvolves(s, user);
    case Profile => RequestProfileEvolves(s, user, m);
    case Describe =>
    case Yes =>
  }

  /** On a valid store no message removes a row or moves a cursor back
      (the cursor step is the stored page size, which the invariant fixes at
      3). */
  lemma PostEvolves(s: Store, from: Option<string>, text: Option<string>)
    requires Valid(s)
    ensures Evolves(s, Post(s, from, text).store)
  {
    if Given(from) && Given(text) {
      var phone := from.value;
      var m := Normalize(text.value);
      var c := Classify(m);
      if c == Start {
        RegisterEvolves(s, phone, m);
      } else if c != Unsupported && PhoneTaken(s.users, phone) {
        var user := FindUserByPhone(s.users, phone).value;
        assert Post(s, from, text) == Dispatch(s, user, c, m);
        HandlerEvolves(s, user, c, m);
      }
    }
  }

  // ------------------------------------------------------ consequences

  /** On a valid store the NEXT handler's failure branches are dead: while
      the cursor is below the count a non-empty page is served and every
      row's user exists. */
  lemma NextServesWhileMore(s: Store, user: User)
    requires Valid(s)
    ensures NextMatches(s, user).outcome != NextFailed
    ensures LatestActiveRequest(s.requests, user.id).Some? &&
            HasMoreMatches(s.requests[LatestActiveRequest(s.requests, user.id).value]) ==>
              NextMatches(s, user).outcome.NextPage?
  {
    match LatestActiveRequest(s.requests, user.id)
    case None =>
    case Some(k) =>
      var req := s.requests[k];
      assert RequestValid(s, k);
      var all := RowsOf(s.matches, req.id);
      var rows := PageOf(all, req.offset);
      if HasMoreMatches(req) {
        assert 0 <= req.offset < |all|;
        forall i | 0 <= i < |rows|
          ensures FindUserById(s.users, rows[i].matchedUserId).Some?
        {
          assert rows[i] == all[req.offset + i];
          assert all[req.offset + i] in s.matches;
          var j :| 0 <= j < |s.matches| && s.matches[j] == rows[i];
          FindUserByIdWellFormed(s.users, rows[i].matchedUserId);
        }
      }
  }

  /** On a valid store, describing a `completed` user always returns that
      user's stored self-description. */
  lemma DescribeCompleted(s: Store, m: string, i: nat)
    requires Valid(s) && i < |s.users| && s.users[i].level == Completed
    requires |Words(m)| == 2 && Words(m)[1] == s.users[i].phone
    ensures RequestDescription(s, m).outcome ==
              Described(s.users[i].name, PronounFor(s.users[i].gender),
                        s.details[i + 1].selfDescription.value)
  {
    FindUserByPhoneUnique(s.users, i);
    assert |s.details[i + 1].selfDescription.value| >= MinDescriptionLength;
  }

  /** On a valid store a `basic` user has no detail row, so a profile lookup
      shows no detail line and a describe finds no description. */
  lemma BasicHasNoDetails(s: Store, viewer: User, m: string, i: nat)
    requires Valid(s) && i < |s.users| && s.users[i].level == Basic
    requires |Words(m)| == 2 && Words(m)[1] == s.users[i].phone
    ensures RequestDescription(s, m).outcome == DescribeNoDescription(s.users[i].name)
    ensures RequestProfile(s, viewer, s.users[i].phone).outcome.extras.None?
  {
    FindUserByPhoneUnique(s.users, i);
  }
}
