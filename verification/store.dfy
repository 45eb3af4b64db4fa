/**
  The in-memory store standing in for the relational database: the five
  tables in creation order (the detail table as a map keyed by its unique
  user id), the lookups the handlers run against them, and the invariant the
  engine keeps.
*/
module Storage {
  import opened Text
  import opened Models
  import opened Pagination

  datatype Store = Store(
    users: seq<User>,
    details: map<nat, UserDetail>,
    requests: seq<MatchRequest>,
    matches: seq<ProfileMatch>,
    messages: seq<Message>)

  const EmptyStore := Store([], map[], [], [], [])

  predicate PhoneTaken(users: seq<User>, phone: string) {
    exists i :: 0 <= i < |users| && users[i].phone == phone
  }

  /** `User.query.filter_by(phone_number=phone).first()`. */
  function FindUserByPhone(users: seq<User>, phone: string): (r: Option<User>)
    ensures r.Some? <==> PhoneTaken(users, phone)
    ensures r.Some? ==> r.value in users && r.value.phone == phone
    ensures forall i :: (0 <= i < |users| && users[i].phone == phone &&
              (forall j :: 0 <= j < i ==> users[j].phone != phone)) ==> r == Some(users[i])
    decreases |users|
  {
    if |users| == 0 then None
    else if users[0].phone == phone then Some(users[0])
    else
      var r := FindUserByPhone(users[1..], phone);
      assert forall i :: 1 <= i < |users| ==> users[1..][i - 1] == users[i];
      r
  }

  /** Primary-key lookup of a user (the `matched_user` relationship). */
  function FindUserById(users: seq<User>, id: nat): (r: Option<User>)
    ensures r.Some? <==> exists i :: 0 <= i < |users| && users[i].id == id
    ensures r.Some? ==> r.value in users && r.value.id == id
    decreases |users|
  {
    if |users| == 0 then None
    else if users[0].id == id then Some(users[0])
    else
      var r := FindUserById(users[1..], id);
      assert forall i :: 1 <= i < |users| ==> users[1..][i - 1] == users[i];
      r
  }

  predicate OwnedActive(r: MatchRequest, userId: nat) {
    r.userId == userId && r.active
  }

  /** The most recently created active request of a user (the query ordered
      by creation time, newest first), as an index into `requests`. */
  function LatestActiveRequest(requests: seq<MatchRequest>, userId: nat): (k: Option<nat>)
    ensures k.None? <==> forall j :: 0 <= j < |requests| ==> !OwnedActive(requests[j], userId)
    ensures k.Some? ==> k.value < |requests| && OwnedActive(requests[k.value], userId)
    ensures k.Some? ==> forall j :: k.value < j < |requests| ==> !OwnedActive(requests[j], userId)
  {
    LatestBelow(requests, userId, |requests|)
  }

  /** The user's last active request among the first `n`. */
  function LatestBelow(requests: seq<MatchRequest>, userId: nat, n: nat): (k: Option<nat>)
    requires n <= |requests|
    ensures k.None? <==> forall j :: 0 <= j < n ==> !OwnedActive(requests[j], userId)
    ensures k.Some? ==> k.value < n && OwnedActive(requests[k.value], userId)
    ensures k.Some? ==> forall j :: k.value < j < n ==> !OwnedActive(requests[j], userId)
    decreases n
  {
    if n == 0 then None
    else if OwnedActive(requests[n - 1], userId) then Some(n - 1)
    else LatestBelow(requests, userId, n - 1)
  }

  /** The match rows of one request, in insertion order (RowsOfSelects and
      RowsOfAppend state which rows and in what order). */
  function RowsOf(matches: seq<ProfileMatch>, requestId: nat): (rows: seq<ProfileMatch>)
    ensures |rows| <= |matches|
    ensures forall i :: 0 <= i < |rows| ==> rows[i] in matches && rows[i].requestId == requestId
    ensures (forall j :: 0 <= j < |matches| ==> matches[j].requestId != requestId) ==> rows == []
    decreases |matches|
  {
    if |matches| == 0 then []
    else
      var rest := RowsOf(matches[1..], requestId);
      if matches[0].requestId == requestId then [matches[0]] + rest else rest
  }

  /** Every row returned belongs to the request, every row of the request is
      returned, and a single row is kept exactly when it belongs. */
  lemma {:induction false} RowsOfSelects(matches: seq<ProfileMatch>, requestId: nat)
    ensures forall j :: 0 <= j < |matches| ==>
              (matches[j] in RowsOf(matches, requestId) <==> matches[j].requestId == requestId)
    ensures |matches| == 1 ==>
              RowsOf(matches, requestId) == (if matches[0].requestId == requestId then matches else [])
    decreases |matches|
  {
    if |matches| > 0 {
      var rest := RowsOf(matches[1..], requestId);
      RowsOfSelects(matches[1..], requestId);
      forall j | 0 <= j < |matches|
        ensures matches[j] in RowsOf(matches, requestId) <==> matches[j].requestId == requestId
      {
        if j > 0 {
          assert matches[j] == matches[1..][j - 1];
        }
      }
    }
  }

  /** Selecting rows distributes over appending rows. */
  lemma {:induction false} RowsOfAppend(a: seq<ProfileMatch>, b: seq<ProfileMatch>, requestId: nat)
    ensures RowsOf(a + b, requestId) == RowsOf(a, requestId) + RowsOf(b, requestId)
    decreases |a|
  {
    if |a| > 0 {
      RowsOfAppend(a[1..], b, requestId);
      assert (a + b)[1..] == a[1..] + b;
    } else {
      assert a + b == b;
    }
  }

  /** Rows that all belong to one request are selected whole. */
  lemma {:induction false} RowsOfUniform(rows: seq<ProfileMatch>, requestId: nat)
    requires forall i :: 0 <= i < |rows| ==> rows[i].requestId == requestId
    ensures RowsOf(rows, requestId) == rows
    decreases |rows|
  {
    if |rows| > 0 {
      RowsOfUniform(rows[1..], requestId);
      assert rows == [rows[0]] + rows[1..];
    }
  }

  /** The rows of a request hold positions 0..total-1 in order. */
  predicate RowsFit(rows: seq<ProfileMatch>, total: int) {
    |rows| == total && forall p :: 0 <= p < |rows| ==> rows[p].position == p
  }

  predicate UsersWellFormed(users: seq<User>) {
    && (forall i :: 0 <= i < |users| ==> users[i].id == i + 1 && 18 <= users[i].age <= 80)
    && (forall i, j :: 0 <= i < j < |users| ==> users[i].phone != users[j].phone)
  }

  /** Detail rows belong to users; a user has a detail row exactly when past
      the `basic` stage, and a `completed` user has a self-description. */
  predicate DetailsAgree(s: Store) {
    && (forall uid :: uid in s.details ==> 1 <= uid <= |s.users|)
    && (forall uid :: uid in s.details && s.details[uid].selfDescription.Some? ==>
          |s.details[uid].selfDescription.value| >= MinDescriptionLength)
    && (forall i :: 0 <= i < |s.users| ==> (s.users[i].level == Basic <==> i + 1 !in s.details))
    && (forall i :: 0 <= i < |s.users| && s.users[i].level == Completed ==>
          i + 1 in s.details && s.details[i + 1].selfDescription.Some?)
  }

  predicate RequestValid(s: Store, k: nat)
    requires k < |s.requests|
  {
    var r := s.requests[k];
    && r.id == k + 1
    && 1 <= r.userId <= |s.users|
    && r.active
    && r.total >= 1
    && CursorInvariant(r)
    && RowsFit(RowsOf(s.matches, r.id), r.total)
  }

  predicate RowsValid(s: Store) {
    forall j :: 0 <= j < |s.matches| ==>
      1 <= s.matches[j].requestId <= |s.requests| && 1 <= s.matches[j].matchedUserId <= |s.users|
  }

  predicate MessagesValid(s: Store) {
    forall j :: 0 <= j < |s.messages| ==>
      s.messages[j].senderId == 0 && 1 <= s.messages[j].recipientId <= |s.users|
  }

  /** The invariant every store reachable from the empty one satisfies. */
  predicate Valid(s: Store) {
    && UsersWellFormed(s.users)
    && DetailsAgree(s)
    && (forall k: nat :: k < |s.requests| ==> RequestValid(s, k))
    && RowsValid(s)
    && MessagesValid(s)
  }

  lemma EmptyStoreValid()
    ensures Valid(EmptyStore)
  {
  }

  /** In a well-formed user table the user with id `i + 1` is `users[i]`. */
  lemma FindUserByIdWellFormed(users: seq<User>, id: nat)
    requires UsersWellFormed(users)
    ensures 1 <= id <= |users| ==> FindUserById(users, id) == Some(users[id - 1])
    ensures !(1 <= id <= |users|) ==> FindUserById(users, id) == None
  {
    if 1 <= id <= |users| {
      assert users[id - 1].id == id;
    }
  }

  /** With unique phone numbers, the phone lookup finds the one user holding
      that phone. */
  lemma FindUserByPhoneUnique(users: seq<User>, i: nat)
    requires UsersWellFormed(users) && i < |users|
    ensures FindUserByPhone(users, users[i].phone) == Some(users[i])
  {
    forall j | 0 <= j < i
      ensures users[j].phone != users[i].phone
    {
    }
  }
}
