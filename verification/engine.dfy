/**
  `SMSProcessor.post`: one inbound (from, text) pair is one step of the
  store. Missing fields are refused before any parsing; the text is
  normalised and classified; every command but `start#` needs a registered
  sender; the selected handler produces the new store and the reply.
*/
module Engine {
  import opened Text
  import opened Models
  import opened Storage
  import opened Outcomes
  import opened Commands
  import opened Handlers

  /** The errors `post` reports itself, all with status 400. */
  datatype Rejection = MissingField | NotRegistered | UnsupportedCommand

  /** `Reply` is a dispatched command (status "success", 200); `Refused` an
      error (status "error", 400); `Crashed` an uncaught exception, which the
      web framework turns into a 500. */
  datatype Response = Reply(outcome: Outcome) | Refused(reason: Rejection) | Crashed

  datatype Exchange = Exchange(store: Store, response: Response)

  function StatusCode(r: Response): (code: int)
    ensures code == 200 <==> r.Reply?
    ensures code == 400 <==> r.Refused?
    ensures code == 500 <==> r.Crashed?
  {
    match r
    case Reply(_) => 200
    case Refused(_) => 400
    case Crashed => 500
  }

  /** A JSON field counts as given when present and non-empty. */
  predicate Given(field: Option<string>) {
    field.Some? && field.value != ""
  }

  function AsReply(step: Step): Exchange {
    Exchange(step.store, Reply(step.outcome))
  }

  /** The handler a registered sender's command goes to: each command
      reaches its own handler and replies with that handler's outcome;
      `yes` alone crashes, and neither it nor `describe` writes. */
  function Dispatch(s: Store, user: User, c: Command, m: string): (r: Exchange)
    requires c != Start && c != Unsupported
    ensures c == SubmitDetails ==> r == AsReply(SaveDetails(s, user, m))
    ensures c == Myself ==> r == AsReply(SelfDescribe(s, user, m))
    ensures c == Match ==> r == AsReply(RequestMatches(s, user, m))
    ensures c == Next ==> r == AsReply(NextMatches(s, user))
    ensures c == Profile ==> r == AsReply(RequestProfile(s, user, m))
    ensures c == Describe ==> r == AsReply(RequestDescription(s, m))
    ensures c == Yes <==> r.response.Crashed?
    ensures c == Yes || c == Describe ==> r.store == s
  {
    match c
    case SubmitDetails => AsReply(SaveDetails(s, user, m))
    case Myself => AsReply(SelfDescribe(s, user, m))
    case Match => AsReply(RequestMatches(s, user, m))
    case Next => AsReply(NextMatches(s, user))
    case Profile => AsReply(RequestProfile(s, user, m))
    case Describe => AsReply(RequestDescription(s, m))
    // `handle_interest_confirmation` is not defined on the processor
    case Yes => Exchange(s, Crashed)
  }

  /** One inbound message. */
  function Post(s: Store, from: Option<string>, text: Option<string>): (r: Exchange)
    ensures !Given(from) || !Given(text) ==> r == Exchange(s, Refused(MissingField))
    ensures Given(from) && Given(text) ==>
      var phone := from.value;
      var m := Normalize(text.value);
      var c := Classify(m);
      && (c == Unsupported ==> r == Exchange(s, Refused(UnsupportedCommand)))
      && (c == Start ==> r == AsReply(Register(s, phone, m)))
      && (c != Start && c != Unsupported && !PhoneTaken(s.users, phone) ==>
            r == Exchange(s, Refused(NotRegistered)))
      && (c != Start && c != Unsupported && PhoneTaken(s.users, phone) ==>
            r == Dispatch(s, FindUserByPhone(s.users, phone).value, c, m))
    ensures r.store != s ==> r.response.Reply?
  {
    if !Given(from) || !Given(text) then Exchange(s, Refused(MissingField))
    else
      var phone := from.value;
      var m := Normalize(text.value);
      var c := Classify(m);
      if c == Unsupported then Exchange(s, Refused(UnsupportedCommand))
      else if c == Start then AsReply(Register(s, phone, m))
      else match FindUserByPhone(s.users, phone)
        case None => Exchange(s, Refused(NotRegistered))
        case Some(user) => Dispatch(s, user, c, m)
  }

  /** The HTTP status of an inbound message: 400 exactly when a field is
      missing, the command is unknown, or a command other than `start#`
      comes from an unregistered phone; 500 exactly when a registered sender
      says `yes`; 200 otherwise. */
  lemma PostStatus(s: Store, from: Option<string>, text: Option<string>)
    ensures var code := StatusCode(Post(s, from, text).response);
      && (code == 400 <==>
            !Given(from) || !Given(text)
            || Classify(Normalize(text.value)) == Unsupported
            || (Classify(Normalize(text.value)) != Start && !PhoneTaken(s.users, from.value)))
      && (code == 500 <==>
            Given(from) && Given(text) && Classify(Normalize(text.value)) == Yes
            && PhoneTaken(s.users, from.value))
      && (code == 200 <==> Post(s, from, text).response.Reply?)
  {
    if Given(from) && Given(text) {
      var c := Classify(Normalize(text.value));
      if c != Start && c != Unsupported && PhoneTaken(s.users, from.value) {
        var user := FindUserByPhone(s.users, from.value).value;
        assert Post(s, from, text) == Dispatch(s, user, c, Normalize(text.value));
      }
    }
  }
}
