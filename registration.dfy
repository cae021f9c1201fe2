/** The registration chain of routes/register.js (`router.post('/')`): a
    presence check, the password requirement, then the insert of the new
    member and the mapping of the store's answer to an HTTP response.
    Express's `next()` becomes "the stage returns no response"; the store,
    the salt and the hash function are parameters. */
module Registration {
  import opened Wrappers
  import opened PasswordPolicy

  /** The four body fields; `None` is a field that is absent, undefined or null. */
  datatype Request = Request(first: Option<string>, last: Option<string>,
                             email: Option<string>, password: Option<string>)

  /** The positional insert handed to the store. */
  datatype Insert = Insert(query: string, values: seq<string>)

  /** What the store answers: the email of the inserted row, or an error
      whose `constraint` and `detail` may be undefined. */
  datatype StoreResult =
    | InsertOk(email: string)
    | InsertErr(constraint: Option<string>, detail: Option<string>)

  datatype Body =
    | Created(success: bool, email: string)
    | Failed(message: Option<string>)

  datatype Response = Response(status: int, body: Body)

  /** The insert the chain built, if it got that far, and the response sent. */
  datatype Outcome = Outcome(insert: Option<Insert>, response: Response)

  const InsertQuery: string :=
    "INSERT INTO MEMBERS(FirstName, LastName, Email, Password, Salt) VALUES ($1, $2, $3, $4, $5) RETURNING Email"

  const EmailKeyConstraint: string := "members_email_key"

  const MissingInformation: Response := Response(400, Failed(Some("Missing required information")))

  /** `isProvided` is not part of this model; this is the behaviour the
      source's own comment assumes of it: empty strings and null are absent. */
  predicate Provided(v: Option<string>) {
    v.Some? && v.value != ""
  }

  predicate AllProvided(req: Request) {
    Provided(req.first) && Provided(req.last) && Provided(req.email) && Provided(req.password)
  }

  /** First handler: `None` means `next()`. */
  function PresenceCheck(req: Request): Option<Response> {
    if AllProvided(req) then None else Some(MissingInformation)
  }

  /** Second handler: `None` means `next()`. */
  function PasswordRequirement(password: string): Option<Response> {
    match CheckPassword(password)
    case Accepted => None
    case Rejected(message) => Some(Response(400, Failed(Some(message))))
  }

  function BuildInsert(req: Request, salt: string, hash: (string, string) -> string): Insert
    requires AllProvided(req)
  {
    Insert(InsertQuery, [req.first.value, req.last.value, req.email.value,
                         hash(req.password.value, salt), salt])
  }

  /** The `then`/`catch` of the store call. */
  function MapStoreResult(result: StoreResult): Response {
    match result
    case InsertOk(email) => Response(201, Created(true, email))
    case InsertErr(constraint, detail) =>
      if constraint == Some(EmailKeyConstraint) then Response(400, Failed(Some("Email exists")))
      else Response(400, Failed(detail))
  }

  /** Third handler: it checks presence again before inserting. */
  function InsertMember(req: Request, salt: string, hash: (string, string) -> string,
                        store: Insert -> StoreResult): Outcome
  {
    if AllProvided(req) then
      var ins := BuildInsert(req, salt, hash);
      Outcome(Some(ins), MapStoreResult(store(ins)))
    else
      Outcome(None, MissingInformation)
  }

  /** The whole chain: the first handler that answers decides the response. */
  function Register(req: Request, salt: string, hash: (string, string) -> string,
                    store: Insert -> StoreResult): Outcome
  {
    match PresenceCheck(req)
    case Some(response) => Outcome(None, response)
    case None =>
      match PasswordRequirement(req.password.value)
      case Some(response) => Outcome(None, response)
      case None => InsertMember(req, salt, hash, store)
  }

  /** Stage 1 passes and stage 2 passes: the two conditions for an insert. */
  predicate PassesValidation(req: Request) {
    AllProvided(req) && Acceptable(req.password.value)
  }

  // ---------------------------------------------------------------------
  // Properties of the chain.

  /** Any missing field is reported as missing information, and nothing is inserted. */
  lemma MissingFieldRejected(req: Request, salt: string, hash: (string, string) -> string,
                             store: Insert -> StoreResult)
    requires !AllProvided(req)
    ensures Register(req, salt, hash, store) == Outcome(None, MissingInformation)
  {
  }

  /** A present but weak password is reported with the message of the first
      rule, in the order length, capital, digit, that it breaks; that message
      names no other rule, and nothing is inserted. */
  lemma WeakPasswordRejected(req: Request, salt: string, hash: (string, string) -> string,
                             store: Insert -> StoreResult)
    requires AllProvided(req) && !Acceptable(req.password.value)
    ensures FirstFailing(Rules, req.password.value).Some?
    ensures Register(req, salt, hash, store)
            == Outcome(None, Response(400, Failed(Some(RuleMessage(FirstFailing(Rules, req.password.value).value)))))
    ensures forall rule :: Register(req, salt, hash, store).response.body == Failed(Some(RuleMessage(rule)))
              ==> rule == FirstFailing(Rules, req.password.value).value
  {
    var password := req.password.value;
    FirstFailingRuleReported(password);
    AcceptedIff(password);
    forall rule | Register(req, salt, hash, store).response.body == Failed(Some(RuleMessage(rule)))
      ensures rule == FirstFailing(Rules, password).value
    {
      MessagesIdentifyRule(rule, FirstFailing(Rules, password).value);
    }
  }

  /** An insert is attempted exactly when both validation stages pass. */
  lemma InsertIffValid(req: Request, salt: string, hash: (string, string) -> string,
                       store: Insert -> StoreResult)
    ensures Register(req, salt, hash, store).insert.Some? <==> PassesValidation(req)
  {
    if AllProvided(req) {
      AcceptedIff(req.password.value);
    }
  }

  /** Once the first handler has passed the request on, the third handler's
      own presence check holds as well, so its missing-information branch is
      dead code for the chain. */
  lemma RecheckAlwaysPasses(req: Request, salt: string, hash: (string, string) -> string,
                            store: Insert -> StoreResult)
    requires PresenceCheck(req) == None
    ensures InsertMember(req, salt, hash, store).insert.Some?
    ensures PassesValidation(req) ==> Register(req, salt, hash, store) == InsertMember(req, salt, hash, store)
  {
    AcceptedIff(req.password.value);
  }

  /** The values are bound in column order: first, last, email, the salted
      hash of the password, the salt. */
  lemma InsertValuesInOrder(req: Request, salt: string, hash: (string, string) -> string,
                            store: Insert -> StoreResult)
    requires Register(req, salt, hash, store).insert.Some?
    ensures AllProvided(req)
    ensures Register(req, salt, hash, store).insert.value
            == Insert(InsertQuery, [req.first.value, req.last.value, req.email.value,
                                    hash(req.password.value, salt), salt])
  {
  }

  /** For a valid request the response is decided by the store alone: 201
      with the stored email, "Email exists" for the email constraint, or the
      store's own detail for any other error. */
  lemma StoreAnswerMapped(req: Request, salt: string, hash: (string, string) -> string,
                          store: Insert -> StoreResult)
    requires PassesValidation(req)
    ensures var ins := Insert(InsertQuery, [req.first.value, req.last.value, req.email.value,
                                            hash(req.password.value, salt), salt]);
            var r := Register(req, salt, hash, store).response;
            && (store(ins).InsertOk? ==> r == Response(201, Created(true, store(ins).email)))
            && ((store(ins).InsertErr? && store(ins).constraint == Some(EmailKeyConstraint))
                ==> r == Response(400, Failed(Some("Email exists"))))
            && ((store(ins).InsertErr? && store(ins).constraint != Some(EmailKeyConstraint))
                ==> r == Response(400, Failed(store(ins).detail)))
  {
    AcceptedIff(req.password.value);
  }

  /** Status 201 is sent exactly when the request is valid and the store
      accepted the row; every other outcome is a 400. */
  lemma CreatedIffStored(req: Request, salt: string, hash: (string, string) -> string,
                         store: Insert -> StoreResult)
    ensures var o := Register(req, salt, hash, store);
            && (o.response.status == 201 <==> PassesValidation(req) && store(BuildInsert(req, salt, hash)).InsertOk?)
            && (o.response.status != 201 ==> o.response.status == 400 && o.response.body.Failed?)
            && (o.response.status == 201 ==> o.response.body.success)
  {
    if AllProvided(req) {
      AcceptedIff(req.password.value);
    }
  }

  /** The chain never chooses the documented "Username exists" message
      itself: it can only be the store's own error detail passed through. */
  lemma NoUsernameExistsMessage(req: Request, salt: string, hash: (string, string) -> string,
                                store: Insert -> StoreResult)
    requires Register(req, salt, hash, store).response.body == Failed(Some("Username exists"))
    ensures PassesValidation(req)
    ensures store(BuildInsert(req, salt, hash)).InsertErr?
    ensures store(BuildInsert(req, salt, hash)).detail == Some("Username exists")
    ensures store(BuildInsert(req, salt, hash)).constraint != Some(EmailKeyConstraint)
  {
    AcceptedIff(req.password.value);
  }
}
