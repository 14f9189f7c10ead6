/**
 * What each request handler does to the collection, as functions of the table
 * before the request. The clock (`now`, in seconds), the generated reset token,
 * the password hash produced by the hasher and the outcome of sending mail are
 * parameters; `check_password_hash` is the parameter `verify`.
 */
module Handlers {
  import opened Wrappers
  import opened Text
  import opened Records

  /** A reset token is valid for one hour after it is issued. */
  const TokenLifetime := 3600

  /** A new password shorter than this is refused on reset. */
  const MinPasswordLength := 6

  // ---------------------------------------------------------------- login

  datatype LoginOutcome = UserNotFound | InvalidPassword | LoggedIn

  /**
   * POST /login. The first document with the email decides; the table is
   * read, never written.
   */
  function Login(rs: seq<Record>, email: string, password: string, verify: (string, string) -> bool): (o: LoginOutcome)
    ensures o == UserNotFound <==> forall j :: 0 <= j < |rs| ==> rs[j].email != email
    ensures o == LoggedIn <==>
      exists i :: IsFirst(rs, ByEmail(email), i) && verify(rs[i].passwordHash, password)
    ensures o == InvalidPassword <==>
      exists i :: IsFirst(rs, ByEmail(email), i) && !verify(rs[i].passwordHash, password)
  {
    match FindOne(rs, ByEmail(email))
    case None => UserNotFound
    case Some(user) => if verify(user.passwordHash, password) then LoggedIn else InvalidPassword
  }

  // ------------------------------------------------------------- register

  /** The document POST /register inserts: the form fields as typed, the hash, no token fields. */
  function Registration(mobile: string, email: string, hash: string, address: string, number: string): Record {
    Record(email, hash, mobile, address, number, None, None)
  }

  /**
   * POST /register appends one document, whether or not the email is already
   * registered. Documents already present keep their places, so every query
   * that already had an answer keeps it.
   */
  function Register(rs: seq<Record>, mobile: string, email: string, hash: string, address: string, number: string)
    : (rs': seq<Record>)
    ensures |rs'| == |rs| + 1 && rs'[..|rs|] == rs
    ensures rs'[|rs|].email == email && rs'[|rs|].passwordHash == hash && rs'[|rs|].mobile == mobile
    ensures rs'[|rs|].address == address && rs'[|rs|].registrationNumber == number
    ensures rs'[|rs|].resetToken.None? && rs'[|rs|].resetExpiry.None?
    ensures TokensPaired(rs) ==> TokensPaired(rs')
    ensures TokensUnique(rs) ==> TokensUnique(rs')
    ensures forall f :: !NoMatch(rs, f) ==> FirstMatch(rs', f) == FirstMatch(rs, f)
  {
    rs + [Registration(mobile, email, hash, address, number)]
  }

  // --------------------------------------------------------------- lookup

  /**
   * POST /success: the first document whose registration number equals the
   * upper-cased query. Since the query is upper-cased and the stored number
   * is not, a document whose number holds a lower-case letter is never found.
   */
  function Lookup(rs: seq<Record>, number: string): (r: Option<Record>)
    ensures r.None? <==> forall j :: 0 <= j < |rs| ==> rs[j].registrationNumber != Upper(number)
    ensures r.Some? ==> exists i :: IsFirst(rs, ByRegistrationNumber(Upper(number)), i) && rs[i] == r.value
    ensures r.Some? ==> !HasLower(r.value.registrationNumber)
  {
    UpperHasNoLower(number);
    FindOne(rs, ByRegistrationNumber(Upper(number)))
  }

  /**
   * Lookup as the registration-number comparison evidently intends it: both
   * the stored number and the query are upper-cased, so the case in which
   * either was typed does not matter.
   */
  function LookupIgnoringCase(rs: seq<Record>, number: string): (r: Option<Record>)
    ensures r.None? <==> forall j :: 0 <= j < |rs| ==> Upper(rs[j].registrationNumber) != Upper(number)
    ensures r.Some? ==>
      exists i :: 0 <= i < |rs| && rs[i] == r.value &&
        Upper(rs[i].registrationNumber) == Upper(number) &&
        forall j :: 0 <= j < i ==> Upper(rs[j].registrationNumber) != Upper(number)
  {
    FindOne(rs, ByRegistrationNumberIgnoringCase(number))
  }

  // ------------------------------------------------------ forgot password

  datatype ForgotOutcome = EmailNotFound | LinkSent | SendFailed

  /**
   * The table after POST /forgot-password: the first document with the email
   * gets the token and an expiry one hour from now; nothing else changes. The
   * mail outcome is not an argument: it cannot affect the table.
   */
  function ForgotTable(rs: seq<Record>, email: string, token: string, now: int): (rs': seq<Record>)
    ensures |rs'| == |rs|
    ensures NoMatch(rs, ByEmail(email)) ==> rs' == rs
    ensures forall i :: IsFirst(rs, ByEmail(email), i) ==>
      rs'[i] == rs[i].(resetToken := Some(token), resetExpiry := Some(now + TokenLifetime)) &&
      forall j :: 0 <= j < |rs| && j != i ==> rs'[j] == rs[j]
    ensures TokensPaired(rs) ==> TokensPaired(rs')
    ensures TokensUnique(rs) && Unheld(rs, token) ==> TokensUnique(rs')
  {
    UpdateFirst(rs, ByEmail(email), SetResetToken(token, now + TokenLifetime))
  }

  /** The message POST /forgot-password reports. */
  function ForgotOutcomeOf(rs: seq<Record>, email: string, mailSent: bool): (o: ForgotOutcome)
    ensures o == EmailNotFound <==> NoMatch(rs, ByEmail(email))
    ensures o == LinkSent <==> !NoMatch(rs, ByEmail(email)) && mailSent
    ensures o == SendFailed <==> !NoMatch(rs, ByEmail(email)) && !mailSent
  {
    if FindOne(rs, ByEmail(email)).None? then EmailNotFound
    else if mailSent then LinkSent
    else SendFailed
  }

  // ------------------------------------------------------- reset password

  /** A GET visit to the reset link, or a POST of the new password, its confirmation and its hash. */
  datatype ResetRequest = Visit | Submit(password: string, confirm: string, newHash: string)

  datatype ResetOutcome = InvalidToken | TokenExpired | PasswordsDiffer | PasswordTooShort | FormShown | PasswordChanged

  datatype ResetResult = ResetResult(outcome: ResetOutcome, table: seq<Record>)

  /** The first holder of `token`, at index i, has a token that has not expired at `now`. */
  predicate LiveHolder(rs: seq<Record>, token: string, now: int, i: int)
    requires TokensPaired(rs)
  {
    IsFirst(rs, ByResetToken(token), i) && !(rs[i].resetExpiry.value < now)
  }

  /**
   * GET/POST /reset-password/<token>: the checks run in order (unknown token,
   * expired, confirmation differs, too short); only a request that passes all
   * of them writes, and it writes the first holder of the token only.
   */
  function ResetPassword(rs: seq<Record>, token: string, now: int, req: ResetRequest): (res: ResetResult)
    requires TokensPaired(rs)
    ensures res.outcome == InvalidToken <==> Unheld(rs, token)
    ensures res.outcome == TokenExpired <==>
      exists i :: IsFirst(rs, ByResetToken(token), i) && rs[i].resetExpiry.value < now
    ensures res.outcome == FormShown <==>
      req.Visit? && exists i :: LiveHolder(rs, token, now, i)
    ensures res.outcome == PasswordsDiffer <==>
      req.Submit? && req.password != req.confirm && exists i :: LiveHolder(rs, token, now, i)
    ensures res.outcome == PasswordTooShort <==>
      req.Submit? && req.password == req.confirm && |req.password| < MinPasswordLength &&
      exists i :: LiveHolder(rs, token, now, i)
    ensures res.outcome == PasswordChanged <==>
      req.Submit? && req.password == req.confirm && |req.password| >= MinPasswordLength &&
      exists i :: LiveHolder(rs, token, now, i)
    ensures res.outcome != PasswordChanged ==> res.table == rs
    ensures res.outcome == PasswordChanged ==>
      |res.table| == |rs| &&
      forall i :: IsFirst(rs, ByResetToken(token), i) ==>
        res.table[i] == rs[i].(passwordHash := req.newHash, resetToken := None, resetExpiry := None) &&
        forall j :: 0 <= j < |rs| && j != i ==> res.table[j] == rs[j]
    ensures TokensPaired(res.table)
    ensures TokensUnique(rs) ==> TokensUnique(res.table)
  {
    match FirstMatch(rs, ByResetToken(token))
    case None => ResetResult(InvalidToken, rs)
    case Some(i) =>
      assert LiveHolder(rs, token, now, i) <==> !(rs[i].resetExpiry.value < now);
      if rs[i].resetExpiry.value < now then ResetResult(TokenExpired, rs)
      else match req
        case Visit => ResetResult(FormShown, rs)
        case Submit(password, confirm, newHash) =>
          if password != confirm then ResetResult(PasswordsDiffer, rs)
          else if |password| < MinPasswordLength then ResetResult(PasswordTooShort, rs)
          else ResetResult(PasswordChanged, UpdateFirst(rs, ByResetToken(token), SetPasswordClearToken(newHash)))
  }
}
