/**
 * The three request handlers that write to the collection, as methods that
 * update it in place through `insert_one` and `update_one`, following the
 * order of the original handlers: read with `find_one`, branch, write. Each
 * is proved to leave the table and report the outcome that its specification
 * in `Handlers` gives.
 */
module App {
  import opened Records
  import opened Collection
  import Handlers

  /** POST /register, with `hash` the output of `generate_password_hash(password)`. */
  method Register(c: UserCollection, mobile: string, email: string, hash: string, address: string, number: string)
    modifies c
    ensures c.records == Handlers.Register(old(c.records), mobile, email, hash, address, number)
  {
    c.InsertOne(Handlers.Registration(mobile, email, hash, address, number));
  }

  /**
   * POST /forgot-password, with `token` the output of `token_urlsafe(16)` and
   * `mailSent` whether the SMTP exchange succeeded. The token is stored
   * before mail is attempted and is not withdrawn when sending fails.
   */
  method ForgotPassword(c: UserCollection, email: string, token: string, now: int, mailSent: bool)
    returns (outcome: Handlers.ForgotOutcome)
    modifies c
    ensures c.records == Handlers.ForgotTable(old(c.records), email, token, now)
    ensures outcome == Handlers.ForgotOutcomeOf(old(c.records), email, mailSent)
  {
    var user := FindOne(c.records, ByEmail(email));
    if user.None? {
      return Handlers.EmailNotFound;
    }
    var _ := c.UpdateOne(ByEmail(email), SetResetToken(token, now + Handlers.TokenLifetime));
    outcome := if mailSent then Handlers.LinkSent else Handlers.SendFailed;
  }

  /**
   * GET or POST /reset-password/<token>, with `req.newHash` the output of
   * `generate_password_hash(req.password)`.
   */
  method ResetPassword(c: UserCollection, token: string, now: int, req: Handlers.ResetRequest)
    returns (outcome: Handlers.ResetOutcome)
    requires TokensPaired(c.records)
    modifies c
    ensures Handlers.ResetResult(outcome, c.records) == Handlers.ResetPassword(old(c.records), token, now, req)
    ensures TokensPaired(c.records)
  {
    var user := FindOne(c.records, ByResetToken(token));
    if user.None? {
      return Handlers.InvalidToken;
    }
    if user.value.resetExpiry.value < now {
      return Handlers.TokenExpired;
    }
    if req.Visit? {
      return Handlers.FormShown;
    }
    if req.password != req.confirm {
      return Handlers.PasswordsDiffer;
    }
    if |req.password| < Handlers.MinPasswordLength {
      return Handlers.PasswordTooShort;
    }
    var _ := c.UpdateOne(ByResetToken(token), SetPasswordClearToken(req.newHash));
    outcome := Handlers.PasswordChanged;
  }
}
