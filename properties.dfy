/**
 * Properties that relate several requests: what a later request sees after an
 * earlier one, and the single-use lifecycle of a reset token
 * (no token -> token active -> no token, with the expiry as a guard).
 */
module Properties {
  import opened Wrappers
  import opened Text
  import opened Records
  import opened Handlers

  /**
   * Registering an email that no document holds, then logging in with it,
   * succeeds exactly for the passwords that the stored hash verifies.
   */
  lemma RegisterThenLogin(rs: seq<Record>, mobile: string, email: string, hash: string, address: string,
                          number: string, password: string, verify: (string, string) -> bool)
    requires NoMatch(rs, ByEmail(email))
    ensures Login(Register(rs, mobile, email, hash, address, number), email, password, verify) ==
      if verify(hash, password) then LoggedIn else InvalidPassword
  {
  }

  /**
   * Registration does not reject an email that is already registered, and the
   * new document is shadowed: login keeps answering from the earlier one.
   */
  lemma DuplicateRegistrationIsShadowed(rs: seq<Record>, mobile: string, email: string, hash: string,
                                        address: string, number: string, password: string,
                                        verify: (string, string) -> bool)
    requires !NoMatch(rs, ByEmail(email))
    ensures |Register(rs, mobile, email, hash, address, number)| == |rs| + 1
    ensures Login(Register(rs, mobile, email, hash, address, number), email, password, verify) ==
      Login(rs, email, password, verify)
  {
  }

  /**
   * A forgot-password request for a known email with a token no document
   * holds makes that token lead to the document: a matching, long enough
   * password submitted up to and including the expiry second changes it, and
   * one submitted after it is refused as expired.
   */
  lemma ForgotThenReset(rs: seq<Record>, email: string, token: string, issued: int, now: int, req: ResetRequest)
    requires TokensPaired(rs) && Unheld(rs, token) && !NoMatch(rs, ByEmail(email))
    requires req.Submit? && req.password == req.confirm && |req.password| >= MinPasswordLength
    ensures TokensPaired(ForgotTable(rs, email, token, issued))
    ensures ResetPassword(ForgotTable(rs, email, token, issued), token, now, req).outcome ==
      if now <= issued + TokenLifetime then PasswordChanged else TokenExpired
  {
  }

  /**
   * A reset is single-use: when no two documents share a token, a successful
   * reset leaves no document holding it, and every later request with it is
   * refused as an invalid token.
   */
  lemma ResetIsSingleUse(rs: seq<Record>, token: string, now: int, req: ResetRequest,
                         later: int, next: ResetRequest)
    requires TokensPaired(rs) && TokensUnique(rs)
    requires ResetPassword(rs, token, now, req).outcome == PasswordChanged
    ensures Unheld(ResetPassword(rs, token, now, req).table, token)
    ensures ResetPassword(ResetPassword(rs, token, now, req).table, token, later, next).outcome == InvalidToken
  {
  }

  /**
   * A refused submission (confirmation differs, password too short) or a
   * plain visit leaves the token active: a matching, long enough password
   * submitted at the same time is then accepted.
   */
  lemma RejectedResetKeepsTokenActive(rs: seq<Record>, token: string, now: int, req: ResetRequest, retry: ResetRequest)
    requires TokensPaired(rs)
    requires ResetPassword(rs, token, now, req).outcome in {PasswordsDiffer, PasswordTooShort, FormShown}
    requires retry.Submit? && retry.password == retry.confirm && |retry.password| >= MinPasswordLength
    ensures ResetPassword(rs, token, now, req).table == rs
    ensures ResetPassword(ResetPassword(rs, token, now, req).table, token, now, retry).outcome == PasswordChanged
  {
  }

  /**
   * After a successful reset of a document that is the first one with its
   * email, login with that email accepts exactly the passwords the new hash
   * verifies; the old password works only if the new hash verifies it too.
   */
  lemma ResetThenLogin(rs: seq<Record>, token: string, now: int, req: ResetRequest, i: int,
                       password: string, verify: (string, string) -> bool)
    requires TokensPaired(rs)
    requires IsFirst(rs, ByResetToken(token), i) && IsFirst(rs, ByEmail(rs[i].email), i)
    requires ResetPassword(rs, token, now, req).outcome == PasswordChanged
    ensures Login(ResetPassword(rs, token, now, req).table, rs[i].email, password, verify) ==
      if verify(req.newHash, password) then LoggedIn else InvalidPassword
  {
  }

  /**
   * The whole flow: a token issued to a known email, used before it expires
   * with a matching, long enough password, leaves a table in which login
   * with that email accepts exactly the passwords the new hash verifies.
   */
  lemma ForgotResetThenLogin(rs: seq<Record>, email: string, token: string, issued: int, now: int,
                             req: ResetRequest, password: string, verify: (string, string) -> bool)
    requires TokensPaired(rs) && Unheld(rs, token) && !NoMatch(rs, ByEmail(email))
    requires req.Submit? && req.password == req.confirm && |req.password| >= MinPasswordLength
    requires now <= issued + TokenLifetime
    ensures Login(ResetPassword(ForgotTable(rs, email, token, issued), token, now, req).table, email, password, verify) ==
      if verify(req.newHash, password) then LoggedIn else InvalidPassword
  {
  }

  /**
   * Asking again for a reset replaces the active token: with tokens unique
   * and a fresh new token, the old token no longer leads anywhere.
   */
  lemma NewTokenRevokesOld(rs: seq<Record>, email: string, oldToken: string, token: string, issued: int,
                           now: int, req: ResetRequest)
    requires TokensPaired(rs) && TokensUnique(rs) && Unheld(rs, token)
    requires exists i :: IsFirst(rs, ByEmail(email), i) && rs[i].resetToken == Some(oldToken)
    ensures Unheld(ForgotTable(rs, email, token, issued), oldToken)
    ensures ResetPassword(ForgotTable(rs, email, token, issued), oldToken, now, req).outcome == InvalidToken
  {
  }

  /**
   * The lookup as written misses a document whose registration number was
   * typed in lower case, whatever case the query uses; the corrected lookup
   * finds it.
   */
  lemma LookupMissesLowerCaseNumber()
    ensures var r := Registration("0700", "a@example.com", "h", "Nairobi", "ab1");
      Lookup([r], "ab1") == None && Lookup([r], "AB1") == None &&
      LookupIgnoringCase([r], "ab1") == Some(r)
  {
  }

  /**
   * With the corrected lookup, a registered number is found by a query typed
   * in any case, unless an earlier document has the same number up to case.
   */
  lemma RegisteredNumberIsFoundIgnoringCase(rs: seq<Record>, mobile: string, email: string, hash: string,
                                            address: string, number: string, query: string)
    requires Upper(query) == Upper(number)
    requires forall j :: 0 <= j < |rs| ==> Upper(rs[j].registrationNumber) != Upper(number)
    ensures LookupIgnoringCase(Register(rs, mobile, email, hash, address, number), query) ==
      Some(Registration(mobile, email, hash, address, number))
  {
  }
}
