/**
 * A client of the handlers: one user goes through registration, a reset
 * request, a reset and a login on a fresh collection, then tries the used
 * link again. Only the handlers' contracts are used to show the outcomes.
 */
module Scenario {
  import opened Records
  import opened Collection
  import Handlers
  import App

  method ResetFlow(verify: (string, string) -> bool, mailSent: bool)
    returns (asked: Handlers.ForgotOutcome, reset: Handlers.ResetOutcome,
             login: Handlers.LoginOutcome, reuse: Handlers.ResetOutcome)
    requires verify("h2", "secret2")
    ensures asked == (if mailSent then Handlers.LinkSent else Handlers.SendFailed)
    ensures reset == Handlers.PasswordChanged
    ensures login == Handlers.LoggedIn
    ensures reuse == Handlers.InvalidToken
  {
    var c := new UserCollection();
    App.Register(c, "0700", "a@example.com", "h1", "Nairobi", "AB1");
    asked := App.ForgotPassword(c, "a@example.com", "tok", 1000, mailSent);
    reset := App.ResetPassword(c, "tok", 1000 + Handlers.TokenLifetime, Handlers.Submit("secret2", "secret2", "h2"));
    login := Handlers.Login(c.records, "a@example.com", "secret2", verify);
    reuse := App.ResetPassword(c, "tok", 1001, Handlers.Submit("secret2", "secret2", "h3"));
  }
}
