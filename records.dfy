/**
 * The documents of the `user_registrations` collection and the part of the
 * document database's query semantics the handlers rely on: a filter on one
 * field, `find_one` and `update_one` acting on the FIRST matching document in
 * insertion order, and the two `$set`/`$unset` updates the handlers issue.
 */
module Records {
  import opened Wrappers
  import opened Text

  /** One user document. `resetToken` and `resetExpiry` are absent outside a reset flow. */
  datatype Record = Record(
    email: string,
    passwordHash: string,
    mobile: string,
    address: string,
    registrationNumber: string,
    resetToken: Option<string>,
    resetExpiry: Option<int>)

  /** The single-field query documents the handlers pass to the database. */
  datatype Filter =
    | ByEmail(email: string)
    | ByRegistrationNumber(number: string)
    | ByResetToken(token: string)
    | ByRegistrationNumberIgnoringCase(number: string)  // a case-insensitive comparison

  /** An equality filter matches a document whose field is present and equal. */
  predicate Matches(r: Record, f: Filter) {
    match f
    case ByEmail(e) => r.email == e
    case ByRegistrationNumber(n) => r.registrationNumber == n
    case ByResetToken(t) => r.resetToken == Some(t)
    case ByRegistrationNumberIgnoringCase(n) => Upper(r.registrationNumber) == Upper(n)
  }

  /** Index i holds the first document of `rs` that `f` matches. */
  predicate IsFirst(rs: seq<Record>, f: Filter, i: int) {
    0 <= i < |rs| && Matches(rs[i], f) && forall j :: 0 <= j < i ==> !Matches(rs[j], f)
  }

  predicate NoMatch(rs: seq<Record>, f: Filter) {
    forall j :: 0 <= j < |rs| ==> !Matches(rs[j], f)
  }

  /** The position of the document that `find_one` and `update_one` select. */
  function FirstMatch(rs: seq<Record>, f: Filter): (k: Option<nat>)
    ensures k.Some? ==> IsFirst(rs, f, k.value)
    ensures k.None? <==> NoMatch(rs, f)
  {
    if |rs| == 0 then None
    else if Matches(rs[0], f) then Some(0)
    else match FirstMatch(rs[1..], f)
      case None => None
      case Some(k) => Some(k + 1)
  }

  /** `find_one`: the first matching document, if any. */
  function FindOne(rs: seq<Record>, f: Filter): (r: Option<Record>)
    ensures r.None? <==> NoMatch(rs, f)
    ensures r.Some? ==> exists i :: IsFirst(rs, f, i) && rs[i] == r.value
  {
    match FirstMatch(rs, f)
    case None => None
    case Some(i) => Some(rs[i])
  }

  /** The update documents the handlers pass to `update_one`. */
  datatype Update =
    | SetResetToken(token: string, expiry: int)   // $set both token fields
    | SetPasswordClearToken(hash: string)         // $set the hash, $unset both token fields

  function Apply(r: Record, u: Update): Record {
    match u
    case SetResetToken(t, x) => r.(resetToken := Some(t), resetExpiry := Some(x))
    case SetPasswordClearToken(h) => r.(passwordHash := h, resetToken := None, resetExpiry := None)
  }

  /** The table after `update_one(f, u)`: only the first match changes. */
  function UpdateFirst(rs: seq<Record>, f: Filter, u: Update): (rs': seq<Record>)
    ensures |rs'| == |rs|
    ensures NoMatch(rs, f) ==> rs' == rs
    ensures forall i :: IsFirst(rs, f, i) ==>
      rs'[i] == Apply(rs[i], u) && forall j :: 0 <= j < |rs| && j != i ==> rs'[j] == rs[j]
  {
    match FirstMatch(rs, f)
    case None => rs
    case Some(i) => rs[i := Apply(rs[i], u)]
  }

  /** The reset token and its expiry are present together or absent together. */
  predicate Paired(r: Record) {
    r.resetToken.Some? <==> r.resetExpiry.Some?
  }

  predicate TokensPaired(rs: seq<Record>) {
    forall i :: 0 <= i < |rs| ==> Paired(rs[i])
  }

  /** No two documents hold the same reset token. */
  predicate TokensUnique(rs: seq<Record>) {
    forall i, j :: 0 <= i < |rs| && 0 <= j < |rs| && rs[i].resetToken.Some? && rs[i].resetToken == rs[j].resetToken ==> i == j
  }

  /** No document holds token t. */
  predicate Unheld(rs: seq<Record>, t: string) {
    NoMatch(rs, ByResetToken(t))
  }
}
