/**
 * Registration and login of the account controller. Password hashing
 * and token signing are library calls and enter as parameters; the
 * account collection is a sequence searched front to back, as `findOne`
 * returns the first match.
 */
module Accounts {
  import opened Wrappers
  import opened JsText
  import opened JsValues
  import opened RegexEscape

  datatype Account = Account(id: string, username: string, email: string, passwordHash: string)

  /** Outcome of a registration or login request. */
  datatype AuthReply =
    | Registered
    | Token(userId: string, username: string)
    | Rejected(status: int, message: string)
    | ServerError

  const MsgAllFieldsRequired := "All fields are required"
  const MsgAlreadyExists := "User or Email already exists"
  const MsgInvalidCredentials := "Invalid Credentials"

  /** `value?.trim()`: `None` stands for `undefined`; a value that is
      neither absent nor a string has no `trim` and makes the handler throw. */
  datatype Cleaned = Absent | Clean(text: string) | Throws

  function CleanUsername(f: FormField): (r: Cleaned)
    ensures f.Str? ==> r == Clean(Trim(f.s))
    ensures r.Absent? <==> f.Missing?
    ensures r.Throws? <==> !f.Missing? && !f.Str?
  {
    match f
    case Missing => Absent
    case Str(s) => Clean(Trim(s))
    case _ => Throws
  }

  /** `value?.trim().toLowerCase()`. */
  function CleanEmail(f: FormField): (r: Cleaned)
    ensures f.Str? ==> r == Clean(Lower(Trim(f.s)))
    ensures r.Absent? <==> f.Missing?
    ensures r.Throws? <==> !f.Missing? && !f.Str?
  {
    match f
    case Missing => Absent
    case Str(s) => Clean(Lower(Trim(s)))
    case _ => Throws
  }

  predicate Present(c: Cleaned) {
    c.Clean? && c.text != ""
  }

  /** The duplicate query: `^escaped$` with the `i` flag on either field.
      The escaped pattern is purely literal (`EscapeIsLiteral`), so it
      matches exactly the strings equal to the input ignoring case. */
  predicate Clashes(a: Account, username: string, email: string) {
    EqualsIgnoringCase(a.email, email) || EqualsIgnoringCase(a.username, username)
  }

  predicate AnyClash(accounts: seq<Account>, username: string, email: string) {
    exists i :: 0 <= i < |accounts| && Clashes(accounts[i], username, email)
  }

  /** No two accounts share a user name or an e-mail address ignoring case. */
  predicate DistinctAccounts(accounts: seq<Account>) {
    forall i, j :: 0 <= i < j < |accounts| ==>
      !EqualsIgnoringCase(accounts[i].email, accounts[j].email)
      && !EqualsIgnoringCase(accounts[i].username, accounts[j].username)
  }

  /** `registerUser`. */
  function RegisterUser(accounts: seq<Account>, username: FormField, email: FormField, password: FormField,
                        newId: string, hash: string -> string): (r: (AuthReply, seq<Account>))
    ensures r.0 == Registered <==> r.1 != accounts
    ensures r.0 == Registered ==>
      && username.Str? && email.Str? && password.Str?
      && r.1 == accounts + [Account(newId, Trim(username.s), Lower(Trim(email.s)), hash(password.s))]
    ensures r.0 == Registered ==> Trim(username.s) != "" && Lower(Trim(email.s)) != "" && password.s != ""
    ensures r.0 == Registered ==> !AnyClash(accounts, Trim(username.s), Lower(Trim(email.s)))
    ensures (!username.Missing? && !username.Str?) || (!email.Missing? && !email.Str?)
            ==> r == (ServerError, accounts)
    ensures (username.Missing? || username.Str?) && (email.Missing? || email.Str?)
            && (username.Missing? || email.Missing? || Trim(username.s) == "" || Trim(email.s) == "" || !Truthy(password))
            ==> r == (Rejected(400, MsgAllFieldsRequired), accounts)
    ensures username.Str? && email.Str? && Trim(username.s) != "" && Trim(email.s) != "" && Truthy(password)
            ==> if AnyClash(accounts, Trim(username.s), Lower(Trim(email.s))) then r == (Rejected(400, MsgAlreadyExists), accounts)
                else if password.Str? then r.0 == Registered
                else r == (ServerError, accounts)
  {
    var u := CleanUsername(username);
    var e := CleanEmail(email);
    // both fields are normalised before any check, so either one throws
    if u.Throws? || e.Throws? then (ServerError, accounts)
    else if !Present(u) || !Present(e) || !Truthy(password) then
      (Rejected(400, MsgAllFieldsRequired), accounts)
    else if AnyClash(accounts, u.text, e.text) then (Rejected(400, MsgAlreadyExists), accounts)
    else if !password.Str? then (ServerError, accounts)
    else (Registered, accounts + [Account(newId, u.text, e.text, hash(password.s))])
  }

  /** Every field is checked for presence before the store is consulted:
      a blank name or e-mail, or an empty password, is a 400 whatever the
      accounts are. */
  lemma RegisterRequiresAllFields(accounts: seq<Account>, username: string, email: string, password: FormField,
                                  newId: string, hash: string -> string)
    requires Trim(username) == "" || Trim(email) == "" || !Truthy(password)
    ensures RegisterUser(accounts, Str(username), Str(email), password, newId, hash).0
            == Rejected(400, MsgAllFieldsRequired)
  {
  }

  /** Registration keeps names and e-mail addresses distinct. */
  lemma RegisterKeepsDistinct(accounts: seq<Account>, username: FormField, email: FormField, password: FormField,
                              newId: string, hash: string -> string)
    requires DistinctAccounts(accounts)
    ensures DistinctAccounts(RegisterUser(accounts, username, email, password, newId, hash).1)
  {
    var r := RegisterUser(accounts, username, email, password, newId, hash);
    if r.0 == Registered {
      var a := Account(newId, Trim(username.s), Lower(Trim(email.s)), hash(password.s));
      assert r.1 == accounts + [a];
      assert !AnyClash(accounts, a.username, a.email);
      forall i, j | 0 <= i < j < |r.1|
        ensures !EqualsIgnoringCase(r.1[i].email, r.1[j].email)
        ensures !EqualsIgnoringCase(r.1[i].username, r.1[j].username)
      {
        assert r.1[i] == accounts[i];
        if j == |accounts| {
          assert r.1[j] == a;
          assert !Clashes(accounts[i], a.username, a.email);
        } else {
          assert r.1[j] == accounts[j];
        }
      }
    } else {
      assert r.1 == accounts;
    }
  }

  /** Index of the first account whose e-mail matches ignoring case. */
  function FindByEmail(accounts: seq<Account>, email: string): (r: Option<nat>)
    ensures r.Some? ==> r.value < |accounts| && EqualsIgnoringCase(accounts[r.value].email, email)
    ensures r.Some? ==> forall k :: 0 <= k < r.value ==> !EqualsIgnoringCase(accounts[k].email, email)
    ensures r.None? ==> forall k :: 0 <= k < |accounts| ==> !EqualsIgnoringCase(accounts[k].email, email)
  {
    if |accounts| == 0 then None
    else if EqualsIgnoringCase(accounts[0].email, email) then Some(0)
    else match FindByEmail(accounts[1..], email)
      case None => None
      case Some(k) => Some(k + 1)
  }

  /** `loginUser`. A missing field, an unknown e-mail and a wrong password
      all produce the same reply. */
  function LoginUser(accounts: seq<Account>, email: FormField, password: FormField,
                     verify: (string, string) -> bool): (r: AuthReply)
    ensures r.Token? ==>
      exists k :: 0 <= k < |accounts| && accounts[k].id == r.userId && accounts[k].username == r.username
        && email.Str? && password.Str? && EqualsIgnoringCase(accounts[k].email, Lower(Trim(email.s)))
        && verify(password.s, accounts[k].passwordHash)
    ensures r.Rejected? ==> r == Rejected(400, MsgInvalidCredentials)
    ensures !r.Registered?
  {
    var e := CleanEmail(email);
    if e.Throws? then ServerError
    else if !Present(e) || !Truthy(password) then Rejected(400, MsgInvalidCredentials)
    else match FindByEmail(accounts, e.text)
      case None => Rejected(400, MsgInvalidCredentials)
      case Some(k) =>
        if !password.Str? then ServerError
        else if !verify(password.s, accounts[k].passwordHash) then Rejected(400, MsgInvalidCredentials)
        else Token(accounts[k].id, accounts[k].username)
  }

  /** For string inputs the login either issues a token or answers the
      one indistinguishable rejection; it succeeds exactly when some
      account has the e-mail (ignoring case) and the first such account's
      hash accepts the password. */
  lemma LoginOutcomes(accounts: seq<Account>, email: string, password: string, verify: (string, string) -> bool)
    ensures LoginUser(accounts, Str(email), Str(password), verify).Token?
            || LoginUser(accounts, Str(email), Str(password), verify) == Rejected(400, MsgInvalidCredentials)
    ensures LoginUser(accounts, Str(email), Str(password), verify).Token? <==>
            (Lower(Trim(email)) != "" && password != ""
             && FindByEmail(accounts, Lower(Trim(email))).Some?
             && verify(password, accounts[FindByEmail(accounts, Lower(Trim(email))).value].passwordHash))
  {
    var e := Lower(Trim(email));
    var reply := LoginUser(accounts, Str(email), Str(password), verify);
    assert CleanEmail(Str(email)) == Clean(e);
    assert Truthy(Str(password)) <==> password != "";
    if e == "" || password == "" {
      assert reply == Rejected(400, MsgInvalidCredentials);
    } else {
      match FindByEmail(accounts, e)
      case None =>
        assert reply == Rejected(400, MsgInvalidCredentials);
      case Some(k) =>
        if verify(password, accounts[k].passwordHash) {
          assert reply == Token(accounts[k].id, accounts[k].username);
        } else {
          assert reply == Rejected(400, MsgInvalidCredentials);
        }
    }
  }
}
