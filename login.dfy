/**
 * The login form: the ordered guards over the form and the stored
 * credential record, the `token` write on success, and how login relates
 * to a registration that preceded it.
 */
module Login {
  import opened Wrappers
  import opened JsString
  import opened Email
  import opened Storage
  import Auth
  import Register

  datatype LoginForm = LoginForm(email: string, password: string)

  /** The guards, in the order the handler runs them. */
  datatype LoginError = MissingField | InvalidEmail | AccountNotFound | InvalidCredentials

  /** The message each guard reports. */
  function Message(e: LoginError): (text: string)
    ensures |text| > 0
  {
    match e
    case MissingField => "Please fill in all fields"
    case InvalidEmail => "Please enter a valid email address"
    case AccountNotFound => "Account not found. Please register first"
    case InvalidCredentials => "Invalid email or password"
  }

  /** Each guard reports its own text, so the message tells the guards apart. */
  lemma MessageIdentifiesGuard(e1: LoginError, e2: LoginError)
    ensures Message(e1) == Message(e2) <==> e1 == e2
  {
  }

  /** Position of a guard in the chain. */
  function Rank(e: LoginError): nat
  {
    match e
    case MissingField => 0
    case InvalidEmail => 1
    case AccountNotFound => 2
    case InvalidCredentials => 3
  }

  /** Guard `e`, taken on its own, rejects the form. */
  predicate GuardFails(e: LoginError, f: LoginForm, m: Store)
  {
    match e
    case MissingField => f.email == "" || f.password == ""
    case InvalidEmail => !IsValidEmail(f.email)
    case AccountNotFound => !HasValue(m, "userEmail") || !HasValue(m, "userPassword")
    case InvalidCredentials =>
      GetItem(m, "userEmail") != Some(f.email) || GetItem(m, "userPassword") != Some(f.password)
  }

  /** The guard chain of `handleSubmit`: the error of the first guard that fails, if any. */
  function Validate(f: LoginForm, m: Store): (r: Option<LoginError>)
    ensures r.None? <==> forall e :: !GuardFails(e, f, m)
    ensures r.Some? ==> GuardFails(r.value, f, m)
    ensures r.Some? ==> forall e :: Rank(e) < Rank(r.value) ==> !GuardFails(e, f, m)
  {
    if f.email == "" || f.password == "" then assert GuardFails(MissingField, f, m); Some(MissingField)
    else if !IsValidEmail(f.email) then assert GuardFails(InvalidEmail, f, m); Some(InvalidEmail)
    else if !HasValue(m, "userEmail") || !HasValue(m, "userPassword") then
      assert GuardFails(AccountNotFound, f, m); Some(AccountNotFound)
    else if f.email != m["userEmail"] || f.password != m["userPassword"] then
      assert GuardFails(InvalidCredentials, f, m); Some(InvalidCredentials)
    else None
  }

  /** The session token: a random base-36 fragment, passed in as a parameter,
      followed by the clock reading written in base 36. */
  function SessionToken(fragment: string, now: nat): (t: string)
    ensures |t| > 0
  {
    fragment + ToBase36(now)
  }

  /** A submission's effect: the storage writes or the error, and the form afterwards. */
  datatype LoginOutcome = LoginOutcome(result: Result<Store, LoginError>, form: LoginForm)

  /** `handleSubmit`: writes a fresh `token` on success, clears the password field on failure. */
  function Submit(f: LoginForm, m: Store, fragment: string, now: nat): (o: LoginOutcome)
    ensures o.result.Failure? <==> Validate(f, m).Some?
    ensures o.result.Failure? ==> o.result.error == Validate(f, m).value && o.form == LoginForm(f.email, "")
    ensures o.result.Success? ==> o.form == f && o.result.value.Keys == {"token"}
  {
    match Validate(f, m)
    case Some(e) => LoginOutcome(Failure(e), f.(password := ""))
    case None => LoginOutcome(Success(map["token" := SessionToken(fragment, now)]), f)
  }

  /** Storage after a submission: the writes applied on success, unchanged on failure. */
  function StoreAfter(m: Store, o: LoginOutcome): Store
  {
    match o.result
    case Success(w) => m + w
    case Failure(_) => m
  }

  /** Login succeeds exactly when the e-mail has the right shape and both fields equal
      the stored, non-empty credentials. */
  lemma SucceedsIffCredentialsMatch(f: LoginForm, m: Store, fragment: string, now: nat)
    ensures Submit(f, m, fragment, now).result.Success? <==>
      && IsValidEmail(f.email)
      && HasValue(m, "userEmail") && HasValue(m, "userPassword")
      && f.email == m["userEmail"] && f.password == m["userPassword"]
  {
  }

  /** A successful login writes only `token`, leaves the credential record alone and authenticates. */
  lemma SuccessWritesOnlyToken(f: LoginForm, m: Store, fragment: string, now: nat)
    requires Submit(f, m, fragment, now).result.Success?
    ensures var m' := StoreAfter(m, Submit(f, m, fragment, now));
      && m' == m["token" := fragment + ToBase36(now)]
      && (forall k :: k != "token" ==> (k in m' <==> k in m))
      && (forall k :: k in m && k != "token" ==> m'[k] == m[k])
      && Auth.IsAuthenticated(m')
  {
  }

  /** A failed login leaves storage, and so the session, as it was and keeps the e-mail field. */
  lemma FailureKeepsStorage(f: LoginForm, m: Store, fragment: string, now: nat)
    requires Submit(f, m, fragment, now).result.Failure?
    ensures StoreAfter(m, Submit(f, m, fragment, now)) == m
    ensures Submit(f, m, fragment, now).form == LoginForm(f.email, "")
  {
  }

  /** After a successful registration, logging in with the same e-mail and password succeeds. */
  lemma LoginAfterRegister(rf: Register.RegisterForm, m: Store, token: string, fragment: string, now: nat)
    requires Register.Submit(rf, m, token).result.Success?
    ensures var m' := Register.StoreAfter(m, Register.Submit(rf, m, token));
      Submit(LoginForm(rf.email, rf.password), m', fragment, now).result.Success?
  {
    var m' := Register.StoreAfter(m, Register.Submit(rf, m, token));
    Register.SuccessStoresCredentials(rf, m, token);
    ValidEmailNonEmpty(rf.email);
    Utf16LengthZero(rf.password);
    assert HasValue(m', "userEmail") && HasValue(m', "userPassword");
    SucceedsIffCredentialsMatch(LoginForm(rf.email, rf.password), m', fragment, now);
  }

  /** Logout also removes the credential record, so no login can succeed right after it. */
  lemma LoginAfterLogoutRefused(f: LoginForm, m: Store, fragment: string, now: nat)
    ensures Submit(f, Auth.LoggedOut(m), fragment, now).result.Failure?
  {
    var m' := Auth.LoggedOut(m);
    assert !HasValue(m', "userEmail");
    if f.email != "" && f.password != "" && IsValidEmail(f.email) {
      assert Validate(f, m') == Some(AccountNotFound);
    }
  }

  /** With a@b.com / secret1 on record (as registering "Al" leaves it): logging in with
      secret1 authenticates, while "wrong" is refused and leaves storage as it was. */
  lemma ExampleLogins(m: Store, fragment: string, now: nat)
    requires GetItem(m, "userEmail") == Some("a@b.com") && GetItem(m, "userPassword") == Some("secret1")
    ensures Submit(LoginForm("a@b.com", "secret1"), m, fragment, now).result.Success?
    ensures Auth.IsAuthenticated(StoreAfter(m, Submit(LoginForm("a@b.com", "secret1"), m, fragment, now)))
    ensures Submit(LoginForm("a@b.com", "wrong"), m, fragment, now).result == Failure(InvalidCredentials)
    ensures StoreAfter(m, Submit(LoginForm("a@b.com", "wrong"), m, fragment, now)) == m
  {
    ExampleAddressValid();
    assert Validate(LoginForm("a@b.com", "secret1"), m) == None;
    assert Validate(LoginForm("a@b.com", "wrong"), m) == Some(InvalidCredentials);
  }

  /** The page component: its form state, changed in place by `handleSubmit`. */
  class LoginPage {
    var form: LoginForm

    constructor ()
      ensures form == LoginForm("", "")
    {
      form := LoginForm("", "");
    }

    /** `handleSubmit`: run the guards, then either one `setItem('token', …)` or clear the password. */
    method HandleSubmit(ls: LocalStorage, fragment: string, now: nat)
      modifies this, ls
      ensures var o := Submit(old(form), old(ls.items), fragment, now);
        form == o.form && ls.items == StoreAfter(old(ls.items), o)
    {
      if Validate(form, ls.items).None? {
        var token := SessionToken(fragment, now);
        ls.SetItem("token", token);
      } else {
        form := form.(password := "");
      }
    }
  }
}
