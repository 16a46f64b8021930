/**
 * The registration form: a random 32-character token, the ordered chain of
 * validation guards, and what a submission writes to storage and to the
 * form.
 */
module Register {
  import opened Wrappers
  import opened JsString
  import opened Email
  import opened Storage

  const TokenLength: nat := 32
  const TokenAlphabet: string := "ABCDEFGHIJKLMNOPQRSTUVWXYZabcdefghijklmnopqrstuvwxyz0123456789"

  /** The 32 draws of `Math.floor(Math.random() * 62)`, each an index into the alphabet. */
  predicate ValidDraws(draws: seq<nat>)
  {
    |draws| == TokenLength && forall i :: 0 <= i < |draws| ==> draws[i] < |TokenAlphabet|
  }

  /** The token the draws select, one alphabet character per draw. */
  function TokenFor(draws: seq<nat>): (t: string)
    requires ValidDraws(draws)
    ensures |t| == TokenLength
    ensures forall i :: 0 <= i < |t| ==> t[i] in TokenAlphabet
  {
    seq(TokenLength, i requires 0 <= i < TokenLength => TokenAlphabet[draws[i]])
  }

  /** `generateToken()`: appends one alphabet character per draw, 32 times. */
  method GenerateToken(draws: seq<nat>) returns (token: string)
    requires ValidDraws(draws)
    ensures token == TokenFor(draws)
    ensures |token| == TokenLength && forall i :: 0 <= i < |token| ==> token[i] in TokenAlphabet
  {
    token := "";
    for i := 0 to TokenLength
      invariant |token| == i
      invariant forall j :: 0 <= j < i ==> token[j] == TokenAlphabet[draws[j]]
    {
      token := token + [TokenAlphabet[draws[i]]];
    }
  }

  datatype RegisterForm = RegisterForm(name: string, email: string, password: string, confirmPassword: string)

  /** The guards, in the order the handler runs them. */
  datatype RegisterError = InvalidName | InvalidEmail | EmailTaken | ShortPassword | PasswordMismatch

  /** The message each guard reports. */
  function Message(e: RegisterError): (text: string)
    ensures |text| > 0
  {
    match e
    case InvalidName => "Please enter a valid name (minimum 2 characters)"
    case InvalidEmail => "Please enter a valid email address"
    case EmailTaken => "Email already registered. Please login instead"
    case ShortPassword => "Password must be at least 6 characters long"
    case PasswordMismatch => "Passwords do not match"
  }

  /** Each guard reports its own text, so the message tells the guards apart. */
  lemma MessageIdentifiesGuard(e1: RegisterError, e2: RegisterError)
    ensures Message(e1) == Message(e2) <==> e1 == e2
  {
  }

  /** Position of a guard in the chain. */
  function Rank(e: RegisterError): nat
  {
    match e
    case InvalidName => 0
    case InvalidEmail => 1
    case EmailTaken => 2
    case ShortPassword => 3
    case PasswordMismatch => 4
  }

  /** Guard `e`, taken on its own, rejects the form. */
  predicate GuardFails(e: RegisterError, f: RegisterForm, m: Store)
  {
    match e
    case InvalidName => Utf16Length(f.name) < 2
    case InvalidEmail => !IsValidEmail(f.email)
    case EmailTaken => GetItem(m, "userEmail") == Some(f.email)
    case ShortPassword => Utf16Length(f.password) < 6
    case PasswordMismatch => f.password != f.confirmPassword
  }

  /** The guard chain of `handleSubmit`: the error of the first guard that fails, if any. */
  function Validate(f: RegisterForm, m: Store): (r: Option<RegisterError>)
    ensures r.None? <==> forall e :: !GuardFails(e, f, m)
    ensures r.Some? ==> GuardFails(r.value, f, m)
    ensures r.Some? ==> forall e :: Rank(e) < Rank(r.value) ==> !GuardFails(e, f, m)
  {
    if Utf16Length(f.name) < 2 then assert GuardFails(InvalidName, f, m); Some(InvalidName)
    else if !IsValidEmail(f.email) then assert GuardFails(InvalidEmail, f, m); Some(InvalidEmail)
    else if GetItem(m, "userEmail") == Some(f.email) then assert GuardFails(EmailTaken, f, m); Some(EmailTaken)
    else if Utf16Length(f.password) < 6 then assert GuardFails(ShortPassword, f, m); Some(ShortPassword)
    else if f.password != f.confirmPassword then assert GuardFails(PasswordMismatch, f, m); Some(PasswordMismatch)
    else None
  }

  /** The five `setItem` calls of a successful registration, as key/value pairs. */
  function Writes(f: RegisterForm, token: string): (w: Store)
    ensures w.Keys == {"userToken", "token", "userEmail", "userPassword", "userName"}
    ensures w["userToken"] == w["token"] == token
    ensures w["userEmail"] == f.email && w["userPassword"] == f.password && w["userName"] == f.name
  {
    map["userToken" := token, "token" := token, "userEmail" := f.email,
        "userPassword" := f.password, "userName" := f.name]
  }

  /** Applying the writes at once equals the five `setItem` calls in source order. */
  lemma WritesAreSetItems(m: Store, f: RegisterForm, token: string)
    ensures m + Writes(f, token) ==
      m["userToken" := token]["token" := token]["userEmail" := f.email]
       ["userPassword" := f.password]["userName" := f.name]
  {
  }

  /** A submission's effect: the storage writes or the error, and the form afterwards. */
  datatype RegisterOutcome = RegisterOutcome(result: Result<Store, RegisterError>, form: RegisterForm)

  /** `handleSubmit` with the generated token: writes on success, clears both password fields on failure. */
  function Submit(f: RegisterForm, m: Store, token: string): (o: RegisterOutcome)
    ensures o.result.Failure? <==> Validate(f, m).Some?
    ensures o.result.Failure? ==> o.result.error == Validate(f, m).value
    ensures o.result.Failure? ==> o.form == RegisterForm(f.name, f.email, "", "")
    ensures o.result.Success? ==> o.form == f
  {
    match Validate(f, m)
    case Some(e) => RegisterOutcome(Failure(e), f.(password := "", confirmPassword := ""))
    case None => RegisterOutcome(Success(Writes(f, token)), f)
  }

  /** Storage after a submission: the writes applied on success, unchanged on failure. */
  function StoreAfter(m: Store, o: RegisterOutcome): Store
  {
    match o.result
    case Success(w) => m + w
    case Failure(_) => m
  }

  /** On success both token keys hold the same token and the credentials hold the form's values; nothing else changes. */
  lemma SuccessStoresCredentials(f: RegisterForm, m: Store, token: string)
    requires Submit(f, m, token).result.Success?
    ensures var m' := StoreAfter(m, Submit(f, m, token));
      && m'.Keys == m.Keys + {"userToken", "token", "userEmail", "userPassword", "userName"}
      && m'["userToken"] == token && m'["token"] == token
      && m'["userEmail"] == f.email && m'["userPassword"] == f.password && m'["userName"] == f.name
      && forall k :: k in m && k !in {"userToken", "token", "userEmail", "userPassword", "userName"} ==> m'[k] == m[k]
  {
  }

  /** On failure storage is untouched and only the password fields are cleared. */
  lemma FailureKeepsStorage(f: RegisterForm, m: Store, token: string)
    requires Submit(f, m, token).result.Failure?
    ensures StoreAfter(m, Submit(f, m, token)) == m
    ensures Submit(f, m, token).form.name == f.name && Submit(f, m, token).form.email == f.email
    ensures Submit(f, m, token).form.password == "" && Submit(f, m, token).form.confirmPassword == ""
  {
  }

  /** Registering an e-mail already on record is refused once the name and e-mail pass, and the session is kept. */
  lemma DuplicateEmailRejected(f: RegisterForm, m: Store, token: string)
    requires Utf16Length(f.name) >= 2 && IsValidEmail(f.email)
    requires "userEmail" in m && m["userEmail"] == f.email
    ensures Submit(f, m, token).result == Failure(EmailTaken)
    ensures StoreAfter(m, Submit(f, m, token)) == m
  {
  }

  /** Registering "Al" with a@b.com / secret1 on storage without an account succeeds. */
  lemma ExampleRegistration(m: Store, token: string)
    requires "userEmail" !in m
    ensures var f := RegisterForm("Al", "a@b.com", "secret1", "secret1");
      && Submit(f, m, token).result.Success?
      && GetItem(StoreAfter(m, Submit(f, m, token)), "userEmail") == Some("a@b.com")
      && GetItem(StoreAfter(m, Submit(f, m, token)), "userPassword") == Some("secret1")
  {
    ExampleAddressValid();
    assert Utf16Length("Al") == 2 by {
      assert "Al"[..1] == "A" && "A"[..0] == "";
    }
    assert Utf16Length("secret1") >= |"secret1"|;
    var f := RegisterForm("Al", "a@b.com", "secret1", "secret1");
    assert Validate(f, m) == None;
    SuccessStoresCredentials(f, m, token);
  }

  /** The page component: its form state, changed in place by `handleSubmit`. */
  class RegisterPage {
    var form: RegisterForm

    constructor ()
      ensures form == RegisterForm("", "", "", "")
    {
      form := RegisterForm("", "", "", "");
    }

    /** `handleSubmit`: run the guards, then either five `setItem` calls or clear the password fields. */
    method HandleSubmit(ls: LocalStorage, draws: seq<nat>)
      requires ValidDraws(draws)
      modifies this, ls
      ensures var o := Submit(old(form), old(ls.items), TokenFor(draws));
        form == o.form && ls.items == StoreAfter(old(ls.items), o)
    {
      if Validate(form, ls.items).None? {
        var token := GenerateToken(draws);
        ls.SetItem("userToken", token);
        ls.SetItem("token", token);
        ls.SetItem("userEmail", form.email);
        ls.SetItem("userPassword", form.password);
        ls.SetItem("userName", form.name);
        WritesAreSetItems(old(ls.items), form, token);
      } else {
        form := form.(password := "", confirmPassword := "");
      }
    }
  }
}
