/** The login page: its two-rule `validateForm` over the three form fields, the credentials
    object it submits, and what it does with the handler's answer. */
module LoginForm {
  import opened JsValues
  import opened Passwords
  import opened Session
  import opened Navigation
  import opened Pages

  const AllFieldsRequired := "Todos os campos são obrigatórios"
  const InvalidEmail := "Email inválido"
  const BadCredentials := "Credenciais inválidas"

  /** The rules in source order: all three fields filled, then an email holding '@' and '.'. */
  function LoginRules(email: string, password: string, userType: string): seq<Rule>
  {
    [Rule(email != "" && password != "" && userType != "", AllFieldsRequired),
     Rule('@' in email && '.' in email, InvalidEmail)]
  }

  /** `validateForm`: None when the form may be submitted, otherwise the message shown. */
  function ValidateLogin(email: string, password: string, userType: string): (r: Option<string>)
    ensures r == FirstFailing(LoginRules(email, password, userType))
  {
    if email == "" || password == "" || userType == "" then
      FirstFailingIs(LoginRules(email, password, userType), 0);
      Some(AllFieldsRequired)
    else if !('@' in email) || !('.' in email) then
      FirstFailingIs(LoginRules(email, password, userType), 1);
      Some(InvalidEmail)
    else None
  }

  /** Which message wins: an empty field is reported before a malformed email, and the form
      passes exactly when both rules hold. */
  lemma LoginMessages(email: string, password: string, userType: string)
    ensures ValidateLogin(email, password, userType) == Some(AllFieldsRequired) <==>
              email == "" || password == "" || userType == ""
    ensures ValidateLogin(email, password, userType) == Some(InvalidEmail) <==>
              email != "" && password != "" && userType != "" && ('@' !in email || '.' !in email)
    ensures ValidateLogin(email, password, userType).None? <==>
              email != "" && password != "" && userType != "" && '@' in email && '.' in email
  {
    var rules := LoginRules(email, password, userType);
    if !rules[0].holds {
      FirstFailingIs(rules, 0);
    } else if !rules[1].holds {
      FirstFailingIs(rules, 1);
    }
  }

  /** The object passed to `login`. */
  function Credentials(email: string, password: string, userType: string): (c: Doc)
    ensures Get(c, "email") == Str(email) && Get(c, "password") == Str(password)
    ensures Get(c, "userType") == Str(userType)
    ensures c.Keys == {"email", "password", "userType"}
  {
    map["email" := Str(email), "password" := Str(password), "userType" := Str(userType)]
  }

  /** The submit handler's last step: the role's dashboard on success, otherwise the
      handler's message, or 'Credenciais inválidas' when it is empty. */
  function AfterLogin(userType: string, result: Reply<Doc>): (o: Outcome)
    ensures result.Ok? ==> o == GoTo("dashboard/" + userType + "/dashboard")
    ensures result.Fail? ==> o == ShowError(OrElse(result.message, BadCredentials))
  {
    match result
    case Ok(_) => GoTo("dashboard/" + userType + "/dashboard")
    case Fail(message) => ShowError(OrElse(message, BadCredentials))
  }

  /** A form that passes validation submits credentials the database guards let through:
      the email can match a stored one, and bcrypt decides the password against any
      non-empty stored hash that is a string, and rejects only a stored hash that is not. */
  lemma ValidatedLoginReachesBcrypt(b: Bcrypt, email: string, password: string, userType: string, hash: Value)
    requires ValidateLogin(email, password, userType).None?
    requires Truthy(hash)
    ensures var c := Credentials(email, password, userType);
            Get(c, "email") != Undefined && Get(c, "userType") != Str("") &&
            ComparePassword(b, Get(c, "password"), hash) ==
              if hash.Str? then Some(b.compare(password, hash.s)) else None
  {
    LoginMessages(email, password, userType);
  }

  /** Every failure the login handler reports is shown as it is: none is empty, so the
      'Credenciais inválidas' fallback never appears for them. */
  lemma HandlerFailuresShown(users: seq<Records.Account>, b: Bcrypt, credentials: Doc, userType: string)
    requires Authenticate(users, b, credentials).Fail?
    ensures AfterLogin(userType, Fail(Authenticate(users, b, credentials).message)) ==
              ShowError(Authenticate(users, b, credentials).message)
  {
  }

  /** After a successful login, `navigate-to` loads the role's dashboard file with no cache
      bypass, for any user type without a '?'. */
  lemma LoginLandsOnDashboard(userType: string, session: Doc)
    requires '?' !in userType
    ensures AfterLogin(userType, Ok(session)).GoTo?
    ensures NavigateTo(AfterLogin(userType, Ok(session)).page) ==
              Load("src/pages/dashboard/" + userType + "/dashboard.html", false, false)
  {
    var page := "dashboard/" + userType + "/dashboard";
    assert page == "dashboard/" + userType + "/dashboard";
    assert '?' !in page by {
      assert forall i :: 0 <= i < |page| ==> page[i] == '?' ==> false by {
        forall i | 0 <= i < |page| ensures page[i] != '?' {
          if i < 10 { assert page[i] == "dashboard/"[i]; }
          else if i < 10 + |userType| { assert page[i] == userType[i - 10]; }
          else { assert page[i] == "/dashboard"[i - 10 - |userType|]; }
        }
      }
    }
    PlainPage(page);
    assert "src/pages/" + page + ".html" == "src/pages/dashboard/" + userType + "/dashboard.html";
  }
}
