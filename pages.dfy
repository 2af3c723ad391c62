/** What the renderer pages share: a validator as a chain of rules where the first failing
    rule's message is shown, the `message || fallback` idiom, and what a page does next. */
module Pages {
  import opened JsValues

  /** One early-return check of a `validateForm`: whether it passes, and the message shown
      when it does not. */
  datatype Rule = Rule(holds: bool, message: string)

  /** The message of the first rule that fails, or None when every rule passes. */
  function FirstFailing(rules: seq<Rule>): (r: Option<string>)
    ensures r.None? <==> forall i :: 0 <= i < |rules| ==> rules[i].holds
    ensures r.Some? ==> exists k :: 0 <= k < |rules| && !rules[k].holds && rules[k].message == r.value &&
                                    forall i :: 0 <= i < k ==> rules[i].holds
  {
    if rules == [] then None
    else if !rules[0].holds then Some(rules[0].message)
    else
      var rest := FirstFailing(rules[1..]);
      assert forall i :: 1 <= i < |rules| ==> rules[i] == rules[1..][i - 1];
      rest
  }

  /** A failing rule preceded only by passing rules decides the message, whatever follows. */
  lemma {:induction false} FirstFailingIs(rules: seq<Rule>, k: nat)
    requires k < |rules| && !rules[k].holds
    requires forall i :: 0 <= i < k ==> rules[i].holds
    ensures FirstFailing(rules) == Some(rules[k].message)
  {
    if k > 0 {
      assert rules[0].holds;
      assert forall i :: 0 <= i < k - 1 ==> rules[1..][i].holds by {
        forall i | 0 <= i < k - 1 ensures rules[1..][i].holds {
          assert rules[1..][i] == rules[i + 1];
        }
      }
      FirstFailingIs(rules[1..], k - 1);
    }
  }

  /** `message || fallback` on a string. */
  function OrElse(message: string, fallback: string): (r: string)
    ensures message != "" ==> r == message
    ensures message == "" ==> r == fallback
  {
    if message != "" then message else fallback
  }

  /** What a page does after a handler answers: load another page, or show a message. */
  datatype Outcome = GoTo(page: string) | ShowError(message: string)

  /** A dashboard's opening check on `getUserData()`: no session, or one whose `userType` is
      not the dashboard's role, sends the user back to the login page. */
  function RoleGuard(user: Option<Doc>, role: string): (o: Option<Outcome>)
    ensures o.Some? <==> user.None? || Get(user.value, "userType") != Str(role)
    ensures o.Some? ==> o.value == GoTo("auth/login")
  {
    if user.None? || Get(user.value, "userType") != Str(role) then Some(GoTo("auth/login")) else None
  }
}
