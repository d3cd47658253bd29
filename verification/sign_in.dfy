/**
 * The sign-in screen's decision logic (`sign-in/index.tsx`): what pressing
 * "Next" does for a given email and request outcome, and the guard on typing
 * while a request is in flight. The network, router, toasts and state setters
 * appear only as the effects the screen emits, in order.
 */
module SignIn {
  import opened Wrappers
  import SingleSessionProvider

  /** The email that skips the code and signs in directly. */
  const AdminEmail: string := "admin@hnshmc.org"

  /** The session value stored by the admin shortcut. */
  const AdminSession: string := "admin"

  const EmailRequired: string := "Email is required"
  const EmailNotFound: string := "Email not found"
  const SendFailed: string := "Failed to send code"

  /** The lower case of an ASCII letter; every other character is left as is. */
  function AsciiLower(c: char): char {
    if 'A' <= c <= 'Z' then (c as int + 32) as char else c
  }

  /**
   * `s.toLowerCase()`, restricted to ASCII letters: each capital becomes the
   * letter 32 code points above it, every other character stays, and no
   * capital is left.
   */
  function ToLower(s: string): (r: string)
    ensures |r| == |s|
    ensures forall i :: 0 <= i < |s| && 'A' <= s[i] <= 'Z' ==> r[i] as int == s[i] as int + 32
    ensures forall i :: 0 <= i < |s| && !('A' <= s[i] <= 'Z') ==> r[i] == s[i]
    ensures forall i :: 0 <= i < |r| ==> !('A' <= r[i] <= 'Z')
  {
    seq(|s|, i requires 0 <= i < |s| => AsciiLower(s[i]))
  }

  /**
   * `email.toLowerCase() === 'admin@hnshmc.org'`: the address itself is
   * recognised, and anything recognised has its length and differs from it
   * at most by capitalised letters.
   */
  function IsAdminEmail(email: string): (b: bool)
    ensures email == AdminEmail ==> b
    ensures b ==> |email| == |AdminEmail|
    ensures b ==> forall i :: 0 <= i < |email| ==>
                    email[i] == AdminEmail[i] || ('a' <= AdminEmail[i] <= 'z' && email[i] as int == AdminEmail[i] as int - 32)
  {
    ToLower(email) == AdminEmail
  }

  /** A 2xx status: `response.ok`. */
  predicate IsOk(status: int) {
    200 <= status <= 299
  }

  /** How the `send-code` request ended: a response with a status, or a thrown error. */
  datatype Outcome = Responded(status: int) | Threw

  /** What the screen does to the outside world and to its own state, in order. */
  datatype Effect =
    | Toast(message: string)
    | SignInAs(session: string)
    | DismissAll
    | ReplaceHome
    | PostSendCode(email: string)
    | PushVerify(email: string)
    | SetLoading(on: bool)

  /** The screen's state: the typed email (`undefined` before any typing) and the `loading` flag. */
  datatype Screen = Screen(email: Option<string>, loading: bool)

  /** `!email`: nothing typed yet, or an empty string. */
  predicate IsMissing(email: Option<string>) {
    email.None? || email.value == ""
  }

  /**
   * The effect of a finished request: navigation to the verify route with the
   * email exactly after a 2xx, otherwise a toast, which names a missing email
   * exactly for a 404.
   */
  function Respond(email: string, outcome: Outcome): (e: Effect)
    ensures e.PushVerify? <==> outcome.Responded? && IsOk(outcome.status)
    ensures e.PushVerify? ==> e.email == email
    ensures !e.PushVerify? ==> e.Toast? && e.message in {EmailNotFound, SendFailed}
    ensures e == Toast(EmailNotFound) <==> outcome == Responded(404)
  {
    match outcome
    case Threw => Toast(SendFailed)
    case Responded(status) =>
      if IsOk(status) then PushVerify(email)
      else if status == 404 then Toast(EmailNotFound)
      else Toast(SendFailed)
  }

  /** The `loading` flag after some effects: the last `SetLoading` wins, none leaves it as it was. */
  function LoadingAfter(loading: bool, es: seq<Effect>): bool
    decreases |es|
  {
    if |es| == 0 then loading
    else if es[|es| - 1].SetLoading? then es[|es| - 1].on
    else LoadingAfter(loading, es[..|es| - 1])
  }

  /** Effects that never set `loading` leave it as it was. */
  lemma {:induction false} LoadingUntouched(loading: bool, es: seq<Effect>)
    requires forall i :: 0 <= i < |es| ==> !es[i].SetLoading?
    ensures LoadingAfter(loading, es) == loading
    decreases |es|
  {
    if |es| > 0 {
      LoadingUntouched(loading, es[..|es| - 1]);
    }
  }

  /** Some effect is the `send-code` request. */
  predicate MakesRequest(es: seq<Effect>) {
    exists i :: 0 <= i < |es| && es[i].PostSendCode?
  }

  /**
   * `sendCode()` for the current screen, whether the router can dismiss, and how
   * the request would end. A request is made exactly for a present, non-admin
   * email; it carries that email, `loading` is on while it is in flight and off
   * afterwards whatever the outcome; without a request `loading` is never set.
   * Navigation to the verify route only follows a 2xx and carries the same email.
   */
  function SendCode(screen: Screen, canDismiss: bool, outcome: Outcome): (es: seq<Effect>)
    ensures MakesRequest(es) <==> !IsMissing(screen.email) && !IsAdminEmail(screen.email.value)
    ensures forall i :: 0 <= i < |es| && es[i].PostSendCode? ==>
              Some(es[i].email) == screen.email && LoadingAfter(screen.loading, es[..i])
    ensures MakesRequest(es) ==> !LoadingAfter(screen.loading, es)
    ensures !MakesRequest(es) ==> forall i :: 0 <= i < |es| ==> !es[i].SetLoading?
    ensures forall i :: 0 <= i < |es| && es[i].PushVerify? ==>
              Some(es[i].email) == screen.email && outcome.Responded? && IsOk(outcome.status)
  {
    if IsMissing(screen.email) then
      [Toast(EmailRequired)]
    else
      var email := screen.email.value;
      if IsAdminEmail(email) then
        [SignInAs(AdminSession)] + (if canDismiss then [DismissAll] else []) + [ReplaceHome]
      else
        var es := [SetLoading(true), PostSendCode(email), Respond(email, outcome), SetLoading(false)];
        assert es[..1] == [SetLoading(true)];
        assert es[1].PostSendCode?;
        es
  }

  /** The screen after `sendCode()` has run to completion. */
  function AfterSendCode(screen: Screen, canDismiss: bool, outcome: Outcome): Screen {
    screen.(loading := LoadingAfter(screen.loading, SendCode(screen, canDismiss, outcome)))
  }

  /**
   * `onChangeText(text)`: typing never changes `loading`; the email becomes the
   * text unless a request is in flight, in which case nothing changes.
   */
  function OnChangeText(screen: Screen, text: string): (r: Screen)
    ensures r.loading == screen.loading
    ensures screen.loading ==> r == screen
    ensures !screen.loading ==> r.email == Some(text)
  {
    if screen.loading then screen else screen.(email := Some(text))
  }

  /** Typing a sequence of texts, one `onChangeText` each. */
  function TypeAll(screen: Screen, texts: seq<string>): Screen
    decreases |texts|
  {
    if |texts| == 0 then screen else TypeAll(OnChangeText(screen, texts[0]), texts[1..])
  }

  /**
   * The admin email is recognised ignoring the case of each letter, and of
   * nothing else: each character is the address's own or, where the address
   * has a lower-case letter, that letter's capital.
   */
  lemma AdminEmailIgnoresCase(email: string)
    ensures IsAdminEmail(email) <==>
              && |email| == |AdminEmail|
              && forall i :: 0 <= i < |email| ==>
                   || email[i] == AdminEmail[i]
                   || ('a' <= AdminEmail[i] <= 'z' && email[i] as int == AdminEmail[i] as int - 32)
  {
    if |email| == |AdminEmail| &&
       forall i :: 0 <= i < |email| ==>
         email[i] == AdminEmail[i] || ('a' <= AdminEmail[i] <= 'z' && email[i] as int == AdminEmail[i] as int - 32)
    {
      var l := ToLower(email);
      forall i | 0 <= i < |email|
        ensures l[i] == AdminEmail[i]
      {
      }
      assert l == AdminEmail;
    }
  }

  /** An absent or empty email only shows "Email is required": no request, `loading` untouched. */
  lemma MissingEmail(screen: Screen, canDismiss: bool, outcome: Outcome)
    requires IsMissing(screen.email)
    ensures SendCode(screen, canDismiss, outcome) == [Toast(EmailRequired)]
    ensures AfterSendCode(screen, canDismiss, outcome) == screen
  {
    LoadingUntouched(screen.loading, SendCode(screen, canDismiss, outcome));
  }

  /**
   * The admin email signs in as `'admin'` and goes home without a request and
   * without touching `loading`; in a mounted single-slot context the session
   * then reads `'admin'`.
   */
  lemma AdminShortcut(screen: Screen, canDismiss: bool, outcome: Outcome, ctx: SingleSessionProvider.Context)
    requires !IsMissing(screen.email) && IsAdminEmail(screen.email.value)
    requires ctx.Mounted?
    ensures var es := SendCode(screen, canDismiss, outcome);
            && es[0] == SignInAs(AdminSession) && es[|es| - 1] == ReplaceHome
            && (DismissAll in es <==> canDismiss)
            && !MakesRequest(es)
            && AfterSendCode(screen, canDismiss, outcome) == screen
    ensures SingleSessionProvider.Session(SingleSessionProvider.SignIn(ctx, Some(AdminSession))) == Some("admin")
  {
    LoadingUntouched(screen.loading, SendCode(screen, canDismiss, outcome));
  }

  /**
   * A request ends in exactly one reaction: a 2xx navigates to the verify route
   * with the email, a 404 shows "Email not found", any other status or a thrown
   * request shows "Failed to send code".
   */
  lemma RequestReactions(screen: Screen, canDismiss: bool, outcome: Outcome)
    requires !IsMissing(screen.email) && !IsAdminEmail(screen.email.value)
    ensures var es := SendCode(screen, canDismiss, outcome);
            var email := screen.email.value;
            && (PushVerify(email) in es <==> outcome.Responded? && IsOk(outcome.status))
            && (Toast(EmailNotFound) in es <==> outcome == Responded(404))
            && (Toast(SendFailed) in es <==> outcome.Threw? || (!IsOk(outcome.status) && outcome.status != 404))
            && Toast(EmailRequired) !in es
            && AfterSendCode(screen, canDismiss, outcome) == screen.(loading := false)
  {
  }

  /** While `loading` is on, no amount of typing changes the screen. */
  lemma {:induction false} TypingIgnoredWhileLoading(screen: Screen, texts: seq<string>)
    requires screen.loading
    ensures TypeAll(screen, texts) == screen
    decreases |texts|
  {
    if |texts| > 0 {
      TypingIgnoredWhileLoading(OnChangeText(screen, texts[0]), texts[1..]);
    }
  }

  /** When not loading, the last text typed becomes the email. */
  lemma {:induction false} LastTextWins(screen: Screen, texts: seq<string>)
    requires !screen.loading && |texts| > 0
    ensures TypeAll(screen, texts) == Screen(Some(texts[|texts| - 1]), false)
    decreases |texts|
  {
    if |texts| > 1 {
      LastTextWins(OnChangeText(screen, texts[0]), texts[1..]);
    }
  }
}
