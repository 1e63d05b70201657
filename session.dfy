/**
  The session decisions: the bounded login retry loop, the URL tests that decide
  whether the browser session is still valid and whether a page is the login page,
  the acceptance test for the administrator's captcha reply, and what
  extractSections does with a login page.
 */
module Session {
  import opened Optional
  import opened JsText
  import opened Records

  // ---------------------------------------------------------------------------
  // login

  const MaxRetries := 3

  /**
    How one login attempt ends: on some page after submitting the form, or with an
    exception from any step before (reinitialising an unhealthy browser, navigation,
    the captcha exchange, a missing login button).
   */
  datatype Attempt = Landed(url: string) | Threw

  /** Reinitialising the browser after a failed attempt: at once, on the second try, or not at all. */
  datatype Reinit = Reinitialized | ReinitializedOnRetry | ReinitFailed

  /** How login() ends: it returns after attempt `k`, or throws. */
  datatype LoginOutcome = LoggedIn(attempt: nat) | GaveUp | BrowserLost(attempt: nat)

  /** The success test after submitting: the browser is back on the portal's host. */
  predicate Succeeded(a: Attempt) {
    a.Landed? && Contains(a.url, "vu.um.ac.ir")
  }

  /** The outcome of login() from attempt `k` on, attempt by attempt. */
  function LoginFrom(attempt: nat -> Attempt, reinit: nat -> Reinit, k: nat): LoginOutcome
    requires k < MaxRetries
    decreases MaxRetries - k
  {
    if Succeeded(attempt(k)) then LoggedIn(k)
    else if k + 1 == MaxRetries then GaveUp
    else if reinit(k) == ReinitFailed then BrowserLost(k)
    else LoginFrom(attempt, reinit, k + 1)
  }

  /** The number of attempts made before login() returned or threw. */
  function AttemptsMade(r: LoginOutcome): nat {
    match r
    case LoggedIn(k) => k + 1
    case GaveUp => MaxRetries
    case BrowserLost(k) => k + 1
  }

  /** The retry loop of login(), with `retryCount` counting failed attempts. */
  method Login(attempt: nat -> Attempt, reinit: nat -> Reinit) returns (r: LoginOutcome, attempts: nat)
    ensures r == LoginFrom(attempt, reinit, 0)
    ensures attempts == AttemptsMade(r) && 1 <= attempts <= MaxRetries
  {
    var retryCount := 0;
    r := GaveUp;
    var done := false;
    while !done && retryCount < MaxRetries
      invariant 0 <= retryCount <= MaxRetries
      invariant !done ==> retryCount < MaxRetries && LoginFrom(attempt, reinit, 0) == LoginFrom(attempt, reinit, retryCount)
      invariant done ==> r == LoginFrom(attempt, reinit, 0) && AttemptsMade(r) == retryCount + (if r.LoggedIn? then 1 else 0)
      decreases MaxRetries - retryCount, !done
    {
      if Succeeded(attempt(retryCount)) {
        r, done := LoggedIn(retryCount), true;
      } else {
        retryCount := retryCount + 1;
        if retryCount < MaxRetries {
          if reinit(retryCount - 1) == ReinitFailed {
            r, done := BrowserLost(retryCount - 1), true;
          }
        } else {
          r, done := GaveUp, true;
        }
      }
    }
    attempts := if r.LoggedIn? then retryCount + 1 else retryCount;
  }

  /**
    login() returns after the first attempt that lands on the portal; each attempt
    before it failed and was followed by a successful reinitialisation.
   */
  lemma {:induction false} LoggedInAtFirstSuccess(attempt: nat -> Attempt, reinit: nat -> Reinit, k: nat, j: nat)
    requires k < MaxRetries
    requires LoginFrom(attempt, reinit, k) == LoggedIn(j)
    ensures k <= j < MaxRetries && Succeeded(attempt(j))
    ensures forall i :: k <= i < j ==> !Succeeded(attempt(i)) && reinit(i) != ReinitFailed
    decreases MaxRetries - k
  {
    if !Succeeded(attempt(k)) {
      LoggedInAtFirstSuccess(attempt, reinit, k + 1, j);
    }
  }

  /** login() gives up only after three failed attempts, reinitialising after the first two only. */
  lemma {:induction false} GaveUpAfterThreeFailures(attempt: nat -> Attempt, reinit: nat -> Reinit, k: nat)
    requires k < MaxRetries
    ensures LoginFrom(attempt, reinit, k) == GaveUp <==>
      (forall i :: k <= i < MaxRetries ==> !Succeeded(attempt(i)))
      && (forall i :: k <= i < MaxRetries - 1 ==> reinit(i) != ReinitFailed)
    decreases MaxRetries - k
  {
    if k + 1 < MaxRetries {
      GaveUpAfterThreeFailures(attempt, reinit, k + 1);
    }
  }

  /** It throws early exactly when both reinitialisations after a failed, non-final attempt fail. */
  lemma {:induction false} BrowserLostWhenReinitFails(attempt: nat -> Attempt, reinit: nat -> Reinit, k: nat, j: nat)
    requires k < MaxRetries
    requires LoginFrom(attempt, reinit, k) == BrowserLost(j)
    ensures k <= j < MaxRetries - 1 && !Succeeded(attempt(j)) && reinit(j) == ReinitFailed
    ensures forall i :: k <= i < j ==> !Succeeded(attempt(i)) && reinit(i) != ReinitFailed
    decreases MaxRetries - k
  {
    if !Succeeded(attempt(k)) && k + 1 < MaxRetries && reinit(k) != ReinitFailed {
      BrowserLostWhenReinitFails(attempt, reinit, k + 1, j);
    }
  }

  const LoginPageUrl := "https://vu.um.ac.ir/login/index.php"

  /** The portal's own login page counts as success for this test, though the session check calls it logged out. */
  lemma LoginPageCountsAsSuccess()
    ensures Succeeded(Landed(LoginPageUrl))
    ensures SessionNeedsLogin(Navigated(LoginPageUrl))
  {
    LoginPageOnPortal();
    LoginPageMentionsLogin();
  }

  lemma LoginPageOnPortal()
    ensures Contains(LoginPageUrl, "vu.um.ac.ir")
  {
    assert LoginPageUrl[8..] == "vu.um.ac.ir/login/index.php";
    assert "vu.um.ac.ir" <= LoginPageUrl[8..];
    ContainsAt(LoginPageUrl, "vu.um.ac.ir", 8);
  }

  lemma LoginPageMentionsLogin()
    ensures Contains(LoginPageUrl, "login")
  {
    assert LoginPageUrl[20..] == "login/index.php";
    assert "login" <= LoginPageUrl[20..];
    ContainsAt(LoginPageUrl, "login", 20);
  }

  lemma {:induction false} ContainsAt(s: string, sub: string, i: nat)
    requires i <= |s| && sub <= s[i..]
    ensures Contains(s, sub)
    decreases i
  {
    if i > 0 {
      ContainsAt(s[1..], sub, i - 1);
      assert s[1..][i - 1..] == s[i..];
    }
  }

  // ---------------------------------------------------------------------------
  // The session check of checkAllCourses

  /** Navigating to the first course URL: the page it ended on, or an exception. */
  datatype Probe = Navigated(url: string) | ProbeFailed

  predicate SessionNeedsLogin(p: Probe) {
    match p
    case ProbeFailed => true
    case Navigated(url) =>
      if Contains(url, "oauth.um.ac.ir") || Contains(url, "login") then true
      else if Contains(url, "vu.um.ac.ir") then false
      else true
  }

  /** The session is reused exactly when the probe stays on the portal away from any login page. */
  lemma SessionValidIff(p: Probe)
    ensures !SessionNeedsLogin(p) <==>
      p.Navigated? && Contains(p.url, "vu.um.ac.ir") && !Contains(p.url, "oauth.um.ac.ir") && !Contains(p.url, "login")
  {}

  // ---------------------------------------------------------------------------
  // The captcha reply

  /** The last update's message, as getUpdates reports it. */
  datatype TgMessage = TgMessage(chatId: string, text: Option<string>, date: int)

  /**
    The reply that waitForTelegramResponse accepts at `nowMs`, trimmed: a message from
    the administrator's chat with non-empty text, sent under 30 seconds ago. Nothing
    compares it with earlier replies.
   */
  function CaptchaReply(m: Option<TgMessage>, adminChatId: string, nowMs: int): (r: Option<string>)
    ensures r.Some? <==> m.Some? && m.value.chatId == adminChatId && m.value.text.Some?
                          && m.value.text.value != "" && nowMs - 1000 * m.value.date < 30_000
    ensures r.Some? ==> r.value == Trim(m.value.text.value)
  {
    if m.Some? && m.value.chatId == adminChatId && m.value.text.Some? && m.value.text.value != ""
       && nowMs - 1000 * m.value.date < 30_000
    then Some(Trim(m.value.text.value))
    else None
  }

  /** A reply accepted at some instant is accepted at every earlier one. */
  lemma CaptchaReplyEarlier(m: Option<TgMessage>, adminChatId: string, now1: int, now2: int)
    requires now1 <= now2 && CaptchaReply(m, adminChatId, now2).Some?
    ensures CaptchaReply(m, adminChatId, now1) == CaptchaReply(m, adminChatId, now2)
  {}

  /** The same message can be accepted again on a later poll while it is young enough. */
  lemma CaptchaReplyNotDeduplicated(text: string, adminChatId: string, date: int)
    requires text != ""
    ensures var m := Some(TgMessage(adminChatId, Some(text), date));
            CaptchaReply(m, adminChatId, 1000 * date) == CaptchaReply(m, adminChatId, 1000 * date + 29_999)
            && CaptchaReply(m, adminChatId, 1000 * date).Some?
            && CaptchaReply(m, adminChatId, 1000 * date + 30_000).None?
  {}

  // ---------------------------------------------------------------------------
  // extractSections on a login page

  /** The login indicators read from the current page. */
  datatype PageProbe = PageProbe(url: string, hasLoginInputs: bool, hasLoginForm: bool)

  predicate LooksLikeLoginPage(p: PageProbe) {
    Contains(p.url, "oauth.um.ac.ir") || Contains(p.url, "login") || p.hasLoginInputs || p.hasLoginForm
  }

  /** What extractSections reports: a snapshot, or the LOGIN_REQUIRED error. */
  datatype Extraction = Snapshot(sections: seq<Section>) | LoginRequired

  /**
    extractSections as written: the LOGIN_REQUIRED error is thrown inside a try whose
    catch is empty, so every page is read as a snapshot; a page whose section scan
    throws yields the empty snapshot.
   */
  function ExtractSectionsAsWritten(probe: PageProbe, scan: Option<seq<Section>>): (r: Extraction)
    ensures r.Snapshot?
  {
    Snapshot(if scan.Some? then scan.value else [])
  }

  /** The login page is taken for an empty course. */
  lemma LoginPageReadAsEmptyCourse()
    ensures var p := PageProbe("https://oauth.um.ac.ir/", true, true);
            LooksLikeLoginPage(p) && ExtractSectionsAsWritten(p, Some([])) == Snapshot([])
  {}

  /** extractSections as its log line and checkCourse's handler intend: a login page aborts the scan. */
  function ExtractSections(probe: PageProbe, scan: Option<seq<Section>>): (r: Extraction)
    ensures r == LoginRequired <==> LooksLikeLoginPage(probe)
    ensures r.Snapshot? ==> r.sections == (if scan.Some? then scan.value else [])
  {
    if LooksLikeLoginPage(probe) then LoginRequired
    else Snapshot(if scan.Some? then scan.value else [])
  }

  /** Off the login page the two agree. */
  lemma ExtractionsAgreeOffLoginPage(probe: PageProbe, scan: Option<seq<Section>>)
    requires !LooksLikeLoginPage(probe)
    ensures ExtractSections(probe, scan) == ExtractSectionsAsWritten(probe, scan)
  {}
}
