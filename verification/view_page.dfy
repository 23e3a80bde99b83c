/**
 * The view page's handling of the metadata request: how each reply of
 * `getContent` turns into the page's state (shown, locked behind the
 * password form, or an error), and the guard that keeps the first
 * request from being sent twice per mount. Every request is a view and
 * counts against the link's quota, so the guard matters.
 */
module ViewPage {
  import opened Wrappers
  import opened JsText
  import opened UploadModel
  import opened Replies

  /** What came back: the JSON of a success, an HTTP error with the body's
      `error` text (`""` when absent), or no response at all. */
  datatype Response = Ok(body: PublicRecord) | HttpError(status: int, apiError: string) | NoResponse

  datatype PageState = PageState(
    data: Option<PublicRecord>,
    loading: bool,
    error: string,
    locked: bool,
    unlocking: bool)

  const MsgDefaultDenied := "Access denied: link expired, invalid, or max views reached."
  const MsgLinkMissing := "Link expired or does not exist."

  const IncorrectPassword := "incorrect password"
  const WrongPasswordText := "wrong password"

  /** A 403 that is about the password rather than the link. */
  predicate IsPasswordError(apiError: string) {
    var lowered := Lower(apiError);
    Contains(lowered, IncorrectPassword) || Contains(lowered, WrongPasswordText)
  }

  /** `fetchData`'s `try`/`catch`/`finally` applied to the page state. */
  function Classify(st: PageState, resp: Response): (st': PageState)
    ensures !st'.loading && !st'.unlocking
    ensures resp.Ok? ==> st'.data == Some(resp.body) && !st'.locked && st'.error == ""
    ensures !resp.Ok? ==> st'.data == st.data
    ensures resp.HttpError? && resp.status == 401 ==> st'.locked && st'.error == ""
    ensures resp.HttpError? && resp.status == 403 ==>
      (st'.locked <==> IsPasswordError(resp.apiError))
      && (IsPasswordError(resp.apiError) ==> st'.error == st.error)
      && (!IsPasswordError(resp.apiError) ==>
            st'.error == (if resp.apiError != "" then resp.apiError else MsgDefaultDenied))
    ensures resp.NoResponse? || (resp.HttpError? && resp.status != 401 && resp.status != 403) ==>
      st'.error == MsgLinkMissing && st'.locked == st.locked
  {
    var st1 := match resp
      case Ok(body) => st.(data := Some(body), locked := false, error := "")
      case HttpError(status, apiError) =>
        if status == 401 then st.(locked := true, error := "")
        else if status == 403 then
          if IsPasswordError(apiError) then st.(locked := true)
          else st.(locked := false, error := if apiError != "" then apiError else MsgDefaultDenied)
        else st.(error := MsgLinkMissing)
      case NoResponse => st.(error := MsgLinkMissing);
    st1.(loading := false, unlocking := false)
  }

  /** Every character of a found substring occurs in the string. */
  lemma {:induction false} ContainsChar(s: string, sub: string, c: char)
    requires Contains(s, sub) && c in sub
    ensures c in s
    decreases |s|
  {
    if sub <= s {
      var i :| 0 <= i < |sub| && sub[i] == c;
      assert s[i] == c;
    } else {
      ContainsChar(s[1..], sub, c);
      assert s == [s[0]] + s[1..];
    }
  }

  /** A message lacking one of the letters `p` and `w` (in either case)
      cannot be a password error: both phrases contain both letters. */
  lemma LacksNoPasswordError(apiError: string, c: char)
    requires c == 'p' || c == 'w'
    requires Lacks(apiError, c)
    ensures !IsPasswordError(apiError)
  {
    var lowered := Lower(apiError);
    assert c !in lowered by {
      forall i | 0 <= i < |lowered| ensures lowered[i] != c {
        assert lowered[i] == LowerChar(apiError[i]);
      }
    }
    assert c in IncorrectPassword by {
      assert IncorrectPassword[10] == 'p' && IncorrectPassword[14] == 'w';
    }
    assert c in WrongPasswordText by {
      assert WrongPasswordText[6] == 'p' && WrongPasswordText[0] == 'w';
    }
    if Contains(lowered, IncorrectPassword) { ContainsChar(lowered, IncorrectPassword, c); }
    if Contains(lowered, WrongPasswordText) { ContainsChar(lowered, WrongPasswordText, c); }
  }

  /** The server's two password refusals both lock the page: "Incorrect
      Password" from the view and "Wrong Password" from the download. */
  lemma ServerPasswordErrorsLock(st: PageState)
    ensures Classify(st, HttpError(403, MsgIncorrectPassword)).locked
    ensures Classify(st, HttpError(403, MsgWrongPassword)).locked
    ensures Classify(st, HttpError(401, MsgPasswordRequired)).locked
  {
    assert Lower(MsgIncorrectPassword) == IncorrectPassword;
    assert Lower(MsgWrongPassword) == WrongPasswordText;
  }

  /** Neither case of letter `c` occurs in `s` (`c` lower case). */
  predicate Lacks(s: string, c: char) {
    forall i | 0 <= i < |s| :: LowerChar(s[i]) != c
  }

  lemma LacksConcat(a: string, b: string, c: char)
    requires Lacks(a, c) && Lacks(b, c)
    ensures Lacks(a + b, c)
  {
    forall i | 0 <= i < |a + b| ensures LowerChar((a + b)[i]) != c {
      if i >= |a| { assert (a + b)[i] == b[i - |a|]; }
    }
  }

  /** The view's other refusals (gone or expired, out of views) unlock the
      page and show the server's own message. */
  lemma LinkGoneShows(st: PageState)
    ensures var st' := Classify(st, HttpError(403, MsgLinkGone)); !st'.locked && st'.error == MsgLinkGone
  {
    LinkGoneLacksW();
    LacksNoPasswordError(MsgLinkGone, 'w');
  }

  lemma LinkGoneLacksW()
    ensures Lacks(MsgLinkGone, 'w')
  {
    PrefixLacksW();
    LinkGoneTailLacksW();
    LacksConcat(ForbiddenPrefix, "Link is invalid or has expired.", 'w');
  }

  lemma PrefixLacksW()
    ensures Lacks(ForbiddenPrefix, 'w')
  {
  }

  lemma LinkGoneTailLacksW()
    ensures Lacks("Link is invalid or has expired.", 'w')
  {
  }

  lemma MaxViewsShows(st: PageState)
    ensures var st' := Classify(st, HttpError(403, MsgMaxViews)); !st'.locked && st'.error == MsgMaxViews
  {
    MaxViewsLacksP();
    LacksNoPasswordError(MsgMaxViews, 'p');
  }

  lemma MaxViewsLacksP()
    ensures Lacks(MsgMaxViews, 'p')
  {
    PrefixLacksP();
    MaxViewsTailLacksP();
    LacksConcat(ForbiddenPrefix, "Max views reached.", 'p');
  }

  lemma PrefixLacksP()
    ensures Lacks(ForbiddenPrefix, 'p')
  {
  }

  lemma MaxViewsTailLacksP()
    ensures Lacks("Max views reached.", 'p')
  {
  }

  /** The page's events: the mount effect (which React may run more than
      once) and a click on "unlock" with the form's input. */
  datatype PageEvent = EffectRun | Unlock(input: string)

  /** The guard flag, and the requests sent so far: the password each
      carried (`""` for none). */
  datatype Mount = Mount(fetched: bool, requests: seq<string>)

  function OnPageEvent(m: Mount, e: PageEvent): Mount {
    match e
    case EffectRun => if m.fetched then m else Mount(true, m.requests + [""])
    // an empty input only raises a toast
    case Unlock(input) => if input == "" then m else m.(requests := m.requests + [input])
  }

  function RunPage(m: Mount, events: seq<PageEvent>): Mount
    decreases |events|
  {
    if |events| == 0 then m else RunPage(OnPageEvent(m, events[0]), events[1..])
  }

  function CountEffects(events: seq<PageEvent>): nat {
    if |events| == 0 then 0 else (if events[0].EffectRun? then 1 else 0) + CountEffects(events[1..])
  }

  /** The unlock clicks that carry a non-empty password, in order. */
  function Unlocks(events: seq<PageEvent>): (r: seq<string>)
    ensures forall i | 0 <= i < |r| :: r[i] != ""
  {
    if |events| == 0 then []
    else if events[0].Unlock? && events[0].input != "" then [events[0].input] + Unlocks(events[1..])
    else Unlocks(events[1..])
  }

  /** Per mount, however often the effect runs, exactly one request goes
      out without a password if it runs at all, and otherwise one request
      per unlock click with a non-empty password. */
  lemma {:induction false} RequestsPerMount(m: Mount, events: seq<PageEvent>)
    requires forall i | 0 <= i < |m.requests| :: m.requests[i] != "" || m.fetched
    ensures var m' := RunPage(m, events);
      && m'.fetched == (m.fetched || CountEffects(events) > 0)
      && |m'.requests| == |m.requests| + |Unlocks(events)| + (if !m.fetched && CountEffects(events) > 0 then 1 else 0)
      && (forall i | 0 <= i < |m'.requests| :: m'.requests[i] != "" || m'.fetched)
    decreases |events|
  {
    if |events| > 0 {
      var m1 := OnPageEvent(m, events[0]);
      RequestsPerMount(m1, events[1..]);
    }
  }

  /** From a fresh mount, at most one request goes out without a password. */
  lemma AtMostOneInitialFetch(events: seq<PageEvent>)
    ensures var m' := RunPage(Mount(false, []), events);
      |m'.requests| <= 1 + |Unlocks(events)|
  {
    RequestsPerMount(Mount(false, []), events);
  }
}
