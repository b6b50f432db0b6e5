/** The decision the login form makes on submit: reject a malformed
    passcode, send the host to the dashboard, send everyone else to a chat
    session. The session id and the URI encoding of the user name come from
    the caller. */
module Login {
  import opened Json

  const PasscodeError: string := "Passcode must be 4 numeric digits"
  const HostUser: string := "dex"
  const HostPasscode: string := "1982"

  /** What submitting does: show the error, or navigate. */
  datatype Outcome =
    | Rejected(message: string)
    | HostRoute
    | ChatRoute(session: string, encodedUser: string)

  /** Exactly four ASCII digits. */
  predicate FourDigits(pass: string)
  {
    |pass| == 4 && forall i :: 0 <= i < |pass| ==> IsDigit(pass[i])
  }

  /** The pattern `^[0-9]{n}$` read left to right: `n` digits, then the end
      of the input. */
  function MatchDigits(s: string, n: nat): (matched: bool)
    decreases n
  {
    if n == 0 then |s| == 0
    else |s| > 0 && IsDigit(s[0]) && MatchDigits(s[1..], n - 1)
  }

  /** The anchored pattern accepts exactly the strings of `n` digits. */
  lemma {:induction false} MatchDigitsExactly(s: string, n: nat)
    ensures MatchDigits(s, n) <==> |s| == n && forall i :: 0 <= i < |s| ==> IsDigit(s[i])
    decreases n
  {
    if n > 0 && |s| > 0 {
      MatchDigitsExactly(s[1..], n - 1);
      assert forall i :: 1 <= i < |s| ==> s[i] == s[1..][i - 1];
    }
  }

  /** The router target of a navigation. */
  function Url(o: Outcome): (url: string)
    requires !o.Rejected?
  {
    match o
    case HostRoute => "/host?user=" + HostUser
    case ChatRoute(session, user) => "/chat?session=" + session + "&user=" + user
  }

  /** `submit`: the passcode format is checked first; only a well-formed
      passcode reaches the host credential check; every other well-formed
      submission opens a chat session under the encoded user name. */
  function Submit(username: string, pass: string, sessionId: string, encode: string -> string): (o: Outcome)
    ensures o.Rejected? <==> !FourDigits(pass)
    ensures o.Rejected? ==> o.message == PasscodeError
    ensures o.HostRoute? <==> username == HostUser && pass == HostPasscode
    ensures o.HostRoute? ==> Url(o) == "/host?user=dex"
    ensures o.ChatRoute? ==> o.session == sessionId && o.encodedUser == encode(username)
  {
    MatchDigitsExactly(pass, 4);
    if !MatchDigits(pass, 4) then Rejected(PasscodeError)
    else if username == HostUser && pass == HostPasscode then HostRoute
    else ChatRoute(sessionId, encode(username))
  }

  /** A malformed passcode is rejected whatever the user name, the host's
      included: the credential check is never reached. */
  lemma FormatCheckedFirst(username: string, pass: string, sessionId: string, encode: string -> string)
    requires !FourDigits(pass)
    ensures Submit(username, pass, sessionId, encode) == Rejected(PasscodeError)
    ensures Submit(HostUser, pass, sessionId, encode) == Rejected(PasscodeError)
  {
  }
}
