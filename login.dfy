/**
 * The one-time-code login of the sidebar (login() in DEVISOFT/app.py).
 *
 * The Streamlit session holds `logged_in`, and, once a code has been sent,
 * `otp` and `mobile`. Two buttons drive it: "Send OTP" with the mobile typed
 * in, and "Verify" with the code typed in; "Verify" is shown only while an
 * `otp` is in the session. The allow-list is the mobile_number column of
 * allowed_users.csv, compared as exact strings.
 *
 * SessionState and the step functions are the specification; class Session
 * is the session object whose button handlers update its fields in place.
 */
module Login {
  import opened Wrappers
  import Decimal

  /** A value of random.randint(100000, 999999): both ends included. */
  type Draw = n: int | 100000 <= n <= 999999 witness 100000

  /** Six decimal digits, the first not '0'. */
  predicate IsOtpShaped(s: string) {
    |s| == 6 && Decimal.AllDigits(s) && s[0] != '0'
  }

  /** str(random.randint(100000, 999999)): the code that "Send OTP" issues. */
  function OtpCode(d: Draw): (code: string)
    ensures IsOtpShaped(code)
    ensures Decimal.AllDigits(code) && Decimal.Parse(code) == d
  {
    assert Decimal.Pow10(5) == 100000 && Decimal.Pow10(6) == 1000000;
    Decimal.ShowLength(d, 6);
    Decimal.ParseShow(d);
    Decimal.Show(d)
  }

  /** Different draws give different codes. */
  lemma OtpCodeInjective(d1: Draw, d2: Draw)
    requires OtpCode(d1) == OtpCode(d2)
    ensures d1 == d2
  {
  }

  datatype SessionState = SessionState(loggedIn: bool, otp: Option<string>, mobile: Option<string>)

  /** A fresh session: only `logged_in` is set, to False. */
  function Initial(): SessionState {
    SessionState(false, None, None)
  }

  datatype SendReply = OtpIssued(code: string) | NotRegistered
  datatype VerifyReply = LoginSuccessful | WrongOtp | NoVerifyButton

  /** "Send OTP" pressed with `m` typed in and `d` drawn. */
  function SendOtpStep(s: SessionState, allowed: set<string>, m: string, d: Draw): (r: (SessionState, SendReply))
    ensures r.1.OtpIssued? <==> m in allowed
    ensures r.1.OtpIssued? ==>
      IsOtpShaped(r.1.code) && Decimal.Parse(r.1.code) == d &&
      r.0 == SessionState(s.loggedIn, Some(r.1.code), Some(m))
    ensures r.1.NotRegistered? ==> r.0 == s
  {
    if m in allowed then
      var code := OtpCode(d);
      (s.(otp := Some(code), mobile := Some(m)), OtpIssued(code))
    else
      (s, NotRegistered)
  }

  /** "Verify" pressed with `code` typed in; without an issued code there is no such button. */
  function VerifyStep(s: SessionState, code: string): (r: (SessionState, VerifyReply))
    ensures r.0.otp == s.otp && r.0.mobile == s.mobile
    ensures r.0.loggedIn <==> s.loggedIn || s.otp == Some(code)
    ensures r.1 == LoginSuccessful <==> s.otp == Some(code)
    ensures r.1 == NoVerifyButton <==> s.otp == None
  {
    match s.otp
    case None => (s, NoVerifyButton)
    case Some(expected) =>
      if code == expected then (s.(loggedIn := true), LoginSuccessful) else (s, WrongOtp)
  }

  /** A button press in the sidebar. */
  datatype Event = SendOtpPressed(mobile: string, draw: Draw) | VerifyPressed(code: string)

  function Step(s: SessionState, allowed: set<string>, e: Event): SessionState {
    match e
    case SendOtpPressed(m, d) => SendOtpStep(s, allowed, m, d).0
    case VerifyPressed(code) => VerifyStep(s, code).0
  }

  /** The session after the presses `es`, in order, starting from `s`. */
  function Run(s: SessionState, allowed: set<string>, es: seq<Event>): SessionState
    decreases |es|
  {
    if es == [] then s else Step(Run(s, allowed, es[..|es| - 1]), allowed, es[|es| - 1])
  }

  /**
   * What holds of every reachable session: a code and a mobile are stored together,
   * the code has six digits, the mobile is on the allow-list, and being logged in
   * needs an issued code.
   */
  predicate Consistent(s: SessionState, allowed: set<string>) {
    && (s.otp.Some? <==> s.mobile.Some?)
    && (s.otp.Some? ==> IsOtpShaped(s.otp.value))
    && (s.mobile.Some? ==> s.mobile.value in allowed)
    && (s.loggedIn ==> s.otp.Some?)
  }

  lemma StepKeepsConsistent(s: SessionState, allowed: set<string>, e: Event)
    requires Consistent(s, allowed)
    ensures Consistent(Step(s, allowed, e), allowed)
  {
  }

  /** Every session reached from a fresh one by any presses is consistent. */
  lemma {:induction false} RunKeepsConsistent(s: SessionState, allowed: set<string>, es: seq<Event>)
    requires Consistent(s, allowed)
    ensures Consistent(Run(s, allowed, es), allowed)
    decreases |es|
  {
    if es != [] {
      RunKeepsConsistent(s, allowed, es[..|es| - 1]);
      StepKeepsConsistent(Run(s, allowed, es[..|es| - 1]), allowed, es[|es| - 1]);
    }
  }

  /** Nothing sets `logged_in` back to False: once logged in, always logged in. */
  lemma {:induction false} LoggedInIsMonotone(s: SessionState, allowed: set<string>, es: seq<Event>)
    requires s.loggedIn
    ensures Run(s, allowed, es).loggedIn
    decreases |es|
  {
    if es != [] {
      LoggedInIsMonotone(s, allowed, es[..|es| - 1]);
    }
  }

  /** A logged-in session holds a six-digit code and an allow-listed mobile. */
  lemma LoggedInMeansAllowed(allowed: set<string>, es: seq<Event>)
    ensures var s := Run(Initial(), allowed, es);
      s.loggedIn ==> s.mobile.Some? && s.mobile.value in allowed && s.otp.Some? && IsOtpShaped(s.otp.value)
  {
    RunKeepsConsistent(Initial(), allowed, es);
  }

  /**
   * A session that was not logged in becomes logged in only through a "Verify"
   * whose typed code equals the code stored in the session at that moment.
   */
  lemma {:induction false} LoginNeedsStoredCode(s: SessionState, allowed: set<string>, es: seq<Event>)
    requires !s.loggedIn && Run(s, allowed, es).loggedIn
    ensures exists i :: 0 <= i < |es| && es[i].VerifyPressed? && Run(s, allowed, es[..i]).otp == Some(es[i].code)
    decreases |es|
  {
    var n := |es| - 1;
    var prefix := es[..n];
    if Run(s, allowed, prefix).loggedIn {
      LoginNeedsStoredCode(s, allowed, prefix);
      var i :| 0 <= i < |prefix| && prefix[i].VerifyPressed? && Run(s, allowed, prefix[..i]).otp == Some(prefix[i].code);
      assert prefix[..i] == es[..i];
    } else {
      assert es[..n] == prefix;
    }
  }

  /** With nobody on the allow-list, no code is ever issued and nobody logs in. */
  lemma {:induction false} EmptyAllowListLocksOut(es: seq<Event>)
    ensures Run(Initial(), {}, es) == Initial()
    decreases |es|
  {
    if es != [] {
      EmptyAllowListLocksOut(es[..|es| - 1]);
    }
  }

  /** An allow-listed mobile gets a code, and typing that code back logs in. */
  lemma IssueThenVerify(s: SessionState, allowed: set<string>, m: string, d: Draw)
    requires m in allowed
    ensures var (s1, reply) := SendOtpStep(s, allowed, m, d);
      reply == OtpIssued(OtpCode(d)) && VerifyStep(s1, reply.code) == (s1.(loggedIn := true), LoginSuccessful)
  {
  }

  /** Sending again replaces the code: a code from an earlier, different draw no longer verifies. */
  lemma OnlyLatestCodeVerifies(s: SessionState, allowed: set<string>, m: string, earlier: Draw, latest: Draw)
    requires m in allowed && earlier != latest
    ensures var s1 := SendOtpStep(s, allowed, m, latest).0;
      VerifyStep(s1, OtpCode(earlier)) == (s1, WrongOtp)
  {
  }

  /** A successful "Verify" keeps the code, so the same code verifies again. */
  lemma CodeStaysValid(s: SessionState, code: string)
    requires VerifyStep(s, code).1 == LoginSuccessful
    ensures var s1 := VerifyStep(s, code).0;
      s1.otp == Some(code) && VerifyStep(s1, code) == (s1, LoginSuccessful)
  {
  }

  /** The Streamlit session state of one visitor, with the allow-list read for it. */
  class Session {
    const allowed: set<string>
    var loggedIn: bool
    var otp: Option<string>
    var mobile: Option<string>

    function State(): SessionState
      reads this
    {
      SessionState(loggedIn, otp, mobile)
    }

    predicate Valid()
      reads this
    {
      Consistent(State(), allowed)
    }

    constructor (allowed: set<string>)
      ensures this.allowed == allowed && State() == Initial() && Valid()
    {
      this.allowed := allowed;
      loggedIn := false;
      otp := None;
      mobile := None;
    }

    /** The "Send OTP" button. */
    method SendOtp(m: string, draw: Draw) returns (reply: SendReply)
      requires Valid()
      modifies this
      ensures Valid()
      ensures (State(), reply) == SendOtpStep(old(State()), allowed, m, draw)
    {
      if m in allowed {
        var code := OtpCode(draw);
        otp := Some(code);
        mobile := Some(m);
        reply := OtpIssued(code);
      } else {
        reply := NotRegistered;
      }
    }

    /** The "Verify" button. */
    method Verify(code: string) returns (reply: VerifyReply)
      requires Valid()
      modifies this
      ensures Valid()
      ensures (State(), reply) == VerifyStep(old(State()), code)
    {
      if otp.None? {
        reply := NoVerifyButton;
      } else if code == otp.value {
        loggedIn := true;
        reply := LoginSuccessful;
      } else {
        reply := WrongOtp;
      }
    }
  }
}
