/** The login in progress: its cookie, and the stateless protocol of at most two attempts
    that answers a callback without `state` (section 10.12 of RFC 6749). */
module PendingLogins {
  import opened ReportTypes
  import opened Hex
  import opened Session
  import Text

  const TTL: int := 600_000

  /** The seconds a calendar date can represent. */
  datatype Calendar = Calendar(first: int, last: int)

  datatype PendingLogin = PendingLogin(nonce: string, returnTo: Option<string>, expiresAt: Time, retried: bool)

  datatype Callback = Accept(pending: PendingLogin) | Retry(pending: PendingLogin)

  /** Whole seconds, rounded down. */
  function Seconds(t: Time): int {
    t / 1000
  }

  function Encode(p: PendingLogin): string {
    Show(Seconds(p.expiresAt)) + "|" + p.nonce + "|" + (if p.retried then "1" else "0") + "|"
    + (match p.returnTo case Some(r) => r case None => "")
  }

  function Decode(cal: Calendar, raw: string): Option<PendingLogin> {
    var (found0, expiry, rest0) := Text.SplitOnce(raw, '|');
    var (found1, nonce, rest1) := Text.SplitOnce(rest0, '|');
    var (found2, flag, dest) := Text.SplitOnce(rest1, '|');
    if !found0 || !found1 || !found2 then None
    else match ParseI64(expiry)
      case None => None
      case Some(secs) =>
        if !(cal.first <= secs <= cal.last) then None
        else if flag != "0" && flag != "1" then None
        else Some(PendingLogin(nonce, if dest == "" then None else Some(dest), secs * 1000, flag == "1"))
  }

  /** A fresh nonce and the signed cookie that remembers it; `bytes` are the random ones. */
  function Fresh(mac: Mac, secret: string, returnTo: Option<string>, retried: bool, now: Time, bytes: seq<Byte>)
    : (string, string)
  {
    var p := FreshPending(returnTo, retried, now, bytes);
    (p.nonce, SignValue(mac, secret, Encode(p)))
  }

  function FreshPending(returnTo: Option<string>, retried: bool, now: Time, bytes: seq<Byte>): PendingLogin {
    PendingLogin(Hex.Encode(bytes), returnTo, now + TTL, retried)
  }

  function Answer(mac: Mac, secret: string, cal: Calendar, cookie: Option<string>, state: Option<string>, now: Time)
    : Option<Callback>
  {
    match cookie
    case None => None
    case Some(c) =>
      match VerifyValue(mac, secret, c)
      case None => None
      case Some(v) =>
        match Decode(cal, v)
        case None => None
        case Some(p) =>
          if p.expiresAt < now then None
          else if state.Some? && state.value != "" then
            if state.value == p.nonce then Some(Accept(p)) else None
          else if p.retried then None else Some(Retry(p))
  }

  // ---- the cookie round-trips ---------------------------------------------------------------

  /** What the cookie keeps of a login: whole seconds, and an empty destination as none. */
  function Kept(p: PendingLogin): PendingLogin {
    p.(expiresAt := Seconds(p.expiresAt) * 1000, returnTo := if p.returnTo == Some("") then None else p.returnTo)
  }

  predicate Representable(cal: Calendar, t: Time) {
    cal.first <= Seconds(t) <= cal.last && I64_MIN <= Seconds(t) <= I64_MAX
  }

  lemma ShowHasNoBar(n: int)
    ensures '|' !in Show(n)
  {
  }

  /** For a nonce without a bar, decoding gives back what the cookie keeps, or nothing when
      the expiry is outside the calendar. */
  lemma DecodeOfEncode(cal: Calendar, p: PendingLogin)
    requires '|' !in p.nonce
    ensures Decode(cal, Encode(p)) ==
      if cal.first <= p.expiresAt / 1000 <= cal.last
         && -0x8000_0000_0000_0000 <= p.expiresAt / 1000 < 0x8000_0000_0000_0000
      then Some(Kept(p)) else None
  {
    hide Text.SplitOnce, Show, ParseI64;
    var secs := Show(Seconds(p.expiresAt));
    var flag := if p.retried then "1" else "0";
    var dest := match p.returnTo case Some(r) => r case None => "";
    assert Encode(p) == secs + "|" + (p.nonce + "|" + (flag + "|" + dest));
    ShowHasNoBar(Seconds(p.expiresAt));
    ShowRoundTrip(Seconds(p.expiresAt));
    Text.SplitOnceAt(secs, '|', p.nonce + "|" + (flag + "|" + dest));
    Text.SplitOnceAt(p.nonce, '|', flag + "|" + dest);
    Text.SplitOnceAt(flag, '|', dest);
  }

  /** The text of a pending login: a number of seconds, a nonce, a flag and a destination between
      bars, of which only the last may hold bars of its own. */
  ghost predicate Spells(cal: Calendar, raw: string, expiry: string, p: PendingLogin) {
    && raw == expiry + "|" + (p.nonce + "|" + ((if p.retried then "1" else "0") + "|"
                                              + (if p.returnTo.Some? then p.returnTo.value else "")))
    && '|' !in expiry && '|' !in p.nonce && p.returnTo != Some("")
    && p.expiresAt % 1000 == 0 && ParseI64(expiry) == Some(p.expiresAt / 1000)
    && cal.first <= p.expiresAt / 1000 <= cal.last
  }

  /** Nothing else decodes, and that decodes to what it spells. */
  lemma DecodeExactly(cal: Calendar, raw: string, p: PendingLogin)
    ensures Decode(cal, raw) == Some(p) <==> exists expiry :: Spells(cal, raw, expiry, p)
  {
    hide Text.SplitOnce, ParseI64;
    var (found0, expiry, rest0) := Text.SplitOnce(raw, '|');
    var (found1, nonce, rest1) := Text.SplitOnce(rest0, '|');
    var (found2, flag, dest) := Text.SplitOnce(rest1, '|');
    if Decode(cal, raw) == Some(p) {
      assert raw == expiry + "|" + (nonce + "|" + (flag + "|" + dest));
      assert Spells(cal, raw, expiry, p);
    }
    if e :| Spells(cal, raw, e, p) {
      SpelledDecodes(cal, raw, e, p);
    }
  }

  lemma SpelledDecodes(cal: Calendar, raw: string, expiry: string, p: PendingLogin)
    requires Spells(cal, raw, expiry, p)
    ensures Decode(cal, raw) == Some(p)
  {
    hide Text.SplitOnce, ParseI64;
    var flag := if p.retried then "1" else "0";
    var dest := if p.returnTo.Some? then p.returnTo.value else "";
    Text.SplitOnceAt(expiry, '|', p.nonce + "|" + (flag + "|" + dest));
    Text.SplitOnceAt(p.nonce, '|', flag + "|" + dest);
    Text.SplitOnceAt(flag, '|', dest);
  }

  lemma DecodedNonceHasNoBar(cal: Calendar, raw: string)
    ensures Decode(cal, raw).Some? ==> '|' !in Decode(cal, raw).value.nonce
  {
  }

  /** The whole cookie round-trips, with the expiry floored to a second, exactly when the
      nonce holds no bar and the destination is not the empty string. */
  lemma CookieRoundTripsExactly(mac: Mac, secret: string, cal: Calendar, p: PendingLogin)
    requires Representable(cal, p.expiresAt)
    ensures var v := VerifyValue(mac, secret, SignValue(mac, secret, Encode(p)));
      v.Some? && (Decode(cal, v.value) == Some(p.(expiresAt := Seconds(p.expiresAt) * 1000))
                  <==> '|' !in p.nonce && p.returnTo != Some(""))
  {
    SignedVerifies(mac, secret, Encode(p));
    DecodedNonceHasNoBar(cal, Encode(p));
    if '|' !in p.nonce {
      DecodeOfEncode(cal, p);
    }
  }

  // ---- what a callback is answered --------------------------------------------------------------

  /** A nonce of at least one byte is not empty and holds no bar. */
  lemma NonceIsSound(bytes: seq<Byte>)
    requires bytes != []
    ensures Hex.Encode(bytes) != "" && '|' !in Hex.Encode(bytes)
  {
    HexHasNoBar(bytes);
  }

  /** Presenting the cookie that `Fresh` signed, at any time and with any state. Through the whole
      second in which ten minutes have passed it is live: its own nonce is accepted, first attempt
      or second; an absent or empty state earns the first attempt a retry and the second nothing;
      any other state nothing. After that there is no answer. */
  lemma FreshIsAnswered(mac: Mac, secret: string, cal: Calendar, to: Option<string>, retried: bool, issued: Time,
                        bytes: seq<Byte>, state: Option<string>, now: Time)
    requires bytes != [] && Representable(cal, issued + 600_000)
    ensures var (nonce, cookie) := Fresh(mac, secret, to, retried, issued, bytes);
      var expiry := (issued + 600_000) / 1000 * 1000;
      var kept := PendingLogin(nonce, if to == Some("") then None else to, expiry, retried);
      Answer(mac, secret, cal, Some(cookie), state, now)
      == if now > expiry then None
         else if state == None || state == Some("") then (if retried then None else Some(Retry(kept)))
         else if state == Some(nonce) then Some(Accept(kept))
         else None
  {
    hide Encode, Decode, VerifyValue, Hex.Encode;
    var p := FreshPending(to, retried, issued, bytes);
    NonceIsSound(bytes);
    SignedVerifies(mac, secret, Encode(p));
    DecodeOfEncode(cal, p);
  }

  /** Without a cookie, or with one that does not verify or does not decode, there is no answer. */
  lemma StrangersAreIgnored(mac: Mac, secret: string, cal: Calendar, cookie: Option<string>, state: Option<string>,
                            now: Time)
    requires cookie.Some? ==>
      match VerifyValue(mac, secret, cookie.value) case None => true case Some(v) => Decode(cal, v) == None
    ensures Answer(mac, secret, cal, cookie, state, now) == None
  {
  }

  // ---- runs of the protocol -------------------------------------------------------------------

  datatype Event =
    | Login(returnTo: Option<string>, now: Time, bytes: seq<Byte>)
    | NewSession(bytes: seq<Byte>)
    | Returns(cookie: Option<string>, state: Option<string>, now: Time, bytes: seq<Byte>)

  datatype Server = Server(mac: Mac, secret: string, cal: Calendar)

  function Outcome(s: Server, e: Event): Option<Callback>
    requires e.Returns?
  {
    Answer(s.mac, s.secret, s.cal, e.cookie, e.state, e.now)
  }

  /** The value in the cookie an event sets, if any. The same secret signs session ids. */
  function Signs(s: Server, e: Event): Option<string> {
    match e
    case Login(r, now, bytes) => Some(Encode(FreshPending(r, false, now, bytes)))
    case NewSession(bytes) => Some(Hex.Encode(bytes))
    case Returns(_, _, now, bytes) =>
      match Outcome(s, e)
      case Some(Retry(p)) => Some(Encode(FreshPending(p.returnTo, true, now, bytes)))
      case _ => None
  }

  /** The code cannot be forged: a cookie that verifies carries a value signed before. */
  ghost predicate Unforged(s: Server, events: seq<Event>) {
    forall i, v :: 0 <= i < |events| && events[i].Returns? && events[i].cookie.Some?
                   && VerifyValue(s.mac, s.secret, events[i].cookie.value) == Some(v) ==>
      exists j :: 0 <= j < i && Signs(s, events[j]) == Some(v)
  }

  /** The `r`th event retried the login that the `j`th began. */
  ghost predicate RetriesLogin(s: Server, events: seq<Event>, j: nat, r: nat) {
    && j < r < |events| && events[j].Login? && events[r].Returns?
    && Outcome(s, events[r])
       == Some(Retry(Kept(FreshPending(events[j].returnTo, false, events[j].now, events[j].bytes))))
    && events[r].now <= events[j].now + 600_000
  }

  /** `p` is the login the `j`th event began, or the one retry of it at the `r`th. */
  ghost predicate DescendsFrom(s: Server, events: seq<Event>, p: PendingLogin, j: nat, r: Option<nat>) {
    j < |events| && events[j].Login?
    && var first := FreshPending(events[j].returnTo, false, events[j].now, events[j].bytes);
       match r
       case None => p == Kept(first)
       case Some(n) =>
         RetriesLogin(s, events, j, n)
         && p == Kept(FreshPending(Kept(first).returnTo, true, events[n].now, events[n].bytes))
  }

  lemma HexHasNoBar(bytes: seq<Byte>)
    ensures '|' !in Hex.Encode(bytes)
  {
    EncodeOnlyDigits(bytes);
  }

  /** A session id is no login. */
  lemma SessionIdIsNoLogin(cal: Calendar, bytes: seq<Byte>)
    ensures Decode(cal, Hex.Encode(bytes)) == None
  {
    HexHasNoBar(bytes);
  }

  /** What a login answered with decodes to, when it decodes at all. */
  lemma AnswerDecodes(s: Server, e: Event, p: PendingLogin) returns (v: string)
    requires e.Returns? && (Outcome(s, e) == Some(Accept(p)) || Outcome(s, e) == Some(Retry(p)))
    ensures e.cookie.Some? && VerifyValue(s.mac, s.secret, e.cookie.value) == Some(v) && Decode(s.cal, v) == Some(p)
    ensures p.expiresAt >= e.now
  {
    v := VerifyValue(s.mac, s.secret, e.cookie.value).value;
  }

  /** A cookie signed for a fresh login decodes to what it keeps of it. */
  lemma SignedPending(cal: Calendar, v: string, p: PendingLogin, to: Option<string>, retried: bool, now: Time,
                      bytes: seq<Byte>)
    requires v == Encode(FreshPending(to, retried, now, bytes)) && Decode(cal, v) == Some(p)
    ensures p == Kept(FreshPending(to, retried, now, bytes))
  {
    HexHasNoBar(bytes);
    DecodeOfEncode(cal, FreshPending(to, retried, now, bytes));
  }

  /** Every login a callback is answered with descends from one `issue` through at most one
      retry. */
  lemma {:induction false} Descent(s: Server, events: seq<Event>, i: nat, p: PendingLogin)
    returns (j: nat, r: Option<nat>)
    requires Unforged(s, events) && i < |events| && events[i].Returns?
    requires Outcome(s, events[i]) == Some(Accept(p)) || Outcome(s, events[i]) == Some(Retry(p))
    ensures DescendsFrom(s, events, p, j, r)
    ensures j < i && (r.Some? ==> r.value < i)
    ensures p.retried <==> r.Some?
    decreases i
  {
    hide Encode, Decode, VerifyValue, Hex.Encode;
    var v := AnswerDecodes(s, events[i], p);
    var n: nat :| 0 <= n < i && Signs(s, events[n]) == Some(v);
    match events[n]
    case Login(to, now, bytes) =>
      SignedPending(s.cal, v, p, to, false, now, bytes);
      j, r := n, None;
    case NewSession(bytes) =>
      SessionIdIsNoLogin(s.cal, bytes);
      assert false;
    case Returns(_, _, now, bytes) =>
      var q := Outcome(s, events[n]).value.pending;
      SignedPending(s.cal, v, p, q.returnTo, true, now, bytes);
      var before;
      j, before := Descent(s, events, n, q);
      RetryFollowsLogin(s, events, n, q, j, before);
      r := Some(n);
  }

  lemma RetryFollowsLogin(s: Server, events: seq<Event>, n: nat, q: PendingLogin, j: nat, before: Option<nat>)
    requires j < n < |events| && events[n].Returns? && Outcome(s, events[n]) == Some(Retry(q))
    requires DescendsFrom(s, events, q, j, before) && (q.retried <==> before.Some?)
    ensures before.None? && RetriesLogin(s, events, j, n)
  {
    hide Encode, Decode, VerifyValue, Hex.Encode;
    var w := AnswerDecodes(s, events[n], q);
  }

  /** The main result. A sign-in is accepted only when the presented state is the nonce of its
      own cookie; that cookie goes back to one login through at most one retry, with the
      login's destination, and no later than twice the time to live after it. */
  lemma AcceptedLoginsAreTraced(s: Server, events: seq<Event>, i: nat, p: PendingLogin)
    requires Unforged(s, events) && i < |events| && events[i].Returns?
    requires Outcome(s, events[i]) == Some(Accept(p))
    ensures events[i].state == Some(p.nonce) && p.nonce != ""
    ensures exists j: nat, r ::
      DescendsFrom(s, events, p, j, r) && j < i
      && p.returnTo == (if events[j].returnTo == Some("") then None else events[j].returnTo)
      && events[i].now <= events[j].now + (if r.Some? then 1_200_000 else 600_000)
  {
    hide Encode, Decode, VerifyValue, Hex.Encode;
    var j, r := Descent(s, events, i, p);
    var v := AnswerDecodes(s, events[i], p);
  }

  /** No chain retries twice: the cookie a retry signs is never answered with another. */
  lemma NoSecondRetry(s: Server, events: seq<Event>, i: nat, p: PendingLogin)
    requires Unforged(s, events) && i < |events| && events[i].Returns?
    requires Outcome(s, events[i]) == Some(Retry(p))
    ensures exists j: nat :: j < i && RetriesLogin(s, events, j, i)
  {
    var j, r := Descent(s, events, i, p);
    RetryFollowsLogin(s, events, i, p, j, r);
  }

  /** And every ordinary login can be completed: a callback with the login's own cookie and nonce
      within its life is accepted; so is one with the retry's, when the first came back without
      a state. */
  lemma LoginsComplete(s: Server, to: Option<string>, begun: Time, bytes: seq<Byte>, retriedAt: Time,
                       bytes': seq<Byte>, now: Time)
    requires bytes != [] && bytes' != []
    requires Representable(s.cal, begun + 600_000) && Representable(s.cal, retriedAt + 600_000)
    ensures var (nonce, cookie) := Fresh(s.mac, s.secret, to, false, begun, bytes);
      var first := Returns(Some(cookie), None, retriedAt, bytes');
      cookie == SignValue(s.mac, s.secret, Signs(s, Login(to, begun, bytes)).value)
      && (now <= (begun + 600_000) / 1000 * 1000 ==>
            exists p :: Outcome(s, Returns(Some(cookie), Some(nonce), now, [])) == Some(Accept(p)))
      && (retriedAt <= (begun + 600_000) / 1000 * 1000 ==>
            Signs(s, first).Some?
            && var to' := if to == Some("") then None else to;
               var (nonce', cookie') := Fresh(s.mac, s.secret, to', true, retriedAt, bytes');
               cookie' == SignValue(s.mac, s.secret, Signs(s, first).value)
               && (now <= (retriedAt + 600_000) / 1000 * 1000 ==>
                     exists p :: Outcome(s, Returns(Some(cookie'), Some(nonce'), now, [])) == Some(Accept(p))))
  {
    hide Encode, Decode, VerifyValue, Hex.Encode;
    var (nonce, cookie) := Fresh(s.mac, s.secret, to, false, begun, bytes);
    NonceIsSound(bytes);
    NonceIsSound(bytes');
    FreshIsAnswered(s.mac, s.secret, s.cal, to, false, begun, bytes, Some(nonce), now);
    FreshIsAnswered(s.mac, s.secret, s.cal, to, false, begun, bytes, None, retriedAt);
    var to' := if to == Some("") then None else to;
    var (nonce', cookie') := Fresh(s.mac, s.secret, to', true, retriedAt, bytes');
    FreshIsAnswered(s.mac, s.secret, s.cal, to', true, retriedAt, bytes', Some(nonce'), now);
  }
}
