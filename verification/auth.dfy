/** The session gate of admin-auth.js: one storage slot holding the session,
    a clock value, credential checking against digests of an allow-list, and
    the page-redirect policy. SHA-256 is a parameter, as are the clock reads
    and the random bytes. */
module Auth {
  import opened Base
  import opened JsonStore
  import opened Hex
  import Utf8

  /** 24 hours in milliseconds. */
  const DayMs: int := 24 * 60 * 60 * 1000
  /** Appended to every password before hashing. */
  const Salt: string := "methods_salt_2025"
  const LoginPage: string := "admin-login.html"
  const PanelPage: string := "admin-panel.html"

  /** A digest function on bytes: `crypto.subtle.digest('SHA-256', ..)`. */
  type Digest = seq<byte> -> seq<byte>

  ghost predicate Injective(sha: Digest)
  {
    forall a, b :: sha(a) == sha(b) ==> a == b
  }

  // ---- hashPassword, generateSessionToken ----

  /** `hashPassword(password)`: the lower-case hex of the digest of the UTF-8
      bytes of the salted password. */
  function HashPassword(sha: Digest, password: string): (h: string)
    ensures |h| == 2 * |sha(Utf8.Encode(password + Salt))|
    ensures forall i :: 0 <= i < |h| ==> IsLowerHex(h[i])
    ensures HexDecode(h) == Some(sha(Utf8.Encode(password + Salt)))
  {
    HexRoundTrip(sha(Utf8.Encode(password + Salt)));
    HexEncode(sha(Utf8.Encode(password + Salt)))
  }

  /** Under an injective digest, equal hashes mean equal passwords. */
  lemma HashPasswordInjective(sha: Digest, a: string, b: string)
    requires Injective(sha)
    ensures HashPassword(sha, a) == HashPassword(sha, b) ==> a == b
  {
    if HashPassword(sha, a) == HashPassword(sha, b) {
      HexInjective(sha(Utf8.Encode(a + Salt)), sha(Utf8.Encode(b + Salt)));
      Utf8.EncodeInjective(a + Salt, b + Salt);
      assert a == (a + Salt)[..|a|];
      assert b == (b + Salt)[..|b|];
    }
  }

  /** `generateSessionToken()` on the 32 bytes `getRandomValues` produced:
      64 lower-case hex digits from which the bytes can be read back. */
  function GenerateSessionToken(random: seq<byte>): (token: string)
    requires |random| == 32
    ensures |token| == 64
    ensures forall i :: 0 <= i < |token| ==> IsLowerHex(token[i])
    ensures HexDecode(token) == Some(random)
  {
    HexRoundTrip(random);
    HexEncode(random)
  }

  // ---- validateCredentials ----

  /** The allow-list, user name to the password whose digest is compared. */
  const ValidPasswords: map<string, string> := map["admin" := "12345", "methodsadmin" := "SecurePass123!"]

  /** `validateCredentials(username, password)`: the user name is on the
      allow-list and the password hashes to the listed password's digest. */
  function ValidateCredentials(sha: Digest, username: string, password: string): (ok: bool)
    ensures ok ==> username == "admin" || username == "methodsadmin"
    ensures username in ValidPasswords && password == ValidPasswords[username] ==> ok
  {
    username in ValidPasswords && HashPassword(sha, ValidPasswords[username]) == HashPassword(sha, password)
  }

  /** With a collision-free digest exactly the listed pairs are accepted. */
  lemma CredentialsExact(sha: Digest, username: string, password: string)
    requires Injective(sha)
    ensures ValidateCredentials(sha, username, password) <==>
            username in ValidPasswords && password == ValidPasswords[username]
  {
    if username in ValidPasswords {
      HashPasswordInjective(sha, ValidPasswords[username], password);
    }
  }

  /** The demo account is accepted whatever the digest. */
  lemma DemoAccountAccepted(sha: Digest)
    ensures ValidateCredentials(sha, "admin", "12345")
    ensures !ValidateCredentials(sha, "guest", "12345")
  {
  }

  // ---- isLoggedIn ----

  /** The answer of `isLoggedIn()` and the storage it leaves behind. */
  datatype Check = Check(loggedIn: bool, storage: Storage)

  /** What the right operand of `Date.now() > expiresAt` becomes: a number,
      NaN (the comparison is then false), or a TypeError. A parsed object is
      converted through `valueOf`, which returns the object itself, then
      `toString`: an own `toString` key hides the inherited method, and as
      JSON cannot hold a function, the conversion throws; without that key
      the text "[object Object]" is NaN. */
  datatype Operand = Number(v: real) | NaN | Throws

  function ExpiryValue(expires: Json): (v: Operand)
    ensures expires.JNum? ==> v == Number(expires.n)
    ensures expires.JObj? ==> (v == Throws <==> "toString" in expires.fields)
    ensures expires.JObj? && "toString" !in expires.fields ==> v == NaN
    ensures v == Throws ==> expires.JObj?
  {
    match expires
    case JNum(n) => Number(n)
    case JBool(b) => Number(if b then 1.0 else 0.0)
    case JNull => Number(0.0)
    case JObj(fields) => if "toString" in fields then Throws else NaN
    case _ => NaN
  }

  /** The comparison is true: the session has expired. */
  predicate Expired(expires: Json, now: int)
  {
    ExpiryValue(expires).Number? && now as real > ExpiryValue(expires).v
  }

  /** The session is removed: it has expired, or the comparison threw and the
      `catch` removed it. */
  predicate Evicted(expires: Json, now: int)
  {
    Expired(expires, now) || ExpiryValue(expires) == Throws
  }

  /** A stored session `JSON.parse` accepts and whose properties can be read. */
  predicate Readable(s: Option<Stored>)
  {
    s.Some? && s.value.Doc? && s.value.value != JNull
  }

  /** `isLoggedIn()` at time `now`. A missing or empty slot reads as `{}`:
      not logged in, nothing removed. A session that does not parse (or is
      `null`, whose property read throws) is removed. A session without a
      truthy `token` and `expiresAt` is not logged in but stays. A session
      whose expiry lies strictly before `now` is removed; otherwise the
      caller is logged in and storage is unchanged. An expiry whose
      comparison throws is handled like a session that does not parse. */
  function IsLoggedIn(st: Storage, now: int): (r: Check)
    ensures r.storage == st || r.storage == RemoveItem(st, SessionKey)
    ensures r.loggedIn ==> r.storage == st
    ensures GetItem(st, SessionKey) == Some(Unparsable) || GetItem(st, SessionKey) == Some(Doc(JNull)) ==>
              r == Check(false, RemoveItem(st, SessionKey))
    ensures GetItem(st, SessionKey) == None || GetItem(st, SessionKey) == Some(EmptyText) ==> r == Check(false, st)
    ensures !Readable(GetItem(st, SessionKey)) ==> !r.loggedIn
    ensures Readable(GetItem(st, SessionKey)) ==>
              var session := GetItem(st, SessionKey).value.value;
              var token, expires := Member(session, "token"), Member(session, "expiresAt");
              (r.loggedIn <==> Present(token) && Present(expires) && !Evicted(expires.value, now))
              && (r.storage != st <==> Present(token) && Present(expires) && Evicted(expires.value, now))
  {
    match GetItem(st, SessionKey)
    case None => Check(false, st)
    case Some(EmptyText) => Check(false, st)
    case Some(Unparsable) => Check(false, RemoveItem(st, SessionKey))
    case Some(Doc(session)) =>
      if session == JNull then Check(false, RemoveItem(st, SessionKey))
      else
        var token, expires := Member(session, "token"), Member(session, "expiresAt");
        if !Present(token) || !Present(expires) then Check(false, st)
        else if Evicted(expires.value, now) then Check(false, RemoveItem(st, SessionKey))
        else Check(true, st)
  }

  /** Asking twice at the same time gives the same answer, and the second
      question removes nothing more. */
  lemma IsLoggedInSettles(st: Storage, now: int)
    ensures var first := IsLoggedIn(st, now);
            IsLoggedIn(first.storage, now) == Check(first.loggedIn, first.storage)
  {
  }

  /** A session stays valid until later: logged in at `later` implies logged
      in at every earlier time. */
  lemma LoggedInEarlier(st: Storage, earlier: int, later: int)
    requires earlier <= later
    requires IsLoggedIn(st, later).loggedIn
    ensures IsLoggedIn(st, earlier).loggedIn
  {
  }

  // ---- handleLogin, handleLogout ----

  datatype LoginOutcome = LoggedIn | MissingFields | BadCredentials

  datatype Login = Login(outcome: LoginOutcome, storage: Storage)

  /** The stored session object. */
  function SessionRecord(token: string, username: string, loginTime: int, expiresAt: int): Json
  {
    JObj(map["token" := JStr(token), "username" := JStr(username),
             "loginTime" := JNum(loginTime as real), "expiresAt" := JNum(expiresAt as real)])
  }

  /** `handleLogin(e)` with the typed fields, the digest, the 32 random bytes
      and the two clock reads (`loginTime`, then `expiresAt`). An empty field
      fails before any credential check; wrong credentials fail; either way
      storage is unchanged. Valid credentials store a fresh session expiring
      a day after the second clock read. */
  function HandleLogin(st: Storage, username: string, password: string, sha: Digest,
                       random: seq<byte>, loginClock: int, expiryClock: int): (r: Login)
    requires |random| == 32
    ensures username == "" || password == "" ==> r == Login(MissingFields, st)
    ensures r.outcome == LoggedIn <==> username != "" && password != "" && ValidateCredentials(sha, username, password)
    ensures r.outcome != LoggedIn ==> r.storage == st
    ensures r.outcome == LoggedIn ==>
              GetItem(r.storage, SessionKey) ==
                Some(Doc(SessionRecord(GenerateSessionToken(random), username, loginClock, expiryClock + DayMs)))
    ensures r.outcome == LoggedIn ==> forall k :: k != SessionKey ==> GetItem(r.storage, k) == GetItem(st, k)
  {
    if username == "" || password == "" then Login(MissingFields, st)
    else if ValidateCredentials(sha, username, password) then
      var session := SessionRecord(GenerateSessionToken(random), username, loginClock, expiryClock + DayMs);
      Login(LoggedIn, SetItem(st, SessionKey, session))
    else Login(BadCredentials, st)
  }

  /** After a successful login at a non-negative clock, the session is live
      exactly up to and including its expiry instant (the comparison is
      strict), and past it the check evicts the session. */
  lemma SessionLifetime(st: Storage, username: string, password: string, sha: Digest,
                        random: seq<byte>, loginClock: int, expiryClock: int, now: int)
    requires |random| == 32
    requires expiryClock >= 0
    requires HandleLogin(st, username, password, sha, random, loginClock, expiryClock).outcome == LoggedIn
    ensures var after := HandleLogin(st, username, password, sha, random, loginClock, expiryClock).storage;
            IsLoggedIn(after, now).loggedIn <==> now <= expiryClock + DayMs
    ensures var after := HandleLogin(st, username, password, sha, random, loginClock, expiryClock).storage;
            now > expiryClock + DayMs ==> IsLoggedIn(after, now).storage == RemoveItem(after, SessionKey)
  {
    var after := HandleLogin(st, username, password, sha, random, loginClock, expiryClock).storage;
    var session := SessionRecord(GenerateSessionToken(random), username, loginClock, expiryClock + DayMs);
    assert GetItem(after, SessionKey) == Some(Doc(session));
    assert Member(session, "token") == Some(JStr(GenerateSessionToken(random)));
    assert Member(session, "expiresAt") == Some(JNum((expiryClock + DayMs) as real));
  }

  /** `handleLogout()`: the session slot is cleared unconditionally. */
  function HandleLogout(st: Storage): (r: Storage)
    ensures GetItem(r, SessionKey).None?
    ensures forall k :: k != SessionKey ==> GetItem(r, k) == GetItem(st, k)
  {
    RemoveItem(st, SessionKey)
  }

  /** Logging out twice is logging out once, and nobody is logged in after. */
  lemma LogoutIdempotent(st: Storage, now: int)
    ensures HandleLogout(HandleLogout(st)) == HandleLogout(st)
    ensures IsLoggedIn(HandleLogout(st), now) == Check(false, HandleLogout(st))
  {
  }

  // ---- the redirect policy of init ----

  /** `sub` occurs in `s` starting at index `i`. */
  predicate OccursAt(s: string, sub: string, i: int)
  {
    0 <= i && i + |sub| <= |s| && s[i..i + |sub|] == sub
  }

  /** `s.includes(sub)`, scanning from the left. */
  function Contains(s: string, sub: string): (r: bool)
    ensures r <==> exists i :: OccursAt(s, sub, i)
    decreases |s|
  {
    if |sub| > |s| then false
    else if s[..|sub|] == sub then
      assert OccursAt(s, sub, 0);
      true
    else
      var r := Contains(s[1..], sub);
      assert forall j :: OccursAt(s[1..], sub, j) <==> OccursAt(s, sub, j + 1);
      assert forall i :: OccursAt(s, sub, i) ==> i == 0 || OccursAt(s[1..], sub, i - 1);
      r
  }

  datatype Redirect = ToPanel | ToLogin | Stay

  /** `init()` on page `path`, whose two `isLoggedIn()` calls read the clock
      at `firstClock` and `secondClock`. */
  function Init(st: Storage, path: string, firstClock: int, secondClock: int): (r: (Redirect, Storage))
    ensures r.0 == ToPanel ==> Contains(path, LoginPage)
    ensures r.0 == ToLogin ==> Contains(path, PanelPage)
    ensures !Contains(path, LoginPage) && !Contains(path, PanelPage) ==> r.0 == Stay
    ensures r.1 == st || r.1 == RemoveItem(st, SessionKey)
  {
    var first := IsLoggedIn(st, firstClock);
    if first.loggedIn && Contains(path, LoginPage) then (ToPanel, first.storage)
    else
      var second := IsLoggedIn(first.storage, secondClock);
      if !second.loggedIn && Contains(path, PanelPage) then (ToLogin, second.storage)
      else (Stay, second.storage)
  }

  /** With both clock reads equal the policy is the two rules and nothing else:
      logged in on the login page goes to the panel, logged out on the panel
      page goes to the login page, every other case stays. */
  lemma RedirectPolicy(st: Storage, path: string, now: int)
    ensures var live := IsLoggedIn(st, now).loggedIn;
            var r := Init(st, path, now, now).0;
            (r == ToPanel <==> live && Contains(path, LoginPage))
            && (r == ToLogin <==> !live && Contains(path, PanelPage))
  {
    IsLoggedInSettles(st, now);
  }
}
