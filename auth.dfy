/** The sign-in rules of the server: the e-mail allowlist read from the
    environment, the sign-in check, and the two callbacks that carry the
    Google access token from the OAuth account into the JWT and from the JWT
    into the session. */
module Auth {
  import opened Common
  import opened Text

  // ---------------------------------------------------------------------
  // The allowlist

  /** One comma-separated piece of the setting, as it is compared:
      trimmed and lower-cased. */
  function Normalize(piece: string): string {
    Lower(Trim(piece))
  }

  /** The raw setting; a missing variable reads as the empty string. */
  function AllowlistSetting(env: Option<string>): string {
    env.GetOr("")
  }

  /** The normalised pieces of the setting, in order, empty ones included. */
  function NormalizedPieces(setting: string): (r: seq<string>)
    ensures |r| == |Split(setting, ',')|
    ensures forall i :: 0 <= i < |r| ==> r[i] == Normalize(Split(setting, ',')[i])
  {
    var pieces := Split(setting, ',');
    seq(|pieces|, i requires 0 <= i < |pieces| => Normalize(pieces[i]))
  }

  /** `filter(Boolean)` on strings: only the empty string is falsy. */
  predicate NonEmpty(e: string) {
    e != ""
  }

  /** The allowlist: the setting split on commas, each piece trimmed and
      lower-cased, empty pieces dropped, as a `Set` (first occurrence kept). */
  function AllowedEmails(env: Option<string>): (r: seq<string>)
    ensures Distinct(r)
    ensures "" !in r
    ensures forall e :: e in r <==> e != "" && e in NormalizedPieces(AllowlistSetting(env))
  {
    var pieces := NormalizedPieces(AllowlistSetting(env));
    var kept := Filter(pieces, NonEmpty);
    assert forall e :: e in kept <==> e in pieces && e != "";
    Dedup(kept)
  }

  /** Every allowlist entry is already in the form an e-mail address is
      compared in: lower-casing it again changes nothing. */
  lemma AllowedEmailsLowered(env: Option<string>, e: string)
    requires e in AllowedEmails(env)
    ensures Lower(e) == e
  {
    PiecesLowered(AllowlistSetting(env), e);
  }

  lemma PiecesLowered(setting: string, e: string)
    requires e in NormalizedPieces(setting)
    ensures Lower(e) == e
  {
    var normalized := NormalizedPieces(setting);
    var i :| 0 <= i < |normalized| && normalized[i] == e;
    LowerIdempotent(Trim(Split(setting, ',')[i]));
  }

  /** A setting without commas names at most one address. */
  lemma SingleAddress(address: string)
    requires ',' !in address
    requires Normalize(address) != ""
    ensures AllowedEmails(Some(address)) == [Normalize(address)]
  {
    SplitWithoutSeparator(address, ',');
    var pieces := NormalizedPieces(address);
    assert pieces == [Normalize(address)];
    var r := AllowedEmails(Some(address));
    assert Normalize(address) in r;
    forall i | 0 <= i < |r| ensures r[i] == Normalize(address) {
      assert r[i] in r;
      assert r[i] in pieces;
    }
    DistinctSingleton(r, Normalize(address));
  }

  // ---------------------------------------------------------------------
  // The sign-in check

  /** `signIn`: with an empty allowlist every user is let in; otherwise the
      user's e-mail, lower-cased (a missing one reads as ""), must be on it. */
  function SignIn(allowed: seq<string>, email: Option<string>): (ok: bool)
    ensures allowed == [] ==> ok
    ensures allowed != [] ==> (ok <==> Lower(email.GetOr("")) in allowed)
  {
    if |allowed| == 0 then true
    else Lower(email.GetOr("")) in allowed
  }

  /** The check ignores letter case: two addresses that differ only in the
      case of ASCII letters are both accepted or both refused. */
  lemma SignInCaseInsensitive(env: Option<string>, a: string, b: string)
    requires Lower(a) == Lower(b)
    ensures SignIn(AllowedEmails(env), Some(a)) == SignIn(AllowedEmails(env), Some(b))
  {
  }

  /** Once the allowlist names anyone, a user without an e-mail address (or
      with an empty one) is refused. */
  lemma SignInNeedsEmail(env: Option<string>, email: Option<string>)
    requires AllowedEmails(env) != []
    requires email.None? || email == Some("")
    ensures !SignIn(AllowedEmails(env), email)
  {
    assert Lower("") == "";
  }

  /** Any address that matches a piece of the setting, up to letter case and
      surrounding white space, is accepted. */
  lemma SignInListed(env: Option<string>, i: nat, email: string)
    requires i < |Split(AllowlistSetting(env), ',')|
    requires Normalize(Split(AllowlistSetting(env), ',')[i]) == Lower(email)
    requires Lower(email) != ""
    ensures SignIn(AllowedEmails(env), Some(email))
  {
    assert NormalizedPieces(AllowlistSetting(env))[i] == Lower(email);
    assert Lower(email) in AllowedEmails(env);
  }

  /** With a non-empty allowlist, an accepted address matches some piece of
      the setting. */
  lemma SignInOnlyListed(env: Option<string>, email: Option<string>)
    requires AllowedEmails(env) != []
    requires SignIn(AllowedEmails(env), email)
    ensures exists i :: 0 <= i < |Split(AllowlistSetting(env), ',')| &&
                        Normalize(Split(AllowlistSetting(env), ',')[i]) == Lower(email.GetOr(""))
  {
    var pieces := NormalizedPieces(AllowlistSetting(env));
    var i :| 0 <= i < |pieces| && pieces[i] == Lower(email.GetOr(""));
  }

  // ---------------------------------------------------------------------
  // The callbacks

  /** The OAuth account returned by the provider; only its access token is
      read. */
  datatype Account = Account(accessToken: Option<string>)

  /** The JWT NextAuth keeps between requests: the access token this code
      stores, and the claims NextAuth itself manages. */
  class Token {
    var accessToken: Option<string>
    var claims: map<string, string>

    constructor (claims: map<string, string>)
      ensures this.accessToken.None? && this.claims == claims
    {
      this.accessToken := None;
      this.claims := claims;
    }
  }

  /** The session object handed to the client. */
  class Session {
    var accessToken: Option<string>
    var user: map<string, string>
    var expires: string

    constructor (user: map<string, string>, expires: string)
      ensures this.accessToken.None? && this.user == user && this.expires == expires
    {
      this.accessToken := None;
      this.user := user;
      this.expires := expires;
    }
  }

  /** `jwt`: on sign-in (an account is present) the account's access token is
      written into the token; otherwise the token is returned as it was. */
  method Jwt(token: Token, account: Option<Account>) returns (r: Token)
    modifies token
    ensures r == token
    ensures account.Some? ==> token.accessToken == account.value.accessToken
    ensures account.None? ==> token.accessToken == old(token.accessToken)
    ensures token.claims == old(token.claims)
  {
    if account.Some? {
      token.accessToken := account.value.accessToken;
    }
    r := token;
  }

  /** `session`: the token's access token is copied into the session; nothing
      else in the session or the token changes. */
  method SessionCallback(session: Session, token: Token) returns (r: Session)
    modifies session
    ensures r == session
    ensures session.accessToken == token.accessToken
    ensures session.user == old(session.user) && session.expires == old(session.expires)
  {
    session.accessToken := token.accessToken;
    r := session;
  }
}
