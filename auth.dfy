/**
  The request guards of the server: the `verifyToken` middleware, the
  `verifyAdmin` middleware and the email check of the self-scoped routes.
  Each guard is a decision: let the request through (with the value the
  handler gets), refuse it with a status and message, or throw.
 */
module Auth {
  import opened Wrappers
  import opened Documents
  import opened Records

  /** The decoded token payload the guards read (`req.decoded`). */
  datatype Claim = Claim(email: string)

  /**
    What a guard decides: `Allow` calls `next()`, `Deny` sends a status and a
    `{message}` body, `Fault` is an exception thrown inside the guard.
   */
  datatype Verdict<T> = Allow(value: T) | Deny(status: nat, message: string) | Fault

  // ---------------------------------------------------------------------------
  // The Authorization header

  /** JavaScript's `s.split(sep)` for a one-character separator: every occurrence splits. */
  function Split(s: string, sep: char): (parts: seq<string>)
    ensures |parts| >= 1
    ensures |parts| > 1 <==> sep in s
    ensures forall i :: 0 <= i < |parts| ==> sep !in parts[i]
  {
    if s == [] then [[]]
    else
      var rest := Split(s[1..], sep);
      assert sep in s <==> s[0] == sep || sep in s[1..];
      if s[0] == sep then [[]] + rest
      else [[s[0]] + rest[0]] + rest[1..]
  }

  /** `parts.join(sep)`, the inverse of `Split`. */
  function Join(parts: seq<string>, sep: char): string
    requires |parts| >= 1
  {
    if |parts| == 1 then parts[0] else parts[0] + [sep] + Join(parts[1..], sep)
  }

  /** Splitting loses nothing: joining the fields again gives back the string. */
  lemma {:induction false} JoinSplit(s: string, sep: char)
    ensures Join(Split(s, sep), sep) == s
  {
    if s != [] {
      JoinSplit(s[1..], sep);
      var rest := Split(s[1..], sep);
      if s[0] != sep {
        if |rest| == 1 {
          assert Join(Split(s, sep), sep) == [s[0]] + rest[0];
        } else {
          assert Split(s, sep)[1..] == rest[1..];
          assert Join(rest, sep) == rest[0] + [sep] + Join(rest[1..], sep);
        }
      } else {
        assert Split(s, sep)[1..] == rest;
      }
      assert s == [s[0]] + s[1..];
    }
  }

  /** A separator-free string is one field. */
  lemma {:induction false} SplitWord(w: string, sep: char)
    requires sep !in w
    ensures Split(w, sep) == [w]
  {
    if w != [] {
      SplitWord(w[1..], sep);
      assert w == [w[0]] + w[1..];
    }
  }

  /** A separator-free word followed by a separator is the first field. */
  lemma {:induction false} SplitAfterWord(w: string, sep: char, rest: string)
    requires sep !in w
    ensures Split(w + [sep] + rest, sep) == [w] + Split(rest, sep)
  {
    if w != [] {
      SplitAfterWord(w[1..], sep, rest);
      assert (w + [sep] + rest)[1..] == w[1..] + [sep] + rest;
      assert w == [w[0]] + w[1..];
    } else {
      assert w + [sep] + rest == [sep] + rest;
      assert ([sep] + rest)[1..] == rest;
    }
  }

  /** `authorization.split(' ')[1]`: the second space-separated field, `undefined` when there is none. */
  function HeaderToken(header: string): (t: Option<string>)
    ensures t.Some? <==> ' ' in header
    ensures t.Some? ==> ' ' !in t.value
  {
    var parts := Split(header, ' ');
    if |parts| > 1 then Some(parts[1]) else None
  }

  /** A header `<scheme> <token>` yields exactly the token. */
  lemma BearerToken(scheme: string, token: string)
    requires ' ' !in scheme && ' ' !in token
    ensures HeaderToken(scheme + " " + token) == Some(token)
  {
    SplitAfterWord(scheme, ' ', token);
    SplitWord(token, ' ');
  }

  /** The token is the word after the first space, whatever follows it. */
  lemma SecondField(scheme: string, token: string, rest: string)
    requires ' ' !in scheme && ' ' !in token
    requires rest == [] || rest[0] == ' '
    ensures HeaderToken(scheme + " " + token + rest) == Some(token)
  {
    SplitAfterWord(scheme, ' ', token + rest);
    assert scheme + " " + token + rest == scheme + [' '] + (token + rest);
    if rest == [] {
      assert token + rest == token;
      SplitWord(token, ' ');
    } else {
      assert token + rest == token + [' '] + rest[1..];
      SplitAfterWord(token, ' ', rest[1..]);
    }
  }

  /**
    The token that reaches signature checking: none when the header is absent
    or empty (`!req.headers.authorization`), when it has no second field, or
    when that field is empty (`jwt must be provided`).
   */
  function TokenIn(authorization: Option<string>): (t: Option<string>)
    ensures t.Some? ==> t.value != [] && ' ' !in t.value
    ensures t.Some? ==> authorization.Some? && HeaderToken(authorization.value) == t
    ensures authorization.None? || authorization == Some("") ==> t.None?
    ensures authorization.Some? && HeaderToken(authorization.value).Some? && HeaderToken(authorization.value).value != [] ==>
      t == HeaderToken(authorization.value)
  {
    match authorization
    case None => None
    case Some(h) =>
      if h == "" then None
      else match HeaderToken(h)
        case None => None
        case Some(tok) => if tok == "" then None else Some(tok)
  }

  // ---------------------------------------------------------------------------
  // verifyToken

  /**
    The `verifyToken` middleware. `verify` stands for `jwt.verify` with the
    server's secret: it decodes a well-signed, unexpired token and fails on
    any other. Every refusal is 401 "Forbidden access"; on success the
    decoded claim is handed on as it came out of `verify`.
   */
  function VerifyToken(authorization: Option<string>, verify: string -> Option<Claim>): (v: Verdict<Claim>)
    ensures !v.Allow? ==> v == Deny(401, "Forbidden access")
    ensures v.Allow? <==> TokenIn(authorization).Some? && verify(TokenIn(authorization).value).Some?
    ensures v.Allow? ==> verify(TokenIn(authorization).value) == Some(v.value)
    ensures authorization.None? ==> v.Deny?
  {
    match TokenIn(authorization)
    case None => Deny(401, "Forbidden access")
    case Some(token) =>
      match verify(token)
      case None => Deny(401, "Forbidden access")
      case Some(claim) => Allow(claim)
  }

  /**
    A token the issuer signed for a claim, sent as `Bearer <token>`, passes
    `verifyToken` with that very claim, provided the verifier accepts what the
    signer produces (a signed token has no spaces and is never empty).
   */
  lemma IssuedTokenAccepted(claim: Claim, sign: Claim -> string, verify: string -> Option<Claim>)
    requires sign(claim) != [] && ' ' !in sign(claim)
    requires verify(sign(claim)) == Some(claim)
    ensures VerifyToken(Some("Bearer " + sign(claim)), verify) == Allow(claim)
  {
    BearerToken("Bearer", sign(claim));
    assert "Bearer" + " " + sign(claim) == "Bearer " + sign(claim);
  }

  // ---------------------------------------------------------------------------
  // verifyAdmin

  /** `userCollection.findOne({email})`. */
  function FindUser(users: seq<Doc<User>>, email: string): (r: Option<Doc<User>>)
    ensures r.Some? ==> r.value in users && r.value.body.email == email
    ensures r.None? <==> forall i :: 0 <= i < |users| ==> users[i].body.email != email
  {
    FindFirst(users, (d: Doc<User>) => d.body.email == email)
  }

  /** When emails are unique, `findOne({email})` finds the one user with that email. */
  lemma FindUserUnique(users: seq<Doc<User>>, i: nat)
    requires UniqueBy(users, (d: Doc<User>) => d.body.email)
    requires i < |users|
    ensures FindUser(users, users[i].body.email) == Some(users[i])
  {
    var r := FindUser(users, users[i].body.email);
    var k :| 0 <= k < |users| && users[k] == r.value;
    assert forall j :: 0 <= j < |users| && j != i ==> users[j].body.email != users[i].body.email;
  }

  /**
    The `verifyAdmin` middleware: it looks the claim's email up and lets the
    request through only if that user's role is exactly "admin"; any other
    role is 403. A missing user makes `user.role` dereference `null`, which
    throws rather than refusing.
   */
  function AdminGate(users: seq<Doc<User>>, claim: Claim): (v: Verdict<()>)
    ensures v.Fault? <==> forall i :: 0 <= i < |users| ==> users[i].body.email != claim.email
    ensures v.Allow? ==> exists i :: 0 <= i < |users| && users[i].body.email == claim.email && IsAdmin(users[i].body)
    ensures v.Deny? ==> v == Deny(403, "forbidden access")
  {
    match FindUser(users, claim.email)
    case None => Fault
    case Some(u) => if IsAdmin(u.body) then Allow(()) else Deny(403, "forbidden access")
  }

  /** With unique emails the gate decides by the role of the caller's own record. */
  lemma AdminGateDecidesByRole(users: seq<Doc<User>>, claim: Claim, i: nat)
    requires UniqueBy(users, (d: Doc<User>) => d.body.email)
    requires i < |users| && users[i].body.email == claim.email
    ensures AdminGate(users, claim) == if IsAdmin(users[i].body) then Allow(()) else Deny(403, "forbidden access")
  {
    FindUserUnique(users, i);
  }

  /**
    `verifyToken` followed by `verifyAdmin`, the guard chain of every admin
    route: the handler runs only for a verified token whose email belongs to
    an admin; a failed token is refused before the users are consulted.
   */
  function AdminRoute(authorization: Option<string>, verify: string -> Option<Claim>, users: seq<Doc<User>>): (v: Verdict<Claim>)
    ensures !VerifyToken(authorization, verify).Allow? ==> v == VerifyToken(authorization, verify)
    ensures v.Allow? ==> v == VerifyToken(authorization, verify)
    ensures v.Allow? ==> exists i :: 0 <= i < |users| && users[i].body.email == v.value.email && IsAdmin(users[i].body)
    ensures VerifyToken(authorization, verify).Allow? ==>
      (v.Allow? <==> AdminGate(users, VerifyToken(authorization, verify).value).Allow?)
    ensures VerifyToken(authorization, verify).Allow? ==>
      (v.Fault? <==> AdminGate(users, VerifyToken(authorization, verify).value).Fault?)
    ensures VerifyToken(authorization, verify).Allow? && v.Deny? ==> v == Deny(403, "forbidden access")
  {
    var token := VerifyToken(authorization, verify);
    if !token.Allow? then token
    else match AdminGate(users, token.value)
      case Allow(_) => token
      case Deny(status, message) => Deny(status, message)
      case Fault => Fault
  }

  // ---------------------------------------------------------------------------
  // Self-scoped routes

  /**
    `verifyToken` followed by `email !== req.decoded.email`: a self-scoped
    route serves only the caller's own email, and refuses any other with 401
    and the route's own message.
   */
  function SelfScope(authorization: Option<string>, verify: string -> Option<Claim>, email: string, message: string): (v: Verdict<Claim>)
    ensures !VerifyToken(authorization, verify).Allow? ==> v == VerifyToken(authorization, verify)
    ensures v.Allow? ==> v == VerifyToken(authorization, verify) && v.value.email == email
    ensures VerifyToken(authorization, verify).Allow? && VerifyToken(authorization, verify).value.email != email ==>
      v == Deny(401, message)
    ensures VerifyToken(authorization, verify).Allow? && VerifyToken(authorization, verify).value.email == email ==>
      v == VerifyToken(authorization, verify)
  {
    var token := VerifyToken(authorization, verify);
    if !token.Allow? then token
    else if email != token.value.email then Deny(401, message)
    else token
  }
}
