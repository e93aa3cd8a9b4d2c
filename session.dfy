/** Session tokens: `generateToken` and `verifyToken`.

    The app serialises the user and an expiry with `JSON.stringify` and `btoa`; here that
    pair of foreign calls is stood in for by a length-prefixed text encoding,
    `Encode`/`Decode`, whose round trip is proved. `btoa` accepts only characters up to
    U+00FF and throws on any other, and `JSON.stringify` leaves such characters as they are,
    so generating a token fails for a user whose text holds one; `GenerateToken` says so. */
module Session {
  import opened Wrappers
  import opened Text
  import opened Records

  /** 24 hours, in milliseconds. */
  const TokenLifetime: nat := 24 * 60 * 60 * 1000

  /** What a token carries: the user's fields and the expiry time `exp`. */
  datatype Claims = Claims(id: string, email: string, name: string, role: Role, exp: nat)

  function RoleName(r: Role): string
  {
    match r
    case Patient => "patient"
    case Admin => "admin"
  }

  function ParseRole(s: string): (r: Option<Role>)
    ensures r.Some? ==> RoleName(r.value) == s
  {
    if s == "patient" then Some(Patient) else if s == "admin" then Some(Admin) else None
  }

  /** One field: its length in decimal, a colon, then the text itself. */
  function Field(s: string): string
  {
    DecimalString(|s|) + ([':'] + s)
  }

  /** A run of fields, one after the other. */
  function Fields(fs: seq<string>): string
  {
    if fs == [] then [] else Field(fs[0]) + Fields(fs[1..])
  }

  function Encode(c: Claims): string
  {
    Fields([c.id, c.email, c.name, RoleName(c.role), DecimalString(c.exp)])
  }

  /** The number of decimal digits `t` starts with. */
  function LeadingDigits(t: string): (d: nat)
    ensures d <= |t| && AllDigits(t[..d])
    ensures d < |t| ==> !IsDigit(t[d])
  {
    if t == [] || !IsDigit(t[0]) then 0
    else
      var d := 1 + LeadingDigits(t[1..]);
      assert t[..d] == [t[0]] + t[1..][..d - 1];
      d
  }

  /** Reads one field off the front of `t`, returning it and the rest. */
  function ReadField(t: string): Option<(string, string)>
  {
    var d := LeadingDigits(t);
    if d == 0 || d == |t| || t[d] != ':' then None
    else
      var n := DigitsValue(t[..d]);
      if d + 1 + n > |t| then None else Some((t[d + 1..d + 1 + n], t[d + 1 + n..]))
  }

  /** Reads exactly `n` fields that make up all of `t`. */
  function ReadFields(t: string, n: nat): (r: Option<seq<string>>)
    ensures r.Some? ==> |r.value| == n
  {
    if n == 0 then (if t == [] then Some([]) else None)
    else match ReadField(t)
      case None => None
      case Some((f, rest)) =>
        match ReadFields(rest, n - 1)
        case None => None
        case Some(fs) => Some([f] + fs)
  }

  /** The claims the five fields id, email, name, role and expiry denote, if well formed. */
  function ClaimsOf(fs: seq<string>): Option<Claims>
    requires |fs| == 5
  {
    if fs[4] == [] || !AllDigits(fs[4]) then None
    else match ParseRole(fs[3])
      case None => None
      case Some(r) => Some(Claims(fs[0], fs[1], fs[2], r, DigitsValue(fs[4])))
  }

  function Decode(t: string): Option<Claims>
  {
    match ReadFields(t, 5)
    case None => None
    case Some(fs) => ClaimsOf(fs)
  }

  /** A run of digits followed by a non-digit: the digits are exactly the leading ones. */
  lemma {:induction false} LeadingDigitsOf(ds: string, rest: string)
    requires AllDigits(ds) && rest != [] && !IsDigit(rest[0])
    ensures LeadingDigits(ds + rest) == |ds|
  {
    if ds != [] {
      assert (ds + rest)[0] == ds[0];
      assert (ds + rest)[1..] == ds[1..] + rest;
      LeadingDigitsOf(ds[1..], rest);
    }
  }

  /** A field followed by anything reads back as that field and the same rest. */
  lemma ReadFieldOf(s: string, rest: string)
    ensures ReadField(Field(s) + rest) == Some((s, rest))
  {
    var ds := DecimalString(|s|);
    var tail := [':'] + (s + rest);
    var t := Field(s) + rest;
    assert t == ds + tail;
    LeadingDigitsOf(ds, tail);
    var d := |ds|;
    assert t[d] == ':';
    assert t[..d] == ds;
    DecimalRoundTrip(|s|);
    assert t[d + 1..] == s + rest;
    assert t[d + 1..d + 1 + |s|] == s;
    assert t[d + 1 + |s|..] == rest;
  }

  /** A run of fields reads back as the same fields. */
  lemma {:induction false} ReadFieldsOf(fs: seq<string>)
    ensures ReadFields(Fields(fs), |fs|) == Some(fs)
  {
    if fs != [] {
      ReadFieldOf(fs[0], Fields(fs[1..]));
      ReadFieldsOf(fs[1..]);
      assert [fs[0]] + fs[1..] == fs;
    }
  }

  /** Decoding an encoded token gives back exactly what was encoded. */
  lemma EncodeDecode(c: Claims)
    ensures Decode(Encode(c)) == Some(c)
  {
    var fs := [c.id, c.email, c.name, RoleName(c.role), DecimalString(c.exp)];
    assert Decode(Encode(c)) == ClaimsOf(fs) by {
      assert Encode(c) == Fields(fs);
      ReadFieldsOf(fs);
    }
    assert ClaimsOf(fs) == Some(c) by {
      DecimalRoundTrip(c.exp);
      assert ParseRole(RoleName(c.role)) == Some(c.role);
    }
  }

  /** The characters `btoa` accepts: none above U+00FF. */
  predicate Latin1(s: string)
  {
    forall i :: 0 <= i < |s| ==> s[i] <= '\U{FF}'
  }

  /** A user whose token `btoa` can encode. The role name and the expiry digits are plain
      ASCII, so only the id, email and name matter. */
  predicate Encodable(u: User)
  {
    Latin1(u.id) && Latin1(u.email) && Latin1(u.name)
  }

  /** `generateToken`: the user's fields with an expiry 24 hours after `now`, or `None` where
      `btoa` throws. */
  function GenerateToken(u: User, now: nat): (r: Option<string>)
    ensures r.Some? <==> Encodable(u)
    ensures r.Some? ==> Decode(r.value) == Some(Claims(u.id, u.email, u.name, u.role, now + TokenLifetime))
  {
    if !Encodable(u) then None
    else
      var c := Claims(u.id, u.email, u.name, u.role, now + TokenLifetime);
      EncodeDecode(c);
      Some(Encode(c))
  }

  /** `verifyToken`: `None` for a token that does not decode or whose expiry is strictly
      before `now`; otherwise the user it carries. */
  function VerifyToken(token: string, now: nat): (r: Option<User>)
    ensures r.Some? <==> Decode(token).Some? && now <= Decode(token).value.exp
    ensures r.Some? ==> var c := Decode(token).value; r.value == User(c.id, c.email, c.name, c.role)
  {
    match Decode(token)
    case None => None
    case Some(c) => if c.exp < now then None else Some(User(c.id, c.email, c.name, c.role))
  }

  /** A token issued at `issuedAt` verifies to the same user up to and including the instant
      `issuedAt + TokenLifetime`, and to nothing after it. */
  lemma IssuedTokenVerifies(u: User, issuedAt: nat, now: nat)
    requires Encodable(u)
    ensures VerifyToken(GenerateToken(u, issuedAt).value, now) ==
            if issuedAt + TokenLifetime < now then None else Some(u)
  {
  }
}
