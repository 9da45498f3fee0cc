/**
 * The token codec that `AuthService` and the `Claims` extractor call
 * (`jsonwebtoken::encode` and `jsonwebtoken::decode` with HS256).
 *
 * The wire format of RFC 7519 (base64url JSON, HMAC-SHA256 as in section 3.2
 * of RFC 7518) is not modelled. A token keeps the three-part shape
 * `header.payload.signature`: the header is the base64url text of
 * `Header::default()`, the payload the five claims as length-prefixed
 * fields of decimal code points, and the signature a stand-in for the MAC
 * of the signing input under the secret's effective HMAC key. Like base64url
 * text, a token is visible ASCII. What the core relies on (a token decodes
 * to the claims it was made from under the same secret, a secret that is
 * another HMAC key is rejected, expiry is enforced only when validation asks
 * for it) is then proved about this codec. The stand-ins are invertible, so
 * nothing is claimed about one-wayness or unforgeability.
 */
module TokenCodec {
  import opened Domain
  import opened Text

  /** base64url of `{"typ":"JWT","alg":"HS256"}`, the default header. */
  const HeaderSegment: string := "eyJ0eXAiOiJKV1QiLCJhbGciOiJIUzI1NiJ9"

  /** The kinds of `jsonwebtoken::errors::ErrorKind` that decoding can report here. */
  datatype ErrorKind = InvalidToken | InvalidSignature | MissingRequiredClaim(claim: string) | ExpiredSignature

  /** The Debug rendering of a `jsonwebtoken::errors::Error` of that kind. */
  function DebugText(e: ErrorKind): string
  {
    match e
    case InvalidToken => "Error(InvalidToken)"
    case InvalidSignature => "Error(InvalidSignature)"
    case MissingRequiredClaim(claim) => "Error(MissingRequiredClaim(\"" + claim + "\"))"
    case ExpiredSignature => "Error(ExpiredSignature)"
  }

  /** The part of `jsonwebtoken::Validation` that this core touches. */
  datatype Validation = Validation(validateExp: bool, leeway: nat)

  /** `Validation::default()`: expiry is checked, with 60 seconds of leeway. */
  const DefaultValidation: Validation := Validation(true, 60)

  // ---------------------------------------------------------------- payload

  /** Whether `n` is the code point of a Unicode scalar value, that is, of a `char`. */
  predicate IsScalar(n: nat)
  {
    n < 0xD800 || 0xE000 <= n < 0x11_0000
  }

  /** Each character as its decimal code point followed by `;`. */
  function Codes(s: string): string
  {
    if s == [] then "" else Decimal(s[0] as int) + ";" + Codes(s[1..])
  }

  lemma {:induction false} CodesPrintable(s: string)
    ensures Printable(Codes(s))
  {
    if s != [] {
      var d := Decimal(s[0] as int);
      DigitsPrintable(d);
      PrintableAppend(d, ";");
      CodesPrintable(s[1..]);
      PrintableAppend(d + ";", Codes(s[1..]));
    }
  }

  /** `n` characters read back from their code points, and what follows them. */
  function ReadCodes(t: string, n: nat): (r: Option<(string, string)>)
    ensures r.Some? ==> |r.value.0| == n && |r.value.1| <= |t|
  {
    if n == 0 then Some(("", t))
    else
      match IndexOf(t, ';')
      case None => None
      case Some(k) =>
        match ParseNat(t[..k])
        case None => None
        case Some(code) =>
          if !IsScalar(code) then None
          else
            match ReadCodes(t[k + 1..], n - 1)
            case None => None
            case Some(more) => Some(([code as char] + more.0, more.1))
  }

  /** How the code of one character splits off the front of a text. */
  lemma CodeOf(c: char, rest: string)
    ensures var d := Decimal(c as int);
      var t := d + [';'] + rest;
      && IndexOf(t, ';') == Some(|d|) && t[..|d|] == d && t[|d| + 1..] == rest
      && ParseNat(d) == Some(c as int) && IsScalar(c as int) && (c as int) as char == c
  {
    var d := Decimal(c as int);
    var t := d + [';'] + rest;
    assert ';' !in d by {
      assert forall i :: 0 <= i < |d| ==> IsDigit(d[i]);
    }
    IndexOfAfter(d, ';', rest);
    assert t[..|d|] == d;
    assert t[|d| + 1..] == rest;
    DecimalRoundTrip(c as int);
  }

  /** Reading one more character than follows a code is reading that character, then the rest. */
  lemma ReadCodesCons(c: char, after: string, n: nat)
    ensures ReadCodes(Decimal(c as int) + [';'] + after, n + 1)
      == match ReadCodes(after, n)
         case None => None
         case Some(more) => Some(([c] + more.0, more.1))
  {
    CodeOf(c, after);
  }

  lemma {:induction false} ReadCodesOf(s: string, rest: string)
    ensures ReadCodes(Codes(s) + rest, |s|) == Some((s, rest))
  {
    if s != [] {
      var d := Decimal(s[0] as int);
      var after := Codes(s[1..]) + rest;
      assert Codes(s) + rest == d + [';'] + after;
      ReadCodesCons(s[0], after, |s| - 1);
      ReadCodesOf(s[1..], rest);
      assert [s[0]] + s[1..] == s;
    } else {
      assert Codes(s) + rest == rest;
    }
  }

  /**
   * A field: the decimal length, a colon, and the characters as code points,
   * so that a field is visible ASCII as the base64url text of a token is.
   */
  function Field(s: string): string
  {
    Decimal(|s|) + ":" + Codes(s)
  }

  lemma FieldPrintable(s: string)
    ensures Printable(Field(s))
  {
    DigitsPrintable(Decimal(|s|));
    PrintableAppend(Decimal(|s|), ":");
    CodesPrintable(s);
    PrintableAppend(Decimal(|s|) + ":", Codes(s));
  }

  /** The first field of `t` and what follows it. */
  function ReadField(t: string): (r: Option<(string, string)>)
    ensures r.Some? ==> |r.value.1| < |t|
  {
    match IndexOf(t, ':')
    case None => None
    case Some(k) =>
      match ParseNat(t[..k])
      case None => None
      case Some(n) => ReadCodes(t[k + 1..], n)
  }

  lemma ReadFieldOf(s: string, rest: string)
    ensures ReadField(Field(s) + rest) == Some((s, rest))
  {
    var d := Decimal(|s|);
    var t := Field(s) + rest;
    assert t == d + [':'] + (Codes(s) + rest);
    assert ':' !in d by {
      assert forall i :: 0 <= i < |d| ==> IsDigit(d[i]);
    }
    IndexOfAfter(d, ':', Codes(s) + rest);
    assert t[..|d|] == d;
    DecimalRoundTrip(|s|);
    assert t[|d| + 1..] == Codes(s) + rest;
    ReadCodesOf(s, rest);
  }

  function RoleName(r: UserRole): string
  {
    match r
    case Admin => "admin"
    case Regular => "regular"
  }

  function ParseRole(s: string): Option<UserRole>
  {
    if s == "admin" then Some(Admin)
    else if s == "regular" then Some(Regular)
    else None
  }

  /** Fields written one after another. */
  function Fields(fs: seq<string>): string
  {
    if fs == [] then "" else Field(fs[0]) + Fields(fs[1..])
  }

  lemma {:induction false} FieldsPrintable(fs: seq<string>)
    ensures Printable(Fields(fs))
  {
    if fs != [] {
      FieldPrintable(fs[0]);
      FieldsPrintable(fs[1..]);
      PrintableAppend(Field(fs[0]), Fields(fs[1..]));
    }
  }

  /** The first `n` fields of `t`, and what follows them. */
  function ReadFields(t: string, n: nat): (r: Option<(seq<string>, string)>)
    ensures r.Some? ==> |r.value.0| == n && |r.value.1| <= |t|
    decreases n
  {
    if n == 0 then Some(([], t))
    else
      var first :- ReadField(t);
      var more :- ReadFields(first.1, n - 1);
      Some(([first.0] + more.0, more.1))
  }

  lemma {:induction false} ReadFieldsOf(fs: seq<string>, tail: string)
    ensures ReadFields(Fields(fs) + tail, |fs|) == Some((fs, tail))
  {
    if fs != [] {
      assert Fields(fs) + tail == Field(fs[0]) + (Fields(fs[1..]) + tail);
      ReadFieldOf(fs[0], Fields(fs[1..]) + tail);
      ReadFieldsOf(fs[1..], tail);
      assert [fs[0]] + fs[1..] == fs;
    } else {
      assert Fields(fs) + tail == tail;
    }
  }

  /** The claims as text, in the order of the `Claims` struct. */
  function ClaimFields(c: Claims): seq<string>
  {
    [Decimal(c.userId), Decimal(c.tenantId), c.email, RoleName(c.role), IntText(c.exp)]
  }

  /** The serialised claims. */
  function Payload(c: Claims): string
  {
    Fields(ClaimFields(c))
  }

  /** The claims named by five fields, if each field parses. */
  function ClaimsOf(fs: seq<string>): Option<Claims>
    requires |fs| == 5
  {
    var userId :- ParseNat(fs[0]);
    var tenantId :- ParseNat(fs[1]);
    var role :- ParseRole(fs[3]);
    var exp :- ParseInt(fs[4]);
    Some(Claims(userId, tenantId, fs[2], role, exp))
  }

  lemma ClaimsOfFields(c: Claims)
    ensures ClaimsOf(ClaimFields(c)) == Some(c)
  {
    DecimalRoundTrip(c.userId);
    DecimalRoundTrip(c.tenantId);
    ParseIntRoundTrip(c.exp);
  }

  /** Claims read from the front of `t`, and what follows them. */
  function ReadClaims(t: string): (r: Option<(Claims, string)>)
    ensures r.Some? ==> |r.value.1| <= |t|
  {
    var read :- ReadFields(t, 5);
    var claims :- ClaimsOf(read.0);
    Some((claims, read.1))
  }

  lemma ReadClaimsOf(c: Claims, tail: string)
    ensures ReadClaims(Payload(c) + tail) == Some((c, tail))
  {
    ReadFieldsOf(ClaimFields(c), tail);
    ClaimsOfFields(c);
  }

  // ---------------------------------------------------------------- signing

  /** The number of bytes in the UTF-8 encoding of `s`, which `secret.as_ref()` hands to HMAC. */
  function Utf8Length(s: string): nat
  {
    if s == [] then 0
    else
      var c := s[0] as int;
      (if c < 0x80 then 1 else if c < 0x800 then 2 else if c < 0x1_0000 then 3 else 4) + Utf8Length(s[1..])
  }

  lemma {:induction false} Utf8LengthAppend(a: string, b: string)
    ensures Utf8Length(a + b) == Utf8Length(a) + Utf8Length(b)
  {
    if a != [] {
      assert (a + b)[0] == a[0] && (a + b)[1..] == a[1..] + b;
      Utf8LengthAppend(a[1..], b);
    } else {
      assert a + b == b;
    }
  }

  /** The block size of SHA-256 in bytes, which fixes how HMAC treats its key (section 2 of RFC 2104). */
  const BlockSize: nat := 64

  /**
   * The key HMAC actually uses: a key longer than a block is replaced by its
   * SHA-256 digest, and every key is then padded with zero bytes to a block.
   */
  datatype HmacKey = Padded(bytes: string) | Hashed(secret: string)

  /** `s` without its trailing NUL characters. */
  function TrimNul(s: string): (r: string)
    ensures r <= s && (r == [] || r[|r| - 1] != '\0')
  {
    if s != [] && s[|s| - 1] == '\0' then TrimNul(s[..|s| - 1]) else s
  }

  /**
   * The effective key of a secret. Zero padding makes a short key and the
   * same key with trailing NULs one key. A long key is kept whole in place of
   * its digest.
   */
  function KeyOf(secret: string): HmacKey
  {
    if Utf8Length(secret) > BlockSize then Hashed(secret) else Padded(TrimNul(secret))
  }

  function KeyText(k: HmacKey): string
  {
    match k
    case Padded(b) => "P" + Field(b)
    case Hashed(s) => "H" + Field(s)
  }

  /**
   * Stand-in for HMAC-SHA256 of `message` under `secret`: it depends on the
   * secret only through the effective key, and distinct effective keys give
   * distinct signatures. It is invertible, so it states nothing about the
   * one-wayness of the real MAC.
   */
  function Mac(secret: string, message: string): string
  {
    KeyText(KeyOf(secret)) + message
  }

  lemma MacDeterminesKey(s1: string, s2: string, message: string)
    requires Mac(s1, message) == Mac(s2, message)
    ensures KeyOf(s1) == KeyOf(s2)
  {
    var k1, k2 := KeyOf(s1), KeyOf(s2);
    var m := Mac(s1, message);
    assert m[0] == KeyText(k1)[0] && m[0] == KeyText(k2)[0];
    var b1 := if k1.Padded? then k1.bytes else k1.secret;
    var b2 := if k2.Padded? then k2.bytes else k2.secret;
    assert KeyText(k1) == [m[0]] + Field(b1);
    assert KeyText(k2) == [m[0]] + Field(b2);
    assert m[1..] == Field(b1) + message;
    assert m[1..] == Field(b2) + message;
    ReadFieldOf(b1, message);
    ReadFieldOf(b2, message);
  }

  function SigningInput(c: Claims): string
  {
    HeaderSegment + "." + Payload(c)
  }

  /**
   * `encode(&Header::default(), &claims, &EncodingKey::from_secret(secret))`:
   * the default header's segment, the payload, the signature.
   */
  function Encode(c: Claims, secret: string): (token: string)
    ensures HeaderSegment + "." <= token
  {
    SigningInput(c) + "." + Mac(secret, SigningInput(c))
  }

  lemma HeaderPrintable()
    ensures Printable(HeaderSegment + ".")
  {
    var s := HeaderSegment + ".";
    assert |s| == 37;
    assert forall i :: 0 <= i < |s| ==> ' ' <= s[i] <= '~';
    PrintableAt(s);
  }

  lemma SigningInputPrintable(c: Claims)
    ensures Printable(SigningInput(c))
  {
    HeaderPrintable();
    FieldsPrintable(ClaimFields(c));
    PrintableAppend(HeaderSegment + ".", Payload(c));
  }

  lemma MacPrintable(secret: string, message: string)
    requires Printable(message)
    ensures Printable(Mac(secret, message))
  {
    var k := KeyOf(secret);
    var data := if k.Padded? then k.bytes else k.secret;
    FieldPrintable(data);
    PrintableAppend(if k.Padded? then "P" else "H", Field(data));
    PrintableAppend(KeyText(k), message);
  }

  /** A token is visible ASCII whatever characters the email and the secret hold, as base64url text is. */
  lemma EncodePrintable(c: Claims, secret: string)
    ensures Printable(Encode(c, secret))
  {
    var input := SigningInput(c);
    SigningInputPrintable(c);
    PrintableAppend(input, ".");
    MacPrintable(secret, input);
    PrintableAppend(input + ".", Mac(secret, input));
  }

  /**
   * `decode::<Claims>(token, &DecodingKey::from_secret(secret), &validation)`
   * at the clock reading `now`: structure, then signature, then the claims
   * check. That check reads `exp` as an unsigned number and requires it under
   * every validation used here, so a negative `exp` counts as missing; only
   * then is expiry tested.
   */
  function Decode(token: string, secret: string, validation: Validation, now: Timestamp): (r: Result<Claims, ErrorKind>)
    ensures r.Success? ==> r.value.exp >= 0
    ensures r.Success? && validation.validateExp ==> r.value.exp >= now - validation.leeway
  {
    var prefix := HeaderSegment + ".";
    if !(prefix <= token) then Failure(InvalidToken)
    else
      match ReadClaims(token[|prefix|..])
      case None => Failure(InvalidToken)
      case Some(read) =>
        var tail := read.1;
        if |tail| == 0 || tail[0] != '.' then Failure(InvalidToken)
        else if tail[1..] != Mac(secret, token[..|token| - |tail|]) then Failure(InvalidSignature)
        else if read.0.exp < 0 then Failure(MissingRequiredClaim("exp"))
        else if validation.validateExp && read.0.exp < now - validation.leeway then Failure(ExpiredSignature)
        else Success(read.0)
  }

  /** The two cuts `Decode` makes in a concatenation of three parts. */
  lemma SplitThree(front: string, middle: string, back: string)
    ensures (front + middle + back)[|front|..] == middle + back
    ensures (front + middle + back)[..|front + middle + back| - |back|] == front + middle
  {
  }

  /** How a freshly encoded token splits into its signed part and signature. */
  lemma EncodedParts(c: Claims, secret: string)
    ensures var token := Encode(c, secret);
      var tail := "." + Mac(secret, SigningInput(c));
      && HeaderSegment + "." <= token
      && ReadClaims(token[|HeaderSegment + "."|..]) == Some((c, tail))
      && |tail| <= |token|
      && token[..|token| - |tail|] == SigningInput(c)
      && tail[1..] == Mac(secret, SigningInput(c))
  {
    var prefix := HeaderSegment + ".";
    var payload := Payload(c);
    var tail := "." + Mac(secret, SigningInput(c));
    assert Encode(c, secret) == prefix + payload + tail;
    SplitThree(prefix, payload, tail);
    ReadClaimsOf(c, tail);
  }

  /**
   * Decoding a token with the secret it was signed with gives back its claims,
   * unless `exp` is negative (read as a missing claim) or expiry is validated
   * and `exp` lies more than the leeway in the past.
   */
  lemma {:induction false} DecodeEncoded(c: Claims, secret: string, validation: Validation, now: Timestamp)
    ensures Decode(Encode(c, secret), secret, validation, now)
      == if c.exp < 0 then Failure(MissingRequiredClaim("exp"))
         else if validation.validateExp && c.exp < now - validation.leeway then Failure(ExpiredSignature)
         else Success(c)
  {
    EncodedParts(c, secret);
  }

  /**
   * Under another secret, a token is rejected with `InvalidSignature` unless
   * the two secrets give HMAC the same effective key, in which case it
   * decodes as under its own.
   */
  lemma {:induction false} DecodeOtherSecret(c: Claims, secret: string, other: string, validation: Validation, now: Timestamp)
    ensures Decode(Encode(c, secret), other, validation, now)
      == if KeyOf(other) == KeyOf(secret) then Decode(Encode(c, secret), secret, validation, now)
         else Failure(InvalidSignature)
  {
    if KeyOf(other) == KeyOf(secret) {
      SameKeySameDecode(Encode(c, secret), other, secret, validation, now);
    } else {
      EncodedParts(c, secret);
      if Mac(other, SigningInput(c)) == Mac(secret, SigningInput(c)) {
        MacDeterminesKey(other, secret, SigningInput(c));
      }
    }
  }

  /** Decoding depends on the secret only through HMAC's effective key. */
  lemma SameKeySameDecode(token: string, s1: string, s2: string, validation: Validation, now: Timestamp)
    requires KeyOf(s1) == KeyOf(s2)
    ensures Decode(token, s1, validation, now) == Decode(token, s2, validation, now)
  {
  }

  /** A secret shorter than a block and the same secret with a NUL appended are one HMAC key. */
  lemma TrailingNulSameKey(secret: string)
    requires Utf8Length(secret) < BlockSize
    ensures KeyOf(secret + "\0") == KeyOf(secret)
  {
    Utf8LengthAppend(secret, "\0");
    assert (secret + "\0")[..|secret|] == secret;
  }

  /**
   * Decoding ignores the clock when expiry is not validated, and then fails
   * only as malformed, wrongly signed or missing `exp`, never as expired.
   */
  lemma DecodeWithoutExpiryIgnoresClock(token: string, secret: string, leeway: nat, now1: Timestamp, now2: Timestamp)
    ensures Decode(token, secret, Validation(false, leeway), now1) == Decode(token, secret, Validation(false, leeway), now2)
    ensures var r := Decode(token, secret, Validation(false, leeway), now1);
      r.Failure? ==> r.error == InvalidToken || r.error == InvalidSignature || r.error == MissingRequiredClaim("exp")
  {
  }
}
