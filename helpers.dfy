/** Helpers of the package: nullable SQL values, the alphanumeric check,
    the random string generator, the password hasher seen from outside,
    selector/token issuing and validation, and the availability check. */
module Helpers {
  import opened Wrappers
  import opened Settings

  /** sql.NullInt64: a value and whether it is non-NULL.  A nil pointer to one
      reads as NULL, which is what `NullInt` stands for. */
  datatype NullInt64 = NullInt64(value: int, valid: bool)

  /** sql.NullString. */
  datatype NullString = NullString(text: string, valid: bool)

  const NullInt: NullInt64 := NullInt64(0, false)
  const NullText: NullString := NullString("", false)

  function NewNullInt64(v: int): NullInt64 { NullInt64(v, true) }
  function NewNullString(v: string): NullString { NullString(v, true) }

  /** The constructors give a non-NULL value that holds exactly `v`, so two
      of them are equal iff their arguments are, and none is NULL. */
  lemma NullConstructorsHoldValue(v: int, w: int, s: string, t: string)
    ensures NewNullInt64(v).valid && NewNullInt64(v).value == v && NewNullInt64(v) != NullInt
    ensures NewNullString(s).valid && NewNullString(s).text == s && NewNullString(s) != NullText
    ensures NewNullInt64(v) == NewNullInt64(w) <==> v == w
    ensures NewNullString(s) == NewNullString(t) <==> s == t
  {
  }

  predicate IsAlphanumeric(c: char) {
    'a' <= c <= 'z' || 'A' <= c <= 'Z' || '0' <= c <= '9'
  }

  /** The match of `^[a-zA-Z0-9]*$` against the whole string. */
  function ValidateAlphanumericString(s: string): (ok: bool)
    ensures ok <==> forall i :: 0 <= i < |s| ==> IsAlphanumeric(s[i])
  {
    if s == [] then true
    else IsAlphanumeric(s[0]) && ValidateAlphanumericString(s[1..])
  }

  /** The generator's alphabet: the 62-character literal of the source,
      written here as its three ranges one after the other. */
  const Charset := "abcdefghijklmnopqrstuvwxyz" + "ABCDEFGHIJKLMNOPQRSTUVWXYZ" + "0123456789"

  const Lowercase: string := seq(26, i requires 0 <= i < 26 => ('a' as int + i) as char)
  const Uppercase: string := seq(26, i requires 0 <= i < 26 => ('A' as int + i) as char)
  const Digits: string := seq(10, i requires 0 <= i < 10 => ('0' as int + i) as char)

  lemma LowercaseSpelled() ensures Lowercase == "abcdefghijklmnopqrstuvwxyz" {}
  lemma UppercaseSpelled() ensures Uppercase == "ABCDEFGHIJKLMNOPQRSTUVWXYZ" {}
  lemma DigitsSpelled() ensures Digits == "0123456789" {}

  /** The alphabet is the three ranges a-z, A-Z, 0-9, in that order. */
  lemma CharsetRanges()
    ensures Charset == Lowercase + Uppercase + Digits
  {
    LowercaseSpelled();
    UppercaseSpelled();
    DigitsSpelled();
  }

  /** The three ranges together are exactly the alphanumeric class. */
  lemma RangesAreAlphanumericClass(c: char)
    ensures |Lowercase + Uppercase + Digits| == 62
    ensures forall i :: 0 <= i < |Lowercase + Uppercase + Digits| ==> IsAlphanumeric((Lowercase + Uppercase + Digits)[i])
    ensures IsAlphanumeric(c) <==> c in Lowercase + Uppercase + Digits
  {
    var a := Lowercase + Uppercase + Digits;
    if IsAlphanumeric(c) {
      if 'a' <= c <= 'z' {
        assert a[c as int - 'a' as int] == c;
      } else if 'A' <= c <= 'Z' {
        assert a[26 + c as int - 'A' as int] == c;
      } else {
        assert a[52 + c as int - '0' as int] == c;
      }
    }
  }

  /** The alphabet is exactly the character class of the alphanumeric check:
      62 characters, each alphanumeric, and every alphanumeric character among them. */
  lemma CharsetIsAlphanumericClass(c: char)
    ensures |Charset| == 62
    ensures forall i :: 0 <= i < |Charset| ==> IsAlphanumeric(Charset[i])
    ensures IsAlphanumeric(c) <==> c in Charset
  {
    CharsetRanges();
    RangesAreAlphanumericClass(c);
  }

  /** The character at position k of the alphabet, the generator's lookup. */
  function CharsetAt(k: int): char
    requires 0 <= k < |Charset|
  {
    Charset[k]
  }

  /** The string randomString produces when the generator's i-th call of
      Intn(62) is answered by `draw(i) % 62`. */
  function RandomChars(length: nat, draw: nat -> nat): (s: string)
    ensures |s| == length
  {
    if length == 0 then []
    else RandomChars(length - 1, draw) + [CharsetAt(draw(length - 1) % |Charset|)]
  }

  lemma {:induction false} RandomCharsAreAlphanumeric(length: nat, draw: nat -> nat)
    ensures ValidateAlphanumericString(RandomChars(length, draw))
  {
    CharsetIsAlphanumericClass('a');
    if length > 0 {
      RandomCharsAreAlphanumeric(length - 1, draw);
      var prefix := RandomChars(length - 1, draw);
      var last := CharsetAt(draw(length - 1) % |Charset|);
      assert IsAlphanumeric(last);
      assert RandomChars(length, draw) == prefix + [last];
      forall i | 0 <= i < length ensures IsAlphanumeric(RandomChars(length, draw)[i]) {
        if i < length - 1 {
          assert RandomChars(length, draw)[i] == prefix[i];
        }
      }
    }
  }

  /** randomString: fills a buffer of `length` bytes with charset characters
      chosen by the generator. */
  method RandomString(length: nat, draw: nat -> nat) returns (s: string)
    ensures |s| == length
    ensures forall i :: 0 <= i < length ==> s[i] == Charset[draw(i) % |Charset|]
    ensures s == RandomChars(length, draw)
  {
    var b := new char[length];
    for i := 0 to length
      invariant b[..i] == RandomChars(i, draw)
    {
      b[i] := Charset[draw(i) % |Charset|];
      assert b[..i + 1] == b[..i] + [b[i]];
    }
    s := b[..];
    assert s == b[..length];
    RandomCharsIndex(length, draw);
  }

  lemma {:induction false} RandomCharsIndex(length: nat, draw: nat -> nat)
    ensures forall i :: 0 <= i < length ==> RandomChars(length, draw)[i] == CharsetAt(draw(i) % |Charset|)
  {
    if length > 0 {
      RandomCharsIndex(length - 1, draw);
      var prefix := RandomChars(length - 1, draw);
      assert RandomChars(length, draw) == prefix + [CharsetAt(draw(length - 1) % |Charset|)];
      forall i | 0 <= i < length - 1 ensures RandomChars(length, draw)[i] == CharsetAt(draw(i) % |Charset|) {
        assert RandomChars(length, draw)[i] == prefix[i];
      }
    }
  }

  /** What the generator answers for the two strings of one authenticator: the
      source seeds a fresh generator from the clock for each of them. */
  datatype Entropy = Entropy(selectorDraws: nat -> nat, tokenDraws: nat -> nat)

  const SelectorLength: nat := 16
  const TokenLength: nat := 16

  function SelectorFrom(e: Entropy): string { RandomChars(SelectorLength, e.selectorDraws) }
  function TokenFrom(e: Entropy): string { RandomChars(TokenLength, e.tokenDraws) }

  /** The bcrypt cost the source hashes with. */
  const BcryptCost: int := 4

  /** The header of a bcrypt digest at that cost. */
  const BcryptHeader := "$2a$04$"

  /** hashPassword, seen from outside: a digest that only the hashed password
      verifies against.  The model keeps the password after the header, which
      is enough to state which passwords verify; salt and one-wayness are not
      modelled. */
  function HashPassword(pw: string): string {
    BcryptHeader + pw
  }

  /** verifyHash: CompareHashAndPassword(hash, pw) succeeds. */
  function VerifyHash(hash: string, pw: string): bool {
    hash == HashPassword(pw)
  }

  /** A hash verifies exactly when it is the bcrypt header followed by the
      password. */
  lemma VerifyHashReadsDigest(hash: string, pw: string)
    ensures VerifyHash(hash, pw) <==> |hash| >= |BcryptHeader| && hash[..|BcryptHeader|] == BcryptHeader
                                      && hash[|BcryptHeader|..] == pw
  {
    if |hash| >= |BcryptHeader| {
      assert hash == hash[..|BcryptHeader|] + hash[|BcryptHeader|..];
    }
  }

  /** The hasher's one promise: a digest verifies against its password ... */
  lemma HashVerifies(pw: string)
    ensures VerifyHash(HashPassword(pw), pw)
  {
  }

  /** ... and against no other.  This holds of the model's digest; real bcrypt
      reads only the first 72 bytes of a password, so two passwords that agree
      on those verify against each other's digest. */
  lemma HashBindsPassword(pw: string, other: string)
    ensures VerifyHash(HashPassword(pw), other) <==> other == pw
  {
    if VerifyHash(HashPassword(pw), other) {
      assert pw == HashPassword(pw)[|BcryptHeader|..];
      assert other == HashPassword(other)[|BcryptHeader|..];
    }
  }

  /** A digest is never the plaintext it was made from. */
  lemma DigestIsNotPlaintext(pw: string)
    ensures HashPassword(pw) != pw
  {
    assert |HashPassword(pw)| == |pw| + 7;
  }

  function ValidateSelector(selector: string): (ok: bool)
    ensures ok <==> |selector| == SelectorLength && forall i :: 0 <= i < |selector| ==> IsAlphanumeric(selector[i])
  {
    |selector| == 16 && ValidateAlphanumericString(selector)
  }

  function ValidateToken(token: string): (ok: bool)
    ensures ok <==> |token| == TokenLength && forall i :: 0 <= i < |token| ==> IsAlphanumeric(token[i])
  {
    |token| == 16 && ValidateAlphanumericString(token)
  }

  /** createTokenAuthenticator: a fresh selector, a fresh token and the digest
      of the token. */
  method CreateTokenAuthenticator(entropy: Entropy) returns (selector: string, token: string, tokenHash: string)
    ensures ValidateSelector(selector) && ValidateToken(token)
    ensures VerifyHash(tokenHash, token) && tokenHash != token
    ensures selector == SelectorFrom(entropy) && token == TokenFrom(entropy)
  {
    selector := RandomString(SelectorLength, entropy.selectorDraws);
    token := RandomString(TokenLength, entropy.tokenDraws);
    tokenHash := HashPassword(token);
    RandomCharsAreAlphanumeric(SelectorLength, entropy.selectorDraws);
    RandomCharsAreAlphanumeric(TokenLength, entropy.tokenDraws);
    DigestIsNotPlaintext(token);
  }

  /** The `db` handle a flow is given: nil, present but failing its ping, or live. */
  datatype Connection = NoConnection | Unreachable | Live

  /** checkDatabase. */
  function CheckDatabase(db: Connection): (r: Outcome<Error>)
    ensures r.Pass? <==> db.Live?
    ensures db.NoConnection? ==> r == Fail(NoDatabaseConn)
    ensures db.Unreachable? ==> r == Fail(PingFailed)
  {
    match db
    case NoConnection => Fail(NoDatabaseConn)
    case Unreachable => Fail(PingFailed)
    case Live => Pass
  }
}
