/**
 * A stand-in for golang.org/x/crypto/bcrypt at cost 14.  A hash is the
 * cost prefix followed by the password.  What the service relies on is
 * kept exactly as the library behaves:
 *  - hashing measures the password in UTF-8 bytes and refuses more than 72;
 *  - a hash is never the password itself;
 *  - comparison tells a mismatch apart from a malformed hash;
 *  - comparison accepts every password whose Blowfish key equals the hashed
 *    one's.  The key is the password's bytes followed by a NUL, repeated
 *    until 72 bytes are filled, so bytes past the 72nd never count.
 */
module Bcrypt {
  import opened Wrappers
  import opened Text

  /** `bcrypt.GenerateFromPassword(p, 14)` as `HashAPassword` calls it. */
  const Cost: nat := 14
  const Prefix: string := "$2a$14$"
  const MaxPasswordLength: nat := 72

  /** The Blowfish key schedule reads 18 words of 4 bytes. */
  const KeyLength: nat := 72

  const ErrPasswordTooLong: string := "bcrypt: password length exceeds 72 bytes"
  const ErrMismatchedHashAndPassword: string :=
    "crypto/bcrypt: hashedPassword is not the hash of the given password"
  const ErrMalformedHash: string := "crypto/bcrypt: hashedSecret too short to be a bcrypted password"

  type Byte = b: int | 0 <= b < 256

  // ---------------------------------------------------------------------
  // UTF-8, as Go's []byte(string) conversion produces it
  // ---------------------------------------------------------------------

  /** The UTF-8 encoding of one code point: one to four bytes. */
  function EncodeChar(c: char): (r: seq<Byte>)
    ensures 1 <= |r| <= 4
    ensures (r[0] == 0) <==> (c == 0 as char)
  {
    var n := c as int;
    var q1 := n / 64;
    var q2 := q1 / 64;
    var q3 := q2 / 64;
    if n < 0x80 then [n]
    else if n < 0x800 then [0xC0 + q1, 0x80 + n % 64]
    else if n < 0x10000 then [0xE0 + q2, 0x80 + q1 % 64, 0x80 + n % 64]
    else [0xF0 + q3, 0x80 + q2 % 64, 0x80 + q1 % 64, 0x80 + n % 64]
  }

  /** The number of bytes a sequence starting with lead byte `b` takes. */
  function SequenceLength(b: Byte): nat {
    if b < 0x80 then 1 else if b < 0xE0 then 2 else if b < 0xF0 then 3 else 4
  }

  /** The lead byte announces the length, and no byte but a NUL's lead is zero. */
  lemma EncodeCharShape(c: char)
    ensures SequenceLength(EncodeChar(c)[0]) == |EncodeChar(c)|
    ensures forall i :: 1 <= i < |EncodeChar(c)| ==> EncodeChar(c)[i] != 0
  {
  }

  /** Different code points have different encodings. */
  lemma EncodeCharInjective(c: char, d: char)
    requires EncodeChar(c) == EncodeChar(d)
    ensures c == d
  {
    var m, n := c as int, d as int;
    assert m == 64 * (m / 64) + m % 64;
    assert n == 64 * (n / 64) + n % 64;
    assert m / 64 == 64 * (m / 64 / 64) + m / 64 % 64;
    assert n / 64 == 64 * (n / 64 / 64) + n / 64 % 64;
    assert m / 64 / 64 == 64 * (m / 64 / 64 / 64) + m / 64 / 64 % 64;
    assert n / 64 / 64 == 64 * (n / 64 / 64 / 64) + n / 64 / 64 % 64;
  }

  /** `[]byte(s)`. */
  function Utf8(s: string): (r: seq<Byte>)
    ensures |s| <= |r| <= 4 * |s|
  {
    if s == [] then [] else EncodeChar(s[0]) + Utf8(s[1..])
  }

  lemma {:induction false} Utf8Append(s: string, t: string)
    ensures Utf8(s + t) == Utf8(s) + Utf8(t)
  {
    if s == [] {
      assert s + t == t;
    } else {
      assert (s + t)[1..] == s[1..] + t;
      Utf8Append(s[1..], t);
    }
  }

  /** A string without a NUL character has no zero byte. */
  lemma {:induction false} Utf8NoZero(s: string)
    requires 0 as char !in s
    ensures 0 !in Utf8(s)
  {
    if s != [] {
      EncodeCharShape(s[0]);
      Utf8NoZero(s[1..]);
    }
  }

  /** The conversion loses nothing: different strings have different bytes. */
  lemma {:induction false} Utf8Injective(s: string, t: string)
    requires Utf8(s) == Utf8(t)
    ensures s == t
  {
    if s == [] {
      assert |Utf8(t)| == 0;
    } else {
      assert t != [];
      var a, b := EncodeChar(s[0]), EncodeChar(t[0]);
      EncodeCharShape(s[0]);
      EncodeCharShape(t[0]);
      assert a[0] == Utf8(s)[0] == Utf8(t)[0] == b[0];
      assert a == Utf8(s)[..|a|] == Utf8(t)[..|b|] == b;
      EncodeCharInjective(s[0], t[0]);
      assert Utf8(s[1..]) == Utf8(s)[|a|..] == Utf8(t)[|b|..] == Utf8(t[1..]);
      Utf8Injective(s[1..], t[1..]);
    }
  }

  /** Every code point from U+0080 to U+07FF takes two bytes. */
  lemma {:induction false} TwoByteText(s: string)
    requires forall i :: 0 <= i < |s| ==> 0x80 <= s[i] as int < 0x800
    ensures |Utf8(s)| == 2 * |s|
  {
    if s != [] {
      TwoByteText(s[1..]);
    }
  }

  // ---------------------------------------------------------------------
  // The Blowfish key
  // ---------------------------------------------------------------------

  /**
   * The 72 key bytes the expensive Blowfish setup reads: the password, a
   * trailing NUL, and again from the start while bytes are missing.
   */
  function Key(password: seq<Byte>): (r: seq<Byte>)
    ensures |r| == KeyLength
  {
    var cycle := password + [0];
    seq(KeyLength, i requires 0 <= i < KeyLength => cycle[i % |cycle|])
  }

  /** Bcrypt cannot tell `p` and `q` apart. */
  predicate SameKey(p: string, q: string) {
    Key(Utf8(p)) == Key(Utf8(q))
  }

  /** Within the password and its NUL, the key is the bytes themselves. */
  lemma KeyStart(b: seq<Byte>, i: nat)
    requires i < KeyLength && i <= |b|
    ensures Key(b)[i] == (b + [0])[i]
  {
    var n := |b| + 1;
    assert i % n == i;
  }

  /** Bytes after the 72nd are not part of the key. */
  lemma KeyIgnoresTail(b: seq<Byte>, tail: seq<Byte>)
    requires |b| >= KeyLength
    ensures Key(b + tail) == Key(b)
  {
    forall i | 0 <= i < KeyLength
      ensures Key(b + tail)[i] == Key(b)[i]
    {
      KeyStart(b + tail, i);
      KeyStart(b, i);
    }
  }

  /** Up to 72 bytes without a zero byte, the key determines the bytes. */
  lemma KeyInjective(b: seq<Byte>, c: seq<Byte>)
    requires |b| <= KeyLength && |c| <= KeyLength
    requires 0 !in b && 0 !in c
    requires Key(b) == Key(c)
    ensures b == c
  {
    forall i | 0 <= i < |b| && i < |c|
      ensures b[i] == c[i]
    {
      KeyStart(b, i);
      KeyStart(c, i);
    }
    if |b| < |c| {
      KeyStart(b, |b|);
      KeyStart(c, |b|);
    } else if |c| < |b| {
      KeyStart(b, |c|);
      KeyStart(c, |c|);
    }
  }

  /**
   * For passwords of at most 72 bytes without a NUL character the key is
   * exact: two of them are indistinguishable only when equal.
   */
  lemma SameKeyExactlyEqual(p: string, q: string)
    requires |Utf8(p)| <= MaxPasswordLength && |Utf8(q)| <= MaxPasswordLength
    requires 0 as char !in p && 0 as char !in q
    ensures SameKey(p, q) <==> p == q
  {
    if SameKey(p, q) {
      Utf8NoZero(p);
      Utf8NoZero(q);
      KeyInjective(Utf8(p), Utf8(q));
      Utf8Injective(p, q);
    }
  }

  /** Anything appended to a password of 72 bytes or more leaves the key as it was. */
  lemma LongPasswordIgnoresTail(p: string, tail: string)
    requires |Utf8(p)| >= KeyLength
    ensures SameKey(p + tail, p)
  {
    Utf8Append(p, tail);
    KeyIgnoresTail(Utf8(p), Utf8(tail));
  }

  // ---------------------------------------------------------------------
  // The two library calls
  // ---------------------------------------------------------------------

  predicate WellFormed(hash: string) {
    HasPrefix(hash, Prefix)
  }

  function GenerateFromPassword(password: string): (r: Result<string, string>)
    ensures r.Failure? <==> |Utf8(password)| > MaxPasswordLength
    ensures r.Failure? ==> r.error == ErrPasswordTooLong
    ensures r.Success? ==> WellFormed(r.value) && r.value != password
  {
    if |Utf8(password)| > MaxPasswordLength then Failure(ErrPasswordTooLong)
    else
      assert (Prefix + password)[..|Prefix|] == Prefix;
      Success(Prefix + password)
  }

  /** `bcrypt.CompareHashAndPassword(hash, password)`: `None` is a match. */
  function CompareHashAndPassword(hash: string, password: string): (r: Option<string>)
    ensures !WellFormed(hash) ==> r == Some(ErrMalformedHash)
    ensures WellFormed(hash) ==> (r.None? <==> SameKey(hash[|Prefix|..], password))
    ensures WellFormed(hash) ==> r.None? || r == Some(ErrMismatchedHashAndPassword)
  {
    if !WellFormed(hash) then Some(ErrMalformedHash)
    else if SameKey(hash[|Prefix|..], password) then None
    else Some(ErrMismatchedHashAndPassword)
  }

  /**
   * A generated hash matches its password and exactly the passwords with
   * the same key; among passwords of at most 72 bytes without a NUL
   * character, that is the password alone.
   */
  lemma {:induction false} CompareGenerated(password: string, other: string)
    requires GenerateFromPassword(password).Success?
    ensures CompareHashAndPassword(GenerateFromPassword(password).value, password).None?
    ensures CompareHashAndPassword(GenerateFromPassword(password).value, other).None? <==> SameKey(password, other)
    ensures !SameKey(password, other) ==>
      CompareHashAndPassword(GenerateFromPassword(password).value, other) == Some(ErrMismatchedHashAndPassword)
    ensures |Utf8(other)| <= MaxPasswordLength && 0 as char !in password && 0 as char !in other && other != password ==>
      CompareHashAndPassword(GenerateFromPassword(password).value, other) == Some(ErrMismatchedHashAndPassword)
  {
    var hash := GenerateFromPassword(password).value;
    assert hash[|Prefix|..] == password;
    if |Utf8(other)| <= MaxPasswordLength && 0 as char !in password && 0 as char !in other {
      SameKeyExactlyEqual(password, other);
    }
  }

  /** A password of exactly 72 bytes is accepted with anything appended to it. */
  lemma {:induction false} TruncatedPasswordAccepted(password: string, tail: string)
    requires |Utf8(password)| == MaxPasswordLength
    ensures GenerateFromPassword(password).Success?
    ensures CompareHashAndPassword(GenerateFromPassword(password).value, password + tail).None?
  {
    LongPasswordIgnoresTail(password, tail);
    CompareGenerated(password, password + tail);
  }

  /** Forty copies of U+00E9 are forty characters but eighty bytes, and are refused. */
  lemma {:induction false} MultiByteCharactersCountTwice()
    ensures GenerateFromPassword(seq(40, _ => 0xE9 as char)) == Failure(ErrPasswordTooLong)
  {
    TwoByteText(seq(40, _ => 0xE9 as char));
  }
}
