/** Password credentials (`hashPassword` and `verifyPassword` of lib/auth.ts).
    bcrypt is modelled as an ideal salted one-way function of the bytes its
    key schedule reads: the UTF-8 encoding of the password followed by one
    zero byte, repeated cyclically to fill 72 bytes. A hash records the salt
    it was made with and that 72-byte key. Cost factor, the salt's encoding
    and the digest itself are not modelled. */
module Passwords {
  import opened Wrappers

  type Byte = b: int | 0 <= b < 256

  /** The number of key bytes bcrypt's key schedule reads (18 words). */
  const KeyBytes := 72

  /** The length of a bcryptjs hash string; `compare` answers false, without
      hashing, for a stored value of any other length. */
  const HashLength := 60

  /** The UTF-8 encoding of one Unicode scalar value. */
  function EncodeChar(c: char): (bytes: seq<Byte>)
    ensures 1 <= |bytes| <= 4
    ensures |bytes| == LengthFromLead(bytes[0])
    ensures c != '\0' ==> forall i :: 0 <= i < |bytes| ==> bytes[i] != 0
  {
    var n := c as int;
    if n < 0x80 then [n]
    else if n < 0x800 then [0xC0 + n / 64, 0x80 + n % 64]
    else if n < 0x10000 then [0xE0 + n / 4096, 0x80 + (n / 64) % 64, 0x80 + n % 64]
    else [0xF0 + n / 262144, 0x80 + (n / 4096) % 64, 0x80 + (n / 64) % 64, 0x80 + n % 64]
  }

  /** How many bytes a UTF-8 sequence has, read from its first byte. */
  function LengthFromLead(lead: Byte): nat {
    if lead < 0x80 then 1 else if lead < 0xE0 then 2 else if lead < 0xF0 then 3 else 4
  }

  /** The scalar value a well-formed UTF-8 sequence of one character encodes. */
  function DecodeChar(bytes: seq<Byte>): int
    requires 1 <= |bytes| <= 4
  {
    var b := seq(|bytes|, i requires 0 <= i < |bytes| => bytes[i] as int);
    if |b| == 1 then b[0]
    else if |b| == 2 then (b[0] - 0xC0) * 64 + (b[1] - 0x80)
    else if |b| == 3 then (b[0] - 0xE0) * 4096 + (b[1] - 0x80) * 64 + (b[2] - 0x80)
    else (b[0] - 0xF0) * 262144 + (b[1] - 0x80) * 4096 + (b[2] - 0x80) * 64 + (b[3] - 0x80)
  }

  /** Decoding undoes encoding, so no two characters share an encoding. */
  lemma {:induction false} DecodeEncodeChar(c: char)
    ensures DecodeChar(EncodeChar(c)) == c as int
  {
    var n := c as int;
    assert n == (n / 64) * 64 + n % 64;
    assert n / 64 == (n / 4096) * 64 + (n / 64) % 64;
    assert n / 4096 == (n / 262144) * 64 + (n / 4096) % 64;
  }

  /** The UTF-8 encoding of a string (what bcryptjs hashes). */
  function Utf8(s: string): (bytes: seq<Byte>)
    ensures |s| <= |bytes|
  {
    if |s| == 0 then [] else EncodeChar(s[0]) + Utf8(s[1..])
  }

  predicate NoNul(s: string) {
    forall i :: 0 <= i < |s| ==> s[i] != '\0'
  }

  /** Different strings have different encodings. */
  lemma {:induction false} Utf8Injective(p: string, q: string)
    requires Utf8(p) == Utf8(q)
    ensures p == q
  {
    if |p| == 0 || |q| == 0 {
      assert |Utf8(p)| == 0 || |Utf8(q)| == 0;
    } else {
      var ep, eq := EncodeChar(p[0]), EncodeChar(q[0]);
      assert Utf8(p) == ep + Utf8(p[1..]);
      assert Utf8(q) == eq + Utf8(q[1..]);
      assert ep[0] == Utf8(p)[0] == eq[0];
      assert ep == Utf8(p)[..|ep|] == eq;
      DecodeEncodeChar(p[0]);
      DecodeEncodeChar(q[0]);
      assert Utf8(p[1..]) == Utf8(p)[|ep|..] == Utf8(q[1..]);
      Utf8Injective(p[1..], q[1..]);
      assert p == [p[0]] + p[1..];
      assert q == [q[0]] + q[1..];
    }
  }

  /** Only the NUL character encodes to a zero byte. */
  lemma {:induction false} Utf8HasNoZero(s: string)
    requires NoNul(s)
    ensures forall i :: 0 <= i < |Utf8(s)| ==> Utf8(s)[i] != 0
  {
    if |s| > 0 {
      Utf8HasNoZero(s[1..]);
      assert Utf8(s) == EncodeChar(s[0]) + Utf8(s[1..]);
    }
  }

  /** `n` bytes read from `b` in a cycle, as bcrypt's `streamtoword` reads
      its key. */
  function Cycle(b: seq<Byte>, n: nat): (r: seq<Byte>)
    requires |b| > 0
    ensures |r| == n
    ensures forall i :: 0 <= i < n ==> r[i] == b[i % |b|]
    ensures forall i :: 0 <= i < n && i < |b| ==> r[i] == b[i]
  {
    var r := seq(n, i requires 0 <= i < n => b[i % |b|]);
    assert forall i :: 0 <= i < n && i < |b| ==> r[i] == b[i] by {
      forall i | 0 <= i < n && i < |b| ensures r[i] == b[i] { ModSmall(i, |b|); }
    }
    r
  }

  lemma ModSmall(i: int, m: int)
    requires 0 <= i < m
    ensures i % m == i
  {
  }

  /** The 72 bytes bcrypt's key schedule reads: the encoded password and a
      terminating zero byte, repeated from the start as often as needed. */
  function BcryptKey(password: string): (key: seq<Byte>)
    ensures |key| == KeyBytes
    ensures var b := Utf8(password);
      && (forall i :: 0 <= i < |b| && i < KeyBytes ==> key[i] == b[i])
      && (|b| < KeyBytes ==> key[|b|] == 0)
  {
    Cycle(Utf8(password) + [0], KeyBytes)
  }

  /** Two passwords bcrypt cannot tell apart. */
  predicate BcryptEquivalent(p: string, q: string) {
    BcryptKey(p) == BcryptKey(q)
  }

  /** A stored `password` column: a hash bcrypt can parse, or a value whose
      first 29 characters are not a salt bcrypt accepts. A value with an
      accepted salt and a digest no password produces is a `Bcrypt` whose key
      no password has. */
  datatype PasswordHash =
    | Bcrypt(salt: string, key: seq<Byte>)
    | Unparseable(raw: string)

  /** `bcrypt.hash(password, 10)`; the random salt is a parameter. */
  function HashPassword(password: string, salt: string): (h: PasswordHash)
    ensures h.Bcrypt? && h.salt == salt
  {
    Bcrypt(salt, BcryptKey(password))
  }

  /** `bcrypt.compare`: false for a stored value whose length is not 60;
      raises when a 60-character value has no salt it accepts. */
  function Compare(plain: string, stored: PasswordHash): (r: Result<bool, string>)
    ensures r.Failure? <==> stored.Unparseable? && |stored.raw| == HashLength
    ensures stored.Unparseable? ==> r != Success(true)
    ensures r.Success? && stored.Bcrypt? ==> (r.value <==> stored == HashPassword(plain, stored.salt))
  {
    match stored
    case Bcrypt(_, key) => Success(BcryptKey(plain) == key)
    case Unparseable(raw) => if |raw| != HashLength then Success(false) else Failure("Invalid salt version")
  }

  /** `verifyPassword`: the comparison's verdict, and false when it raises. */
  function VerifyPassword(plain: string, stored: PasswordHash): (ok: bool)
    ensures ok <==> Compare(plain, stored) == Success(true)
    ensures stored.Unparseable? ==> !ok
  {
    match Compare(plain, stored)
    case Success(matches) => matches
    case Failure(_) => false
  }

  /** A hash made from a password verifies exactly the passwords bcrypt
      cannot tell apart from it, whatever salt was drawn. */
  lemma VerifyHashedPassword(plain: string, password: string, salt: string)
    ensures VerifyPassword(plain, HashPassword(password, salt)) <==> BcryptEquivalent(plain, password)
  {
  }

  /** Two passwords of at most 72 UTF-8 bytes and without NUL characters
      share a key only when they are equal. (A 72-byte password's key is its
      own bytes, so a longer password beginning with it shares that key.) */
  lemma {:induction false} ShortPasswordsAreDistinguished(p: string, q: string)
    requires NoNul(p) && NoNul(q)
    requires |Utf8(p)| <= KeyBytes && |Utf8(q)| <= KeyBytes
    ensures BcryptEquivalent(p, q) <==> p == q
  {
    if BcryptEquivalent(p, q) {
      var bp, bq := Utf8(p), Utf8(q);
      Utf8HasNoZero(p);
      Utf8HasNoZero(q);
      assert |bp| == |bq|;
      assert forall i :: 0 <= i < |bp| ==> bp[i] == BcryptKey(p)[i] == BcryptKey(q)[i] == bq[i];
      assert bp == bq;
      Utf8Injective(p, q);
    }
  }

  /** A password shorter than 72 UTF-8 bytes and without NUL characters
      shares its key with no other NUL-free password of any length: its hash
      verifies that password alone among them. */
  lemma {:induction false} ShortPasswordHasNoTwin(p: string, q: string)
    requires NoNul(p) && NoNul(q)
    requires |Utf8(p)| < KeyBytes
    ensures BcryptEquivalent(p, q) <==> p == q
  {
    if BcryptEquivalent(p, q) {
      var bp, bq := Utf8(p), Utf8(q);
      Utf8HasNoZero(p);
      Utf8HasNoZero(q);
      assert |bp| == |bq|;
      assert forall i :: 0 <= i < |bp| ==> bp[i] == BcryptKey(p)[i] == BcryptKey(q)[i] == bq[i];
      assert bp == bq;
      Utf8Injective(p, q);
    }
  }

  /** Past 72 bytes nothing counts: two passwords whose encodings share their
      first 72 bytes verify against each other's hash. */
  lemma LongPasswordsShareKey(p: string, q: string)
    requires KeyBytes <= |Utf8(p)| && KeyBytes <= |Utf8(q)|
    requires Utf8(p)[..KeyBytes] == Utf8(q)[..KeyBytes]
    ensures BcryptEquivalent(p, q)
  {
  }
}
