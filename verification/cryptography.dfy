/** Block hashing and the proof-of-work test.

    SHA-256 itself is not modelled: every operation that hashes takes the digest function
    as a parameter `sha`, so each property below holds for whatever function SHA-256 is.
    The parameter maps the hash input string to its 32-byte digest; the UTF-8 encoding
    (`as_bytes`) that precedes the digest in the node is folded into it. */
module Cryptography {
  import opened Strings

  type Byte = b: int | 0 <= b < 256

  /** A SHA-256 digest: exactly 32 bytes. */
  type Digest = d: seq<Byte> | |d| == 32 witness seq(32, i => 0)

  /** SHA-256 applied to the UTF-8 bytes of a string. */
  type Sha256 = string -> Digest

  /** The proof-of-work target: a hash must start with four zero nibbles. */
  const POW_PREFIX: string := "0000"

  /** The hash input: the five fields rendered and concatenated with no separator. */
  function HashInput(index: nat, timestamp: nat, prevHash: string, data: string, nonce: nat): string {
    Decimal(index) + Decimal(timestamp) + prevHash + data + Decimal(nonce)
  }

  predicate IsHexChar(c: char) {
    ('0' <= c <= '9') || ('a' <= c <= 'f')
  }

  /** Lowercase hexadecimal text. */
  predicate IsLowerHex(s: string) {
    forall i :: 0 <= i < |s| ==> IsHexChar(s[i])
  }

  function HexDigit(v: nat): (c: char)
    requires v < 16
    ensures IsHexChar(c)
  {
    if v < 10 then ('0' as int + v) as char else ('a' as int + v - 10) as char
  }

  function HexValue(c: char): (v: nat)
    requires IsHexChar(c)
    ensures v < 16 && HexDigit(v) == c
  {
    if c <= '9' then c as int - '0' as int else c as int - 'a' as int + 10
  }

  /** The `{:x}` rendering of a byte string: two lowercase hex digits per byte, high
      nibble first. */
  function Hex(d: seq<Byte>): (r: string)
    ensures |r| == 2 * |d|
    ensures IsLowerHex(r)
    decreases |d|
  {
    if d == [] then [] else [HexDigit(d[0] / 16), HexDigit(d[0] % 16)] + Hex(d[1..])
  }

  /** Reads lowercase hex text back into bytes. */
  function UnHex(s: string): seq<Byte>
    requires |s| % 2 == 0 && IsLowerHex(s)
    decreases |s|
  {
    if s == [] then [] else [HexValue(s[0]) * 16 + HexValue(s[1])] + UnHex(s[2..])
  }

  /** The hex rendering loses nothing: reading it back gives the digest. */
  lemma {:induction false} HexRoundTrip(d: seq<Byte>)
    ensures UnHex(Hex(d)) == d
    decreases |d|
  {
    if d != [] {
      var h := Hex(d);
      assert h[2..] == Hex(d[1..]);
      HexRoundTrip(d[1..]);
      assert HexValue(h[0]) == d[0] / 16;
      assert HexValue(h[1]) == d[0] % 16;
    }
  }

  /** `calculate_hash`: the lowercase hex SHA-256 of the hash input. */
  function CalculateHash(sha: Sha256, index: nat, timestamp: nat, prevHash: string, data: string, nonce: nat): (h: string)
    ensures |h| == 64 && IsLowerHex(h)
    ensures UnHex(h) == sha(HashInput(index, timestamp, prevHash, data, nonce))
  {
    var d := sha(HashInput(index, timestamp, prevHash, data, nonce));
    HexRoundTrip(d);
    Hex(d)
  }

  /** `verify_pow`: Rust's `starts_with("0000")`. */
  predicate VerifyPow(h: string) {
    IsPrefix(POW_PREFIX, h)
  }

  /** The proof-of-work test reads only the first four characters: strings shorter than
      four fail, and two strings agreeing on their first four characters agree on it. */
  lemma VerifyPowFirstFour(h: string, g: string)
    ensures |h| < 4 ==> !VerifyPow(h)
    ensures VerifyPow(h) <==> |h| >= 4 && h[0] == '0' && h[1] == '0' && h[2] == '0' && h[3] == '0'
    ensures |h| >= 4 && |g| >= 4 && h[..4] == g[..4] ==> (VerifyPow(h) <==> VerifyPow(g))
  {
    if |h| >= 4 && h[0] == '0' && h[1] == '0' && h[2] == '0' && h[3] == '0' {
      assert h[..4] == POW_PREFIX;
    }
  }

  /** A byte renders as "00" exactly when it is zero. */
  lemma HexHead(d: seq<Byte>)
    requires |d| >= 1
    ensures var h := Hex(d);
            && h[2..] == Hex(d[1..])
            && (h[0] == '0' && h[1] == '0' <==> d[0] == 0)
  {
    var h := Hex(d);
    assert h == [HexDigit(d[0] / 16), HexDigit(d[0] % 16)] + Hex(d[1..]);
    assert HexValue(h[0]) == d[0] / 16;
    assert HexValue(h[1]) == d[0] % 16;
  }

  /** On a rendered digest, the proof-of-work test says the first two bytes are zero. */
  lemma PowOfHex(d: seq<Byte>)
    requires |d| >= 2
    ensures VerifyPow(Hex(d)) <==> d[0] == 0 && d[1] == 0
  {
    var h := Hex(d);
    var t := Hex(d[1..]);
    HexHead(d);
    HexHead(d[1..]);
    assert d[1..][0] == d[1];
    assert h[2] == t[0] && h[3] == t[1];
    VerifyPowFirstFour(h, h);
  }

  /** With no separator, index 1 / timestamp 23 and index 12 / timestamp 3 give the same
      hash input and so the same hash, whatever the other fields. */
  lemma IndexTimestampCollision(sha: Sha256, prevHash: string, data: string, nonce: nat)
    ensures HashInput(1, 23, prevHash, data, nonce) == HashInput(12, 3, prevHash, data, nonce)
    ensures CalculateHash(sha, 1, 23, prevHash, data, nonce) == CalculateHash(sha, 12, 3, prevHash, data, nonce)
  {
    assert Decimal(23) == "23";
    assert Decimal(12) == "12";
  }

  /** Moving text across the prev_hash / data boundary does not change the hash input,
      nor therefore the hash. */
  lemma PrevHashDataCollision(sha: Sha256, index: nat, timestamp: nat, prevHash: string, moved: string, data: string, nonce: nat)
    ensures HashInput(index, timestamp, prevHash + moved, data, nonce) == HashInput(index, timestamp, prevHash, moved + data, nonce)
    ensures CalculateHash(sha, index, timestamp, prevHash + moved, data, nonce) == CalculateHash(sha, index, timestamp, prevHash, moved + data, nonce)
  {
  }

  /** The instance ("ab", "c") versus ("a", "bc"). */
  lemma AbCCollision(sha: Sha256, index: nat, timestamp: nat, nonce: nat)
    ensures CalculateHash(sha, index, timestamp, "ab", "c", nonce) == CalculateHash(sha, index, timestamp, "a", "bc", nonce)
  {
    PrevHashDataCollision(sha, index, timestamp, "a", "b", "c", nonce);
    assert "a" + "b" == "ab" && "b" + "c" == "bc";
  }

  /** The nonce is the last field, so with the other fields fixed, distinct nonces give
      distinct hash inputs: the mining loop never hashes the same input twice. */
  lemma NonceDeterminesInput(index: nat, timestamp: nat, prevHash: string, data: string, n1: nat, n2: nat)
    requires HashInput(index, timestamp, prevHash, data, n1) == HashInput(index, timestamp, prevHash, data, n2)
    ensures n1 == n2
  {
    var pre := Decimal(index) + Decimal(timestamp) + prevHash + data;
    var i1 := HashInput(index, timestamp, prevHash, data, n1);
    assert i1[|pre|..] == Decimal(n1);
    assert i1[|pre|..] == Decimal(n2);
    DecimalInjective(n1, n2);
  }
}
