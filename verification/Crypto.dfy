/**
 Field encryption and blind indexing (backend/app/core/crypto.py), symbolically: a Fernet
 token is its key, nonce and plaintext, a digest is its key and message. Equal tokens or
 digests therefore come from equal inputs, and decryption with another key fails.
 */
module Crypto {
  import opened Options

  datatype Token = Fernet(key: nat, nonce: nat, plaintext: string) | Corrupt(bytes: seq<bv8>)

  datatype Digest = Hmac(key: nat, message: string)

  /** Encryption draws a fresh nonce, so the same text encrypts to different tokens. */
  function EncryptField(key: nat, nonce: nat, value: string): Token {
    Fernet(key, nonce, value)
  }

  /** None stands for InvalidToken. */
  function DecryptField(key: nat, token: Token): Option<string> {
    if token.Fernet? && token.key == key then Some(token.plaintext) else None
  }

  /** A token decrypts to its text under its own key only, and is another token for another draw. */
  lemma {:induction false} DecryptsExactly(key: nat, other: nat, nonce: nat, later: nat, value: string)
    ensures DecryptField(other, EncryptField(key, nonce, value)) == if other == key then Some(value) else None
    ensures EncryptField(key, nonce, value) == EncryptField(key, later, value) <==> nonce == later
    ensures forall bytes :: DecryptField(key, Corrupt(bytes)) == None
  {
  }

  /** The characters str.split() separates words at. */
  predicate IsSpace(c: char) {
    '\t' <= c <= '\r' || '\U{1C}' <= c <= ' ' || c == '\U{85}' || c == '\U{A0}' || c == '\U{1680}'
    || '\U{2000}' <= c <= '\U{200A}' || c == '\U{2028}' || c == '\U{2029}' || c == '\U{202F}' || c == '\U{205F}'
    || c == '\U{3000}'
  }

  /** Length of the leading word of s. */
  function WordLength(s: string): (n: nat)
    ensures n <= |s|
    ensures forall i :: 0 <= i < n ==> !IsSpace(s[i])
    ensures n < |s| ==> IsSpace(s[n])
  {
    if s == "" || IsSpace(s[0]) then 0 else 1 + WordLength(s[1..])
  }

  /** str.split() */
  function Split(s: string): seq<string>
    decreases |s|
  {
    if s == "" then []
    else if IsSpace(s[0]) then Split(s[1..])
    else
      var n := WordLength(s);
      [s[..n]] + Split(s[n..])
  }

  /** "".join(words) */
  function Join(words: seq<string>): string {
    if words == [] then "" else words[0] + Join(words[1..])
  }

  function NormalizeNationalId(value: string): string {
    Join(Split(value))
  }

  function NationalIdBlindIndex(key: nat, value: string): Digest {
    Hmac(key, NormalizeNationalId(value))
  }

  // ── What normalisation keeps ─────────────────────────────────────────

  function WithoutSpaces(s: string): string {
    if s == "" then "" else (if IsSpace(s[0]) then "" else [s[0]]) + WithoutSpaces(s[1..])
  }

  lemma {:induction false} WithoutSpacesConcat(a: string, b: string)
    ensures WithoutSpaces(a + b) == WithoutSpaces(a) + WithoutSpaces(b)
  {
    if a == "" {
      assert a + b == b;
    } else {
      assert (a + b)[1..] == a[1..] + b;
      WithoutSpacesConcat(a[1..], b);
    }
  }

  lemma {:induction false} WithoutSpacesFixed(s: string)
    requires forall i :: 0 <= i < |s| ==> !IsSpace(s[i])
    ensures WithoutSpaces(s) == s
  {
    if s != "" {
      WithoutSpacesFixed(s[1..]);
    }
  }

  lemma {:induction false} NoSpacesLeft(s: string)
    ensures forall i :: 0 <= i < |WithoutSpaces(s)| ==> !IsSpace(WithoutSpaces(s)[i])
  {
    if s != "" {
      NoSpacesLeft(s[1..]);
    }
  }

  /** Splitting into words and joining them deletes the whitespace and nothing else. */
  lemma {:induction false} NormalizeDeletesSpaces(value: string)
    ensures NormalizeNationalId(value) == WithoutSpaces(value)
    decreases |value|
  {
    if value == "" {
    } else if IsSpace(value[0]) {
      NormalizeDeletesSpaces(value[1..]);
    } else {
      var n := WordLength(value);
      var word, rest := value[..n], value[n..];
      NormalizeDeletesSpaces(rest);
      assert value == word + rest;
      WithoutSpacesConcat(word, rest);
      WithoutSpacesFixed(word);
      assert ([word] + Split(rest))[1..] == Split(rest);
    }
  }

  lemma {:induction false} NormalizeIdempotent(value: string)
    ensures NormalizeNationalId(NormalizeNationalId(value)) == NormalizeNationalId(value)
  {
    NormalizeDeletesSpaces(value);
    NormalizeDeletesSpaces(WithoutSpaces(value));
    NoSpacesLeft(value);
    WithoutSpacesFixed(WithoutSpaces(value));
  }

  /** Two ids share a blind index exactly when their non-whitespace characters agree in order. */
  lemma {:induction false} SameIndexIff(key: nat, a: string, b: string)
    ensures NationalIdBlindIndex(key, a) == NationalIdBlindIndex(key, b) <==> WithoutSpaces(a) == WithoutSpaces(b)
  {
    NormalizeDeletesSpaces(a);
    NormalizeDeletesSpaces(b);
  }
}
