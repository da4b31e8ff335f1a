/** The cipher layer: the Affine Cipher over the ASCII letters. Encryption maps
    the alphabet index `p` of each letter to `(a * p + b) % 26` and keeps its
    case; decryption maps `c` to `(modinv(a, 26) * (c - b)) % 26`. Every other
    character is copied unchanged. */
module AffineCipher {
  import opened Results
  import opened NumberTheory

  /** The key `(a, b)`: any two integers. Only decryption needs `a` to be
      invertible modulo 26. */
  datatype Key = Key(a: int, b: int)

  /** ASCII letter classification (Python's `isupper` and `isalpha` on ASCII). */
  predicate IsUpper(c: char) {
    'A' <= c <= 'Z'
  }

  predicate IsLower(c: char) {
    'a' <= c <= 'z'
  }

  predicate IsAlpha(c: char) {
    IsUpper(c) || IsLower(c)
  }

  predicate HasLetter(s: string) {
    exists i :: 0 <= i < |s| && IsAlpha(s[i])
  }

  lemma HasLetterSnoc(s: string, c: char)
    ensures HasLetter(s + [c]) <==> HasLetter(s) || IsAlpha(c)
  {
    if HasLetter(s) {
      var i :| 0 <= i < |s| && IsAlpha(s[i]);
      assert (s + [c])[i] == s[i];
    }
    if HasLetter(s + [c]) && !IsAlpha(c) {
      var i :| 0 <= i < |s + [c]| && IsAlpha((s + [c])[i]);
      assert s[i] == (s + [c])[i];
    }
    if IsAlpha(c) {
      assert (s + [c])[|s|] == c;
    }
  }

  // ---------------------------------------------------------------------
  // One character
  // ---------------------------------------------------------------------

  /** The body of the encryption loop for one character: a letter moves to
      `(a * p + b) % 26` in its own case (offset 65 for 'A', 97 for 'a'),
      anything else stays. Never fails, whatever the key. */
  function EncryptChar(c: char, key: Key): (r: char)
    ensures IsUpper(r) <==> IsUpper(c)
    ensures IsLower(r) <==> IsLower(c)
    ensures !IsAlpha(c) ==> r == c
  {
    if IsAlpha(c) then
      if IsUpper(c) then ((key.a * (c as int - 65) + key.b) % 26 + 65) as char
      else ((key.a * (c as int - 97) + key.b) % 26 + 97) as char
    else
      c
  }

  /** The body of the decryption loop for one character: a letter asks
      `modinv(a, 26)` for the inverse, which fails when `a` is not invertible,
      and moves to `(inv * (c - b)) % 26` in its own case; anything else stays
      and needs no inverse. */
  function DecryptChar(c: char, key: Key): (r: Result<char>)
    ensures r.Err? <==> IsAlpha(c) && ModInv(key.a, 26).Err?
    ensures r.Err? ==> r.error == ModularInverseDoesNotExist
    ensures r.Ok? ==> (IsUpper(r.value) <==> IsUpper(c)) && (IsLower(r.value) <==> IsLower(c))
    ensures !IsAlpha(c) ==> r == Ok(c)
  {
    if IsAlpha(c) then
      var inv :- ModInv(key.a, 26);
      if IsUpper(c) then Ok(((inv * (c as int - 65 - key.b)) % 26 + 65) as char)
      else Ok(((inv * (c as int - 97 - key.b)) % 26 + 97) as char)
    else
      Ok(c)
  }

  lemma ModAddMultiple(p: int, t: int)
    requires 0 <= p < 26
    ensures (p + 26 * t) % 26 == p
  {
  }

  /** On alphabet indices, multiplying by an inverse undoes the affine map. */
  lemma IndexRoundTrip(p: int, a: int, b: int, inv: int)
    requires 0 <= p < 26 && IsInverse(a, inv, 26)
    ensures (inv * ((a * p + b) % 26 - b)) % 26 == p
  {
    var q := (a * p + b) / 26;
    var k := (a * inv - 1) / 26;
    assert a * inv == 1 + 26 * k;
    assert (a * p + b) % 26 - b == a * p - 26 * q;
    calc {
      inv * ((a * p + b) % 26 - b);
      inv * (a * p - 26 * q);
      (a * inv) * p - 26 * (inv * q);
      (1 + 26 * k) * p - 26 * (inv * q);
      p + 26 * (k * p - inv * q);
    }
    ModAddMultiple(p, k * p - inv * q);
  }

  /** With an invertible `a`, decrypting an encrypted character gives it back. */
  lemma CharRoundTrip(c: char, key: Key)
    requires ModInv(key.a, 26).Ok?
    ensures DecryptChar(EncryptChar(c, key), key) == Ok(c)
  {
    var inv := ModInv(key.a, 26).value;
    if IsUpper(c) {
      IndexRoundTrip(c as int - 65, key.a, key.b, inv);
    } else if IsLower(c) {
      IndexRoundTrip(c as int - 97, key.a, key.b, inv);
    }
  }

  // ---------------------------------------------------------------------
  // Whole texts: the accumulated `result` after a prefix of the loop
  // ---------------------------------------------------------------------

  /** What `affine_encrypt` has accumulated after reading `text`: the same
      length, every character replaced by its image, so every non-letter keeps
      its place and every letter keeps its case. */
  function EncryptText(text: string, key: Key): (r: string)
    ensures |r| == |text|
    ensures forall i :: 0 <= i < |text| ==> r[i] == EncryptChar(text[i], key)
    ensures forall i :: 0 <= i < |text| && !IsAlpha(text[i]) ==> r[i] == text[i]
    ensures forall i :: 0 <= i < |text| ==> (IsUpper(r[i]) <==> IsUpper(text[i])) && (IsLower(r[i]) <==> IsLower(text[i]))
    decreases |text|
  {
    if text == [] then
      []
    else
      EncryptText(text[..|text| - 1], key) + [EncryptChar(text[|text| - 1], key)]
  }

  /** What `affine_decrypt` produces from `text`: it fails exactly when the
      text holds a letter and `a` has no inverse modulo 26, with the one error
      `modinv` raises and no partial output; text without letters comes back
      unchanged whatever the key; otherwise the result has the same length and
      every position holds the decryption of that character. */
  function DecryptText(text: string, key: Key): (r: Result<string>)
    ensures r.Err? <==> HasLetter(text) && ModInv(key.a, 26).Err?
    ensures r.Err? ==> r.error == ModularInverseDoesNotExist
    ensures !HasLetter(text) ==> r == Ok(text)
    ensures r.Ok? ==> |r.value| == |text|
    ensures r.Ok? ==> forall i :: 0 <= i < |text| ==> DecryptChar(text[i], key) == Ok(r.value[i])
    decreases |text|
  {
    if text == [] then
      Ok([])
    else
      var front, last := text[..|text| - 1], text[|text| - 1];
      assert text == front + [last];
      HasLetterSnoc(front, last);
      var prefix :- DecryptText(front, key);
      var c :- DecryptChar(last, key);
      Ok(prefix + [c])
  }

  /** `affine_encrypt`: one pass over the text, appending each character's
      image to `result`. */
  method Encrypt(text: string, key: Key) returns (result: string)
    ensures result == EncryptText(text, key)
  {
    result := "";
    for i := 0 to |text|
      invariant result == EncryptText(text[..i], key)
    {
      assert text[..i + 1][..i] == text[..i];
      result := result + [EncryptChar(text[i], key)];
    }
    assert text[..|text|] == text;
  }

  /** `affine_decrypt`: one pass over the ciphertext, appending each
      character's preimage to `result`; the first letter met with a
      non-invertible `a` aborts the whole decryption. */
  method Decrypt(ciphertext: string, key: Key) returns (r: Result<string>)
    ensures r == DecryptText(ciphertext, key)
  {
    var result := "";
    for i := 0 to |ciphertext|
      invariant DecryptText(ciphertext[..i], key) == Ok(result)
    {
      assert ciphertext[..i + 1][..i] == ciphertext[..i];
      assert ciphertext[..i + 1] == ciphertext[..i] + [ciphertext[i]];
      HasLetterSnoc(ciphertext[..i], ciphertext[i]);
      HasLetterWithin(ciphertext, i);
      var c :- DecryptChar(ciphertext[i], key);
      result := result + [c];
    }
    assert ciphertext[..|ciphertext|] == ciphertext;
    return Ok(result);
  }

  lemma HasLetterWithin(s: string, i: int)
    requires 0 <= i < |s|
    ensures IsAlpha(s[i]) ==> HasLetter(s)
  {
  }

  // ---------------------------------------------------------------------
  // Properties relating the two directions
  // ---------------------------------------------------------------------

  /** Decryption fails exactly on text with a letter when `a` is not coprime
      to 26; for a negative `a` the inverse is never found, so it fails on
      every text with a letter. */
  lemma DecryptFailsIff(text: string, key: Key)
    ensures key.a >= 0 ==> (DecryptText(text, key).Err? <==> HasLetter(text) && !IsGcd(1, key.a, 26))
    ensures key.a < 0 ==> (DecryptText(text, key).Err? <==> HasLetter(text))
  {
    if key.a >= 0 {
      ModInvOkIffCoprime(key.a, 26);
    } else {
      ModInvRejectsNegative(key.a, 26);
    }
  }

  /** Decrypting with the key that encrypted gives the original text back,
      for every text, whenever `modinv(a, 26)` succeeds. */
  lemma RoundTripInvertible(text: string, key: Key)
    requires ModInv(key.a, 26).Ok?
    ensures DecryptText(EncryptText(text, key), key) == Ok(text)
  {
    var cipher := EncryptText(text, key);
    var r := DecryptText(cipher, key);
    forall i | 0 <= i < |text|
      ensures r.value[i] == text[i]
    {
      CharRoundTrip(text[i], key);
      assert DecryptChar(cipher[i], key) == Ok(r.value[i]);
    }
    assert r.value == text;
  }

  /** The round trip for every text, when `a` is a non-negative number
      coprime to 26. */
  lemma RoundTrip(text: string, key: Key)
    requires key.a >= 0 && IsGcd(1, key.a, 26)
    ensures DecryptText(EncryptText(text, key), key) == Ok(text)
  {
    ModInvOkIffCoprime(key.a, 26);
    RoundTripInvertible(text, key);
  }

  /** The worked example: "Hello World" under the key (5, 8). */
  lemma HelloWorldExample()
    ensures EncryptText("Hello World", Key(5, 8)) == "Rclla Oaplx"
    ensures DecryptText("Rclla Oaplx", Key(5, 8)) == Ok("Hello World")
  {
    ModInvExamples();
    var c := EncryptText("Hello World", Key(5, 8));
    assert c == "Rclla Oaplx";
    RoundTripInvertible("Hello World", Key(5, 8));
  }
}
