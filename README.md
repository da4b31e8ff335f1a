# Affine Cipher in Dafny

A model of a textbook Affine Cipher over the letters A–Z and a–z, with proofs about it. It has two layers.

- **Number theory** (`number_theory.dfy`, module `NumberTheory`):
  - `egcd` is the recursive Extended Euclidean Algorithm.
  - `modinv` is the modular inverse built on it. It fails when the `g` of `egcd` is not 1.
- **Cipher** (`affine_cipher.dfy`, module `AffineCipher`):
  - `affine_encrypt` maps the alphabet index `p` of each letter to `(a*p + b) mod 26` and keeps its case.
  - `affine_decrypt` maps `c` to `(modinv(a, 26) * (c - b)) mod 26`.
  - Both copy every other character unchanged.
- `results.dfy` (module `Results`) holds the explicit `Result` type. It replaces the exception that `modinv` raises.

The repository has two files, `AliUmedIbrahim.py` and `homeWork1.py`, with the same four functions and identical logic. Lines 1-84 of the first correspond to lines 1-55 of the second; only the docstrings differ. One model covers both. Each table row cites one of the two files, and the row holds for the matching lines of the other.

How the source is modelled:

- `egcd` and `modinv` are pure recursion and conditionals, so they become functions.
- Python's `//` and `%` round toward minus infinity, while Dafny's `/` and `%` are Euclidean. So `egcd` is modelled with Python's operators written out (`FloorDiv`, `FloorMod`). This makes it right for every integer pair, including negative ones, because `affine_decrypt` passes any integer `a` to `modinv`.
- The cipher formulas only reduce modulo 26, a positive divisor. There Dafny's `%` equals Python's, including for negative intermediates.
- The two cipher functions are `for` loops that append to `result`. They become the methods `Encrypt` and `Decrypt`. Each loop invariant says that `result` is the value of a specification function (`EncryptText`, `DecryptText`) on the prefix read so far.
- `modinv`'s exception becomes the value `Err(ModularInverseDoesNotExist)`. It aborts the whole decryption, with no partial output, at the first letter met.
- `x % 0` in `modinv` raises `ZeroDivisionError` in Python. This becomes `Err(ZeroDivision)`. The cipher never reaches it, since it always uses modulus 26.
- Divisibility (`Divides`), the greatest common divisor (`IsGcd`) and modular inverses (`IsInverse`) are defined independently of the algorithm. The algorithm is proved against these definitions.

One behaviour of the source is worth knowing, and it is proved (`EgcdSign`, `ModInvRejectsNegative`):

- For a negative first argument, `egcd` returns a negative `g`, so `modinv` rejects every negative `a`.
- This includes values such as `-3` that do have an inverse modulo 26 (17).
- So decryption with a negative `a` fails on any text that has a letter (`DecryptFailsIff`).
- Encryption with the same key succeeds.

## Model

| member | source | states |
|---|---|---|
| NumberTheory.FloorMod | AliUmedIbrahim.py:15-16 | Python's `b % a` together with `b // a` (FloorDiv): `n == d * (n // d) + n % d`, and the remainder lies in `[0, d)` for a positive divisor and in `(d, 0]` for a negative one |
| NumberTheory.Egcd | AliUmedIbrahim.py:1-16 | For every pair of integers the triple satisfies Bezout's identity `a*x + b*y == g`. The recursion on `(b % a, a)` terminates because `abs(a)` strictly decreases to the base case `(b, 0, 1)` |
| NumberTheory.EgcdDivides | homeWork1.py:6-10 | The `g` returned divides both arguments |
| NumberTheory.EgcdIsGcd | AliUmedIbrahim.py:10-16 | `abs(g)` is the greatest common divisor of `a` and `b` for all integers: it divides both, and every common divisor divides it. `g` itself is the gcd when both arguments are non-negative |
| NumberTheory.EgcdSign | homeWork1.py:6-10 | `g > 0` when `a > 0`, `g < 0` when `a < 0`, and `g == b` when `a == 0` |
| NumberTheory.ModInv | AliUmedIbrahim.py:18-36 | A successful result `r` is an inverse, `a*r ≡ 1 (mod m)`. It lies in `[0, m)` for a positive modulus and in `(m, 0]` for a negative one. Otherwise the result is the failure, as the source raises |
| NumberTheory.CoprimeIffInvertible | homeWork1.py:12-16 | `a` has an inverse modulo `m` if and only if the gcd of `a` and `m` is 1 |
| NumberTheory.ModInvOkIffCoprime | AliUmedIbrahim.py:32-36 | For `a >= 0` and `m > 0`, `modinv(a, m)` succeeds if and only if `gcd(a, m) == 1`, that is, if and only if an inverse exists |
| NumberTheory.ModInvRejectsNegative | homeWork1.py:17-19 | `modinv(a, m)` fails with "inverse does not exist" for every negative `a` |
| NumberTheory.ModInvExamples | AliUmedIbrahim.py:98-104 | `modinv(5, 26) == 21`; `modinv(4, 26)` and `modinv(2, 26)` fail; `modinv(-3, 26)` fails although 17 is an inverse of -3 modulo 26 |
| AffineCipher.EncryptChar | AliUmedIbrahim.py:51-59 | One encryption step never fails. It maps an uppercase letter to an uppercase letter and a lowercase letter to a lowercase letter, and leaves every non-letter unchanged |
| AffineCipher.DecryptChar | AliUmedIbrahim.py:75-83 | One decryption step fails exactly when the character is a letter and `modinv(a, 26)` fails. Its only error is "inverse does not exist". It preserves case and leaves a non-letter unchanged without needing an inverse |
| AffineCipher.IndexRoundTrip | homeWork1.py:32-51 | On alphabet indices `0 <= p < 26`, the decryption formula undoes the encryption formula whenever the multiplier is an inverse of `a` modulo 26 |
| AffineCipher.CharRoundTrip | homeWork1.py:29-54 | When `modinv(a, 26)` succeeds, decrypting the encryption of any character gives it back |
| AffineCipher.EncryptText | homeWork1.py:27-38 | Encryption of a text never fails and keeps its length. Position `i` holds the encryption of character `i`, so every non-letter stays at its position and every letter keeps its case. The empty text maps to the empty text |
| AffineCipher.DecryptText | homeWork1.py:44-55 | Decryption fails if and only if the text contains a letter and `modinv(a, 26)` fails, and the only error is "inverse does not exist". A text without letters, the empty text included, comes back unchanged for any key. A successful result has the same length, and each position holds the decryption of that character |
| AffineCipher.Encrypt | AliUmedIbrahim.py:38-60 | The loop of `affine_encrypt` returns exactly `EncryptText(text, key)` |
| AffineCipher.Decrypt | AliUmedIbrahim.py:62-84 | The loop of `affine_decrypt`, which aborts at the first letter when `modinv` fails, returns exactly `DecryptText(ciphertext, key)`, error or text |
| AffineCipher.DecryptFailsIff | AliUmedIbrahim.py:74-80 | For `a >= 0`, decryption fails if and only if the text has a letter and `gcd(a, 26) != 1`. For `a < 0`, it fails if and only if the text has a letter |
| AffineCipher.RoundTripInvertible | AliUmedIbrahim.py:49-84 | `decrypt(encrypt(t, k), k) == t` for every text `t` whenever `modinv(a, 26)` succeeds |
| AffineCipher.RoundTrip | homeWork1.py:27-55 | `decrypt(encrypt(t, k), k) == t` for every text `t` and every key with `a >= 0` and `gcd(a, 26) == 1` |
| AffineCipher.HelloWorldExample | AliUmedIbrahim.py:87-93 | `"Hello World"` under the key `(5, 8)` encrypts to `"Rclla Oaplx"`, which decrypts back to `"Hello World"` |

## Left out

- The example driver and its `print` calls (AliUmedIbrahim.py:86-93, homeWork1.py:57-64) are console output. Only the values they show are kept, as `HelloWorldExample`.
- The closing comment blocks on common errors are prose, not behaviour.
  - Their claim that an `a` or `b` outside `[1, 25]` or `[0, 25]` "might produce incorrect results" is not a contract of the code.
  - The code reduces modulo 26 anyway. `RoundTrip` holds for every non-negative `a` coprime to 26 and every integer `b`.
- Letters are classified by ASCII ranges only. Python's `isalpha` and `isupper` also accept non-ASCII letters such as `é`, which the source would push through the ASCII offset formulas. The model copies every non-ASCII character unchanged.
- Python's exception machinery is replaced by the `Result` value: a failure is returned, not raised.
- `affine_decrypt` calls `modinv` again at every letter. The model calls `ModInv` at every letter too, but as a pure function it cannot show the repeated cost.
