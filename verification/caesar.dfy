/** Caesar_permutation_playfair_cipher.py, the Caesar pair: every character
    of the upper-cased, space-free text is moved `shift` places round the
    alphabet. The source computes a letter's place as `ord(c) % 65`, which
    is `ord(c) - 65` exactly for the upper-case letters. */
module Caesar {
  import opened Text

  /** `caesarEncrypt(letter)`: chr(65 + (ord(c) % 65 + shift) % 26). */
  function ShiftLetter(c: char, shift: int): (r: char)
    ensures IsUpper(r)
    ensures IsUpper(c) ==> r as int - 65 == (c as int - 65 + shift) % 26
  {
    (65 + ((c as int) % 65 + shift) % 26) as char
  }

  /** The decrypting step: chr(65 + (ord(c) % 65 - shift) % 26). */
  function UnshiftLetter(c: char, shift: int): (r: char)
    ensures IsUpper(r)
    ensures IsUpper(c) ==> r as int - 65 == (c as int - 65 - shift) % 26
  {
    (65 + ((c as int) % 65 - shift) % 26) as char
  }

  /** Shifting back undoes shifting forward, on upper-case letters. */
  lemma UnshiftShift(c: char, shift: int)
    requires IsUpper(c)
    ensures UnshiftLetter(ShiftLetter(c, shift), shift) == c
    ensures ShiftLetter(UnshiftLetter(c, shift), shift) == c
  {
    var x := c as int - 65;
    assert UnshiftLetter(ShiftLetter(c, shift), shift) == c by {
      ModSubShift(x, shift);
    }
    assert ShiftLetter(UnshiftLetter(c, shift), shift) == c by {
      ModSubShift(x, -shift);
    }
  }

  /** ((x + s) mod 26 - s) mod 26 == x for a place x in [0, 26). */
  lemma ModSubShift(x: int, s: int)
    requires 0 <= x < 26
    ensures ((x + s) % 26 - s) % 26 == x
  {
    var q := (x + s) / 26;
    assert (x + s) % 26 - s == x - 26 * q;
    assert (x - 26 * q) % 26 == x by {
      assert x - 26 * q == (-q) * 26 + x;
    }
  }

  /** `caesarCipher(shift, plaintext)`. */
  function CaesarCipher(shift: int, plaintext: string): (r: string)
    ensures |r| == |Clean(plaintext)|
    ensures AllUpper(r)
    ensures forall i :: 0 <= i < |r| ==> r[i] == ShiftLetter(Clean(plaintext)[i], shift)
  {
    var t := Clean(plaintext);
    seq(|t|, i requires 0 <= i < |t| => ShiftLetter(t[i], shift))
  }

  /** `decryptCaesarCipher(shift, text)`. */
  function DecryptCaesarCipher(shift: int, text: string): (r: string)
    ensures |r| == |Clean(text)|
    ensures AllUpper(r)
    ensures forall i :: 0 <= i < |r| ==> r[i] == UnshiftLetter(Clean(text)[i], shift)
  {
    var t := Clean(text);
    seq(|t|, i requires 0 <= i < |t| => UnshiftLetter(t[i], shift))
  }

  /** A cleaned text is its own cleaning. */
  lemma CleanUpper(s: string)
    requires AllUpper(s)
    ensures Clean(s) == s
  {
    UpperIdempotent(s);
    RemoveSpacesNone(s);
  }

  /** Decryption with the same shift recovers the cleaned plain text. */
  lemma CaesarRoundTrip(shift: int, plaintext: string)
    requires IsPlainText(plaintext)
    ensures DecryptCaesarCipher(shift, CaesarCipher(shift, plaintext)) == Clean(plaintext)
  {
    var t := Clean(plaintext);
    var c := CaesarCipher(shift, plaintext);
    CleanUpper(c);
    forall i | 0 <= i < |t|
      ensures UnshiftLetter(c[i], shift) == t[i]
    {
      UnshiftShift(t[i], shift);
    }
  }

  /** And encryption recovers any upper-case cipher text from its
      decryption. */
  lemma CaesarRoundTripInverse(shift: int, text: string)
    requires AllUpper(text)
    ensures CaesarCipher(shift, DecryptCaesarCipher(shift, text)) == text
  {
    var m := DecryptCaesarCipher(shift, text);
    CleanUpper(text);
    CleanUpper(m);
    forall i | 0 <= i < |text|
      ensures ShiftLetter(m[i], shift) == text[i]
    {
      UnshiftShift(text[i], shift);
    }
  }
}
