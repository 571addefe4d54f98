/** The e-mail obfuscation of inc/email-encryption.php: Base64, then a
    Caesar shift of the letters by SHIFT_CHARS_BY, and the REST filter that
    replaces a post's "email" field with the result. */
module Crypt {
  import opened PhpStrings
  import opened PhpArrays
  import Base64

  /** SHIFT_CHARS_BY. */
  const ShiftCharsBy := 10

  predicate IsUpper(c: char) { 'A' <= c <= 'Z' }
  predicate IsLower(c: char) { 'a' <= c <= 'z' }

  /** chr($code): the byte `code & 255`, which is `code` modulo 256 for
      negative codes as well. */
  function Chr(code: int): Byte {
    (code % 256) as char
  }

  /** One step of rotate: a letter moves `shift` places within its case,
      wrapping around once by 26; any other byte is kept. */
  function RotateByte(c: Byte, shift: int): Byte {
    var code := c as int;
    if 65 <= code <= 90 then
      var moved := code + shift;
      Chr(if moved < 65 then moved + 26 else if moved > 90 then moved - 26 else moved)
    else if 97 <= code <= 122 then
      var moved := code + shift;
      Chr(if moved < 97 then moved + 26 else if moved > 122 then moved - 26 else moved)
    else Chr(code)
  }

  /** chr of a code in 0..255 is the byte with that code. */
  lemma {:induction false} ChrOfByte(code: int)
    requires 0 <= code < 256
    ensures Chr(code) as int == code
  {
  }

  /** For a shift of at most 26 places either way, a single wrap keeps a
      letter within its case, and any other byte is kept. */
  lemma {:induction false} RotateByteCode(c: Byte, shift: int)
    requires -26 <= shift <= 26
    ensures var (code, moved, r) := (c as int, c as int + shift, RotateByte(c, shift) as int);
      (IsUpper(c) ==> IsUpper(RotateByte(c, shift)) && r == if moved < 65 then moved + 26 else if moved > 90 then moved - 26 else moved) &&
      (IsLower(c) ==> IsLower(RotateByte(c, shift)) && r == if moved < 97 then moved + 26 else if moved > 122 then moved - 26 else moved) &&
      (!IsUpper(c) && !IsLower(c) ==> RotateByte(c, shift) == c)
  {
    var code, moved := c as int, c as int + shift;
    if IsUpper(c) {
      ChrOfByte(if moved < 65 then moved + 26 else if moved > 90 then moved - 26 else moved);
    } else if IsLower(c) {
      ChrOfByte(if moved < 97 then moved + 26 else if moved > 122 then moved - 26 else moved);
    } else {
      ChrOfByte(code);
    }
  }

  /** A remainder modulo 26 of a number at most 26 away from 0..25. */
  lemma {:induction false} WrapMod26(d: int)
    requires -26 <= d < 52
    ensures d % 26 == if d < 0 then d + 26 else if d >= 26 then d - 26 else d
  {
  }

  /** For a shift of at most 26 places either way, RotateByte is the Caesar
      cipher: letters move cyclically within their case, everything else stays. */
  lemma {:induction false} RotateByteIsCaesar(c: Byte, shift: int)
    requires -26 <= shift <= 26
    ensures IsUpper(c) ==> RotateByte(c, shift) as int == 'A' as int + (c as int - 'A' as int + shift) % 26
    ensures IsLower(c) ==> RotateByte(c, shift) as int == 'a' as int + (c as int - 'a' as int + shift) % 26
    ensures !IsUpper(c) && !IsLower(c) ==> RotateByte(c, shift) == c
  {
    RotateByteCode(c, shift);
    if IsUpper(c) {
      WrapMod26(c as int - 65 + shift);
    } else if IsLower(c) {
      WrapMod26(c as int - 97 + shift);
    }
  }

  /** Rotating back by the same amount restores the byte. */
  lemma {:induction false} RotateByteInverse(c: Byte, shift: int)
    requires -26 <= shift <= 26
    ensures RotateByte(RotateByte(c, shift), -shift) == c
  {
    RotateByteCode(c, shift);
    RotateByteCode(RotateByte(c, shift), -shift);
  }

  /** The rotation of every byte of `s`. */
  function Rotated(s: seq<Byte>, shift: int): seq<Byte> {
    seq(|s|, i requires 0 <= i < |s| => RotateByte(s[i], shift))
  }

  /** Crypt::rotate: the loop over the bytes of the input. */
  method Rotate(input: seq<Byte>, shift: int) returns (output: seq<Byte>)
    ensures output == Rotated(input, shift)
  {
    output := [];
    for i := 0 to |input|
      invariant |output| == i
      invariant forall j :: 0 <= j < i ==> output[j] == RotateByte(input[j], shift)
    {
      output := output + [RotateByte(input[i], shift)];
    }
  }

  /** Rotating a whole string back by the same amount restores it. */
  lemma {:induction false} RotatedInverse(s: seq<Byte>, shift: int)
    requires -26 <= shift <= 26
    ensures Rotated(Rotated(s, shift), -shift) == s
  {
    var r := Rotated(Rotated(s, shift), -shift);
    forall i | 0 <= i < |s| ensures r[i] == s[i] {
      RotateByteInverse(s[i], shift);
    }
  }

  /** Crypt::shift. */
  function Shift(s: seq<Byte>): seq<Byte> {
    Rotated(s, ShiftCharsBy)
  }

  /** Crypt::unshift. */
  function Unshift(s: seq<Byte>): seq<Byte> {
    Rotated(s, -ShiftCharsBy)
  }

  /** unshift undoes shift, and shift undoes unshift. */
  lemma {:induction false} ShiftInverse(s: seq<Byte>)
    ensures Unshift(Shift(s)) == s
    ensures Shift(Unshift(s)) == s
  {
    RotatedInverse(s, ShiftCharsBy);
    RotatedInverse(s, -ShiftCharsBy);
  }

  /** Crypt::encrypt: Base64, then shift. */
  function Encrypt(s: seq<Byte>): seq<Byte> {
    Shift(Base64.Encode(s))
  }

  /** Crypt::decrypt: unshift, then Base64 decoding; None where the
      unshifted text is not well-formed Base64. */
  function Decrypt(t: seq<Byte>): Option<seq<Byte>> {
    Base64.Decode(Unshift(t))
  }

  /** decrypt(encrypt($s)) gives $s back. */
  lemma {:induction false} DecryptEncrypt(s: seq<Byte>)
    ensures Decrypt(Encrypt(s)) == Some(s)
  {
    ShiftInverse(Base64.Encode(s));
    Base64.DecodeEncode(s);
  }

  /** The shift maps the Base64 alphabet onto itself and leaves `=` alone, so
      an encrypted text is as long as the Base64 text and uses the same
      symbols, with at most two `=` at the end. */
  lemma {:induction false} EncryptShape(s: seq<Byte>)
    ensures |Encrypt(s)| == (|s| + 2) / 3 * 4
    ensures forall i :: 0 <= i < |Encrypt(s)| ==>
      Base64.SymbolValue(Encrypt(s)[i]).Some? || (Encrypt(s)[i] == '=' && i >= |Encrypt(s)| - 2)
  {
    var e := Base64.Encode(s);
    Base64.EncodeUsesAlphabet(s);
    forall i | 0 <= i < |e|
      ensures Base64.SymbolValue(Encrypt(s)[i]).Some? || (Encrypt(s)[i] == '=' && i >= |e| - 2)
    {
      RotateByteCode(e[i], ShiftCharsBy);
    }
  }

  /** The condition of encrypt_email_in_rest_response: the e-mail meta value
      is not empty and contains "@", "(at)" or "[at]". */
  predicate ShouldEncryptEmail(email: seq<Byte>) {
    Truthy(email) && (Contains(email, "@") || Contains(email, "(at)") || Contains(email, "[at]"))
  }

  /** encrypt_email_in_rest_response, on the data of the response and the
      post's "email" meta value. */
  function EncryptEmailInResponse(data: PhpArray<string>, email: seq<Byte>): PhpArray<string> {
    if ShouldEncryptEmail(email) then Set(data, "email", Encrypt(email)) else data
  }

  /** When the meta value looks like an address, the response's "email" field
      holds its encryption, which decrypts back to it, and every other field
      is unchanged; otherwise the response is returned as it was. */
  lemma {:induction false} EncryptEmailInResponseSpec(data: PhpArray<string>, email: seq<Byte>, k: string)
    requires DistinctKeys(data)
    ensures ShouldEncryptEmail(email) ==>
      Get(EncryptEmailInResponse(data, email), "email") == Some(Encrypt(email)) &&
      Decrypt(Encrypt(email)) == Some(email)
    ensures k != "email" ==> Get(EncryptEmailInResponse(data, email), k) == Get(data, k)
    ensures !ShouldEncryptEmail(email) ==> EncryptEmailInResponse(data, email) == data
    ensures DistinctKeys(EncryptEmailInResponse(data, email))
  {
    SetSpec(data, "email", Encrypt(email));
    DecryptEncrypt(email);
  }
}
