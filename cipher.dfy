/** The Caesar cipher that turns a puzzle's answer into the code shown to
    the player (`encrypt` in script.js). */
module Cipher {
  import opened Js

  predicate IsUpper(c: char) {
    'A' <= c <= 'Z'
  }

  /** Position of an upper-case letter in the alphabet, `A` = 0. */
  function Pos(c: char): (p: int)
    requires IsUpper(c)
    ensures 0 <= p < 26
  {
    c as int - 'A' as int
  }

  /** The letter at alphabet position `p`. */
  function Letter(p: int): (c: char)
    requires 0 <= p < 26
    ensures IsUpper(c) && Pos(c) == p
  {
    ('A' as int + p) as char
  }

  /** What the replacement callback does to one character: an upper-case
      letter becomes the character with code `JS((pos + shift) % 26) + 65`,
      anything else is left alone. For a negative sum the JavaScript
      remainder is negative and the code falls below `A`. */
  function ShiftChar(c: char, shift: int): (d: char)
    ensures !IsUpper(c) ==> d == c
    ensures IsUpper(c) && shift >= 0 ==> d == Letter((Pos(c) + shift) % 26)
    ensures IsWhite(d) <==> IsWhite(c)
  {
    if IsUpper(c) then (Rem26(Pos(c) + shift) + 'A' as int) as char else c
  }

  /** `txt.replace(/[A-Z]/g, …)`: every upper-case letter is shifted, every
      other character (lower-case letters included) is kept. */
  function Encrypt(txt: string, shift: int): (r: string)
    ensures |r| == |txt|
    ensures forall i :: 0 <= i < |txt| && !IsUpper(txt[i]) ==> r[i] == txt[i]
    ensures forall i :: 0 <= i < |txt| && IsUpper(txt[i]) && shift >= 0 ==>
              r[i] == Letter((Pos(txt[i]) + shift) % 26)
    ensures forall i :: 0 <= i < |txt| ==> r[i] == ShiftChar(txt[i], shift)
  {
    if txt == [] then [] else [ShiftChar(txt[0], shift)] + Encrypt(txt[1..], shift)
  }

  lemma ModPeriod(y: int, k: int)
    ensures (y + 26 * k) % 26 == y % 26
  {
  }

  lemma ModAdd(p: int, s: int)
    ensures (p + s) % 26 == (p + s % 26) % 26
  {
    ModPeriod(p + s % 26, s / 26);
  }

  /** Shifting a position forward by `s` and back by `s` lands on it again. */
  lemma ModCancel(p: int, s: int)
    requires 0 <= p < 26
    ensures ((p + s) % 26 + -s) % 26 == p
  {
    ModPeriod(p, (p + s) / 26);
    assert (p + s) % 26 + -s == p + 26 * (-((p + s) / 26));
  }

  lemma ShiftCharReduce(c: char, shift: int)
    requires shift >= 0
    ensures ShiftChar(c, shift) == ShiftChar(c, shift % 26)
  {
    if IsUpper(c) { ModAdd(Pos(c), shift); }
  }

  lemma ShiftCharRoundTrip(c: char, shift: int)
    requires shift >= 0
    ensures ShiftChar(ShiftChar(c, shift), 26 - shift % 26) == c
  {
    if IsUpper(c) {
      var p := Pos(c);
      var x := (p + shift) % 26;
      ModCancel(p, shift);
      ModPeriod(x + -shift, shift / 26 + 1);
      assert x + (26 - shift % 26) == x + -shift + 26 * (shift / 26 + 1);
      assert Letter(p) == c;
    }
  }

  lemma ShiftCharZero(c: char)
    ensures ShiftChar(c, 0) == c
  {
    if IsUpper(c) { assert Letter(Pos(c)) == c; }
  }

  /** A shift of zero leaves every text as it is. */
  lemma {:induction false} EncryptZero(txt: string)
    ensures Encrypt(txt, 0) == txt
  {
    forall i | 0 <= i < |txt| ensures Encrypt(txt, 0)[i] == txt[i] {
      ShiftCharZero(txt[i]);
    }
  }

  /** Among non-negative shifts only the shift modulo 26 matters. */
  lemma {:induction false} EncryptReduce(txt: string, shift: int)
    requires shift >= 0
    ensures Encrypt(txt, shift) == Encrypt(txt, shift % 26)
  {
    forall i | 0 <= i < |txt| ensures Encrypt(txt, shift)[i] == Encrypt(txt, shift % 26)[i] {
      ShiftCharReduce(txt[i], shift);
    }
  }

  /** The cipher has period 26 in the shift. */
  lemma {:induction false} EncryptPeriodic(txt: string, shift: int)
    requires shift >= 0
    ensures Encrypt(txt, shift + 26) == Encrypt(txt, shift)
  {
    EncryptReduce(txt, shift);
    EncryptReduce(txt, shift + 26);
    assert (shift + 26) % 26 == shift % 26;
  }

  /** Shifting by `shift` and then by `26 - shift % 26` gives the text back:
      every code the admin preview or a level shows decodes to its answer. */
  lemma {:induction false} EncryptRoundTrip(txt: string, shift: int)
    requires shift >= 0
    ensures Encrypt(Encrypt(txt, shift), 26 - shift % 26) == txt
  {
    var c := Encrypt(txt, shift);
    forall i | 0 <= i < |txt| ensures Encrypt(c, 26 - shift % 26)[i] == txt[i] {
      ShiftCharRoundTrip(txt[i], shift);
    }
  }

  /** For a fixed non-negative shift two different texts never share a code. */
  lemma {:induction false} EncryptInjective(t1: string, t2: string, shift: int)
    requires shift >= 0
    requires Encrypt(t1, shift) == Encrypt(t2, shift)
    ensures t1 == t2
  {
    EncryptRoundTrip(t1, shift);
    EncryptRoundTrip(t2, shift);
  }

  /** The cipher commutes with trimming: letters never become white space
      and white space is kept, whatever the sign of the shift. */
  lemma {:induction false} EncryptTrim(txt: string, shift: int)
    ensures Trim(Encrypt(txt, shift)) == Encrypt(Trim(txt), shift)
  {
    EncryptTrimStart(txt, shift);
    EncryptTrimEnd(TrimStart(txt), shift);
  }

  lemma {:induction false} EncryptTrimStart(txt: string, shift: int)
    ensures TrimStart(Encrypt(txt, shift)) == Encrypt(TrimStart(txt), shift)
  {
    if txt != [] {
      assert Encrypt(txt, shift)[1..] == Encrypt(txt[1..], shift);
      EncryptTrimStart(txt[1..], shift);
    }
  }

  lemma {:induction false} EncryptTrimEnd(txt: string, shift: int)
    ensures TrimEnd(Encrypt(txt, shift)) == Encrypt(TrimEnd(txt), shift)
  {
    if txt != [] {
      var n := |txt| - 1;
      assert Encrypt(txt, shift)[..n] == Encrypt(txt[..n], shift);
      EncryptTrimEnd(txt[..n], shift);
    }
  }

  /** The shift a caller would pass after normalising it into [0, 26) with
      `((s % 26) + 26) % 26` in JavaScript arithmetic. */
  function NormalizeShift(shift: int): (n: int)
    ensures 0 <= n < 26 && n == shift % 26
  {
    var r := Rem26(shift);
    var k := (shift - r) / 26;
    assert shift == r + 26 * k;
    assert (r + 26 + 26 * k) % 26 == (r + 26) % 26;
    Rem26(r + 26)
  }

  /** The cipher with its shift normalised first: defined for every shift,
      it rotates every letter by the shift modulo 26. */
  function EncryptNormalized(txt: string, shift: int): (r: string)
    ensures |r| == |txt|
    ensures forall i :: 0 <= i < |txt| && !IsUpper(txt[i]) ==> r[i] == txt[i]
    ensures forall i :: 0 <= i < |txt| && IsUpper(txt[i]) ==> IsUpper(r[i]) && Pos(r[i]) == (Pos(txt[i]) + shift) % 26
  {
    NormalizedLetters(txt, shift);
    Encrypt(txt, NormalizeShift(shift))
  }

  lemma ShiftCharNormalized(c: char, shift: int)
    requires IsUpper(c)
    ensures IsUpper(ShiftChar(c, NormalizeShift(shift)))
    ensures Pos(ShiftChar(c, NormalizeShift(shift))) == (Pos(c) + shift) % 26
  {
    ModAdd(Pos(c), shift);
  }

  lemma {:induction false} NormalizedLetters(txt: string, shift: int)
    ensures forall i :: 0 <= i < |txt| && IsUpper(txt[i]) ==>
              IsUpper(Encrypt(txt, NormalizeShift(shift))[i]) &&
              Pos(Encrypt(txt, NormalizeShift(shift))[i]) == (Pos(txt[i]) + shift) % 26
  {
    forall i | 0 <= i < |txt| && IsUpper(txt[i])
      ensures IsUpper(Encrypt(txt, NormalizeShift(shift))[i])
      ensures Pos(Encrypt(txt, NormalizeShift(shift))[i]) == (Pos(txt[i]) + shift) % 26
    {
      ShiftCharNormalized(txt[i], shift);
    }
  }

  lemma ShiftCharNormalizedRoundTrip(c: char, shift: int)
    ensures ShiftChar(ShiftChar(c, NormalizeShift(shift)), NormalizeShift(-shift)) == c
  {
    if IsUpper(c) {
      var p := Pos(c);
      var x := (p + shift % 26) % 26;
      ModAdd(p, shift);
      ModAdd(x, -shift);
      ModCancel(p, shift);
      assert Letter(p) == c;
    }
  }

  /** With the shift normalised, decoding with the negated shift gives the
      text back for every shift, negative ones included. */
  lemma {:induction false} EncryptNormalizedRoundTrip(txt: string, shift: int)
    ensures EncryptNormalized(EncryptNormalized(txt, shift), -shift) == txt
  {
    var c := EncryptNormalized(txt, shift);
    forall i | 0 <= i < |txt| ensures EncryptNormalized(c, -shift)[i] == txt[i] {
      ShiftCharNormalizedRoundTrip(txt[i], shift);
    }
  }

  /** Normalising changes nothing for the non-negative shifts the game stores. */
  lemma {:induction false} EncryptNormalizedAgrees(txt: string, shift: int)
    requires shift >= 0
    ensures EncryptNormalized(txt, shift) == Encrypt(txt, shift)
  {
    EncryptReduce(txt, shift);
  }

  /** As written, a letter whose shifted position is negative and not a
      multiple of 26 leaves the alphabet, so `/[A-Z]/` never touches it again. */
  lemma NegativeShiftEscapes(c: char, shift: int)
    requires IsUpper(c) && Pos(c) + shift < 0 && (Pos(c) + shift) % 26 != 0
    ensures !IsUpper(ShiftChar(c, shift))
  {
  }

  /** As written, a negative shift sends a letter out of the alphabet, so the
      negated shift cannot decode it. */
  lemma NegativeShiftLeavesAlphabet()
    ensures Encrypt("A", -1) == "@"
    ensures Encrypt(Encrypt("A", -1), NormalizeShift(1)) != "A"
  {
    assert Encrypt("A", -1)[0] == '@';
  }
}
