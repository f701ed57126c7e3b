/** JavaScript strings. A JavaScript string is a sequence of UTF-16 code
    units: `.length`, indexing, `slice` and the regular expressions of this
    program all count code units, so a character above U+FFFF counts twice. */
module JsText {

  /** One UTF-16 code unit. */
  newtype CodeUnit = x: int | 0 <= x < 0x1_0000

  /** A JavaScript string. */
  type JsString = seq<CodeUnit>

  predicate IsHighSurrogate(u: CodeUnit)
  {
    0xD800 <= u < 0xDC00
  }

  predicate IsLowSurrogate(u: CodeUnit)
  {
    0xDC00 <= u < 0xE000
  }

  /** The code units of one character: the character itself below U+10000,
      otherwise a high and a low surrogate. */
  function EncodeChar(c: char): (r: JsString)
    ensures |r| == if c as int < 0x1_0000 then 1 else 2
    ensures |r| == 1 ==> r[0] as int == c as int && !IsHighSurrogate(r[0]) && !IsLowSurrogate(r[0])
    ensures |r| == 2 ==> IsHighSurrogate(r[0]) && IsLowSurrogate(r[1])
    ensures |r| == 2 ==> (r[0] as int - 0xD800) * 0x400 + (r[1] as int - 0xDC00) + 0x1_0000 == c as int
  {
    if c as int < 0x1_0000 then [c as int as CodeUnit]
    else
      var v := c as int - 0x1_0000;
      [(0xD800 + v / 0x400) as CodeUnit, (0xDC00 + v % 0x400) as CodeUnit]
  }

  /** The JavaScript string holding the text `s`. */
  function Utf16(s: string): (r: JsString)
    ensures |s| <= |r| <= 2 * |s|
    decreases |s|
  {
    if s == [] then [] else EncodeChar(s[0]) + Utf16(s[1..])
  }

  /** The text a JavaScript string spells; an unpaired surrogate reads as
      U+FFFD. */
  function DecodeUtf16(u: JsString): (s: string)
    ensures |s| <= |u|
    decreases |u|
  {
    if u == [] then []
    else if |u| >= 2 && IsHighSurrogate(u[0]) && IsLowSurrogate(u[1]) then
      var v := (u[0] as int - 0xD800) * 0x400 + (u[1] as int - 0xDC00) + 0x1_0000;
      [v as char] + DecodeUtf16(u[2..])
    else if IsHighSurrogate(u[0]) || IsLowSurrogate(u[0]) then
      ['\U{FFFD}'] + DecodeUtf16(u[1..])
    else
      [u[0] as int as char] + DecodeUtf16(u[1..])
  }

  /** Decoding undoes encoding: distinct texts are distinct JavaScript
      strings, so comparing code units compares texts. */
  lemma {:induction false} DecodeUtf16OfUtf16(s: string)
    ensures DecodeUtf16(Utf16(s)) == s
    decreases |s|
  {
    if s != [] {
      var head, tail := EncodeChar(s[0]), Utf16(s[1..]);
      assert Utf16(s) == head + tail;
      if |head| == 1 {
        assert (head + tail)[1..] == tail;
      } else {
        assert (head + tail)[2..] == tail;
      }
      DecodeUtf16OfUtf16(s[1..]);
    }
  }

  /** Encoding works character by character. */
  lemma {:induction false} Utf16Append(a: string, b: string)
    ensures Utf16(a + b) == Utf16(a) + Utf16(b)
    decreases |a|
  {
    if a != [] {
      assert (a + b)[0] == a[0];
      assert (a + b)[1..] == a[1..] + b;
      Utf16Append(a[1..], b);
    } else {
      assert a + b == b;
    }
  }

  /** Every character of `s` is below U+10000, so each is one code unit. */
  predicate IsBmp(s: string)
  {
    forall k | 0 <= k < |s| :: s[k] as int < 0x1_0000
  }

  /** The code units of a text whose characters are all below U+10000, one
      per character (other characters read as U+FFFD). */
  function BmpUnits(s: string): (r: JsString)
    ensures |r| == |s|
    ensures forall k | 0 <= k < |s| :: s[k] as int < 0x1_0000 ==> r[k] as int == s[k] as int
  {
    seq(|s|, k requires 0 <= k < |s| =>
      if s[k] as int < 0x1_0000 then s[k] as int as CodeUnit else 0xFFFD)
  }

  /** A slice of the code units is the code units of the slice. */
  lemma BmpUnitsSlice(s: string, i: nat, j: nat)
    requires i <= j <= |s|
    ensures BmpUnits(s)[i..j] == BmpUnits(s[i..j])
  {
  }

  /** For such texts `BmpUnits` is the UTF-16 encoding. */
  lemma {:induction false} BmpUnitsIsUtf16(s: string)
    requires IsBmp(s)
    ensures BmpUnits(s) == Utf16(s)
    decreases |s|
  {
    if s != [] {
      BmpUnitsIsUtf16(s[1..]);
      assert BmpUnits(s) == EncodeChar(s[0]) + BmpUnits(s[1..]);
    }
  }

  /** A text below U+10000 followed by one more character. */
  lemma BmpUnitsThenChar(s: string, c: char)
    requires IsBmp(s)
    ensures Utf16(s + [c]) == BmpUnits(s) + EncodeChar(c)
  {
    Utf16Append(s, [c]);
    BmpUnitsIsUtf16(s);
    assert [c][1..] == [];
  }

  /** One character between two texts below U+10000. */
  lemma BmpUnitsAroundChar(a: string, c: char, b: string)
    requires IsBmp(a) && IsBmp(b)
    ensures Utf16(a + [c] + b) == BmpUnits(a) + EncodeChar(c) + BmpUnits(b)
  {
    Utf16Append(a + [c], b);
    BmpUnitsThenChar(a, c);
    BmpUnitsIsUtf16(b);
  }

  /** A character above U+FFFF is two code units. */
  lemma AstralCharIsTwoUnits()
    ensures |Utf16("\U{1F600}")| == 2
    ensures |Utf16("hi\U{1F600}")| == 4
  {
  }
}
