/**
  `System.Text.Encoding.ASCII` and `string.TrimEnd((char)0)`: single-byte text
  where every byte above 0x7F, and every UTF-16 code unit of a character
  above U+007F, becomes '?'.
 */
module Ascii {
  import opened Words

  const Nul: char := 0 as char
  const Replacement: char := '?'

  /** Every character of s is 7-bit. */
  predicate IsAscii(s: string) {
    forall i :: 0 <= i < |s| ==> s[i] as int < 0x80
  }

  /** Every byte of bs is 7-bit. */
  predicate IsAsciiBytes(bs: seq<byte>) {
    forall i :: 0 <= i < |bs| ==> bs[i] < 0x80
  }

  /** Every character of s lies in the Basic Multilingual Plane, so it is a single UTF-16 code unit. */
  predicate IsBmp(s: string) {
    forall i :: 0 <= i < |s| ==> s[i] as int < 0x10000
  }

  /** The number of UTF-16 code units of c: a character beyond U+FFFF is a surrogate pair. */
  function Utf16Length(c: char): (n: nat)
    ensures n == 1 || n == 2
    ensures n == 2 <==> c as int >= 0x10000
  {
    if c as int < 0x10000 then 1 else 2
  }

  /** The .NET length of s: its number of UTF-16 code units. */
  function Utf16Count(s: string): (n: nat)
    ensures n >= |s|
    ensures n == |s| <==> IsBmp(s)
    decreases |s|
  {
    if |s| == 0 then 0
    else
      var n := Utf16Length(s[0]) + Utf16Count(s[1..]);
      assert IsBmp(s) <==> s[0] as int < 0x10000 && IsBmp(s[1..]) by {
        if s[0] as int < 0x10000 && IsBmp(s[1..]) {
          forall i | 0 <= i < |s|
            ensures s[i] as int < 0x10000
          {
            if i > 0 {
              assert s[i] == s[1..][i - 1];
            }
          }
        }
      }
      n
  }

  /**
    `Encoding.ASCII` on one character: a 7-bit character is its own byte;
    any other becomes '?' once per UTF-16 code unit, because the
    replacement fallback substitutes "??" for a surrogate pair.
   */
  function EncodeChar(c: char): (bs: seq<byte>)
    ensures |bs| == Utf16Length(c)
    ensures c as int < 0x80 ==> bs == [c as int]
    ensures c as int >= 0x80 ==> forall k :: 0 <= k < |bs| ==> bs[k] == Replacement as int
  {
    if c as int < 0x80 then [c as int]
    else if c as int < 0x10000 then [Replacement as int]
    else [Replacement as int, Replacement as int]
  }

  /**
    `Encoding.ASCII.GetBytes(s)`: one 7-bit byte per UTF-16 code unit; for
    7-bit text, exactly the characters' own codes.
   */
  function GetBytes(s: string): (bs: seq<byte>)
    ensures |bs| == Utf16Count(s)
    ensures IsAsciiBytes(bs)
    ensures IsAscii(s) ==> |bs| == |s| && forall i :: 0 <= i < |s| ==> bs[i] == s[i] as int
    decreases |s|
  {
    if |s| == 0 then []
    else
      var head := EncodeChar(s[0]);
      var tail := GetBytes(s[1..]);
      assert IsAscii(s) ==> IsAscii(s[1..]) by {
        if IsAscii(s) {
          forall i | 0 <= i < |s[1..]|
            ensures s[1..][i] as int < 0x80
          {
            assert s[1..][i] == s[i + 1];
          }
        }
      }
      assert IsAscii(s) ==> forall i :: 1 <= i < |s| ==> s[i] == s[1..][i - 1];
      head + tail
  }

  /** A character beyond U+FFFF is written as two '?' bytes, one per half of its surrogate pair. */
  lemma SupplementaryCharIsTwoBytes(c: char)
    requires c as int >= 0x10000
    ensures GetBytes([c]) == [Replacement as int, Replacement as int]
  {
    assert [c][1..] == [];
  }

  function DecodeByte(b: byte): (c: char)
    ensures c as int < 0x80
  {
    if b < 0x80 then b as char else Replacement
  }

  /** `Encoding.ASCII.GetString(bs)`: one character per byte. */
  function GetString(bs: seq<byte>): (s: string)
    ensures |s| == |bs|
    ensures IsAscii(s)
  {
    seq(|bs|, i requires 0 <= i < |bs| => DecodeByte(bs[i]))
  }

  /** Text that is already 7-bit survives encoding and decoding unchanged. */
  lemma GetStringGetBytes(s: string)
    requires IsAscii(s)
    ensures GetString(GetBytes(s)) == s
  {
    var t := GetString(GetBytes(s));
    forall i | 0 <= i < |s|
      ensures t[i] == s[i]
    {
      assert GetBytes(s)[i] == s[i] as int;
    }
  }

  /** Bytes that are already 7-bit survive decoding and encoding unchanged. */
  lemma GetBytesGetString(bs: seq<byte>)
    requires IsAsciiBytes(bs)
    ensures GetBytes(GetString(bs)) == bs
  {
  }

  /** A byte above 0x7F is read back as '?', so such bytes cannot be recovered from the text. */
  lemma HighByteBecomesReplacement(bs: seq<byte>, i: nat)
    requires i < |bs| && bs[i] >= 0x80
    ensures GetString(bs)[i] == Replacement
    ensures GetBytes(GetString(bs)) != bs
  {
    assert GetBytes(GetString(bs))[i] == Replacement as int != bs[i];
  }

  /**
    `s.TrimEnd((char)0)`: s without its maximal run of trailing NUL
    characters. Leading and embedded NULs stay, since the result is a prefix.
   */
  function TrimEndNul(s: string): (r: string)
    ensures r <= s
    ensures forall i :: |r| <= i < |s| ==> s[i] == Nul
    ensures |r| == 0 || r[|r| - 1] != Nul
    decreases |s|
  {
    if |s| > 0 && s[|s| - 1] == Nul then TrimEndNul(s[..|s| - 1]) else s
  }

  /** The three properties of TrimEndNul pin its result down: t + a NUL run trims to t. */
  lemma {:induction false} TrimEndNulExactly(t: string, z: string)
    requires forall i :: 0 <= i < |z| ==> z[i] == Nul
    requires |t| == 0 || t[|t| - 1] != Nul
    ensures TrimEndNul(t + z) == t
    decreases |z|
  {
    if |z| == 0 {
      assert t + z == t;
    } else {
      var s := t + z;
      assert s[|s| - 1] == Nul;
      assert s[..|s| - 1] == t + z[..|z| - 1];
      TrimEndNulExactly(t, z[..|z| - 1]);
    }
  }
}
