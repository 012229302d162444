/** The two checks `c_string_to_str` makes on a buffer handed over from C:
    the text ends at the first zero byte (`CStr::from_ptr`), and that text
    must be well-formed UTF-8 (`CStr::to_str`), as section 4 of RFC 3629
    defines it. */
module Utf8 {
  import opened Base

  predicate IsTail(b: byte) {
    0x80 <= b <= 0xBF
  }

  /** Length of the well-formed UTF-8 character that `s` starts with, or 0
      when `s` does not start with one (RFC 3629, section 4). */
  function CharLength(s: seq<byte>): (n: nat)
    requires |s| > 0
    ensures n <= 4 && n <= |s|
  {
    var b := s[0];
    if b <= 0x7F then 1
    else if 0xC2 <= b <= 0xDF then
      if |s| >= 2 && IsTail(s[1]) then 2 else 0
    else if 0xE0 <= b <= 0xEF then
      if |s| >= 3 && IsTail(s[2]) &&
         (if b == 0xE0 then 0xA0 <= s[1] <= 0xBF
          else if b == 0xED then 0x80 <= s[1] <= 0x9F
          else IsTail(s[1]))
      then 3 else 0
    else if 0xF0 <= b <= 0xF4 then
      if |s| >= 4 && IsTail(s[2]) && IsTail(s[3]) &&
         (if b == 0xF0 then 0x90 <= s[1] <= 0xBF
          else if b == 0xF4 then 0x80 <= s[1] <= 0x8F
          else IsTail(s[1]))
      then 4 else 0
    else 0
  }

  /** `s` is a sequence of well-formed UTF-8 characters. */
  predicate ValidUtf8(s: seq<byte>)
    decreases |s|
  {
    |s| == 0 || (CharLength(s) > 0 && ValidUtf8(s[CharLength(s)..]))
  }

  /** The bytes before the first zero byte: what `CStr::from_ptr` sees of a
      NUL-terminated C buffer. */
  function CStr(s: seq<byte>): (r: seq<byte>)
    ensures |r| <= |s| && r == s[..|r|]
    ensures 0 !in r
    ensures |r| < |s| ==> s[|r|] == 0
    decreases |s|
  {
    if |s| == 0 || s[0] == 0 then [] else [s[0]] + CStr(s[1..])
  }

  /** `c_string_to_str` succeeds. */
  predicate IsCText(s: seq<byte>) {
    ValidUtf8(CStr(s))
  }

  /** ASCII text is well-formed UTF-8. */
  lemma {:induction false} AsciiIsValid(s: seq<byte>)
    requires forall i :: 0 <= i < |s| ==> s[i] <= 0x7F
    ensures ValidUtf8(s)
    decreases |s|
  {
    if |s| > 0 {
      assert CharLength(s) == 1;
      AsciiIsValid(s[1..]);
    }
  }
}
