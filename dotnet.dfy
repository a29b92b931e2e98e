/**
 * The small part of the .NET base library that the registration logic uses:
 * string tests, GUIDs and timestamps. Strings are sequences of characters; a
 * string reference that may be null is an Option.
 */
module DotNet {
  import opened Wrappers

  /** A .NET `string` reference, which may be null. */
  type NullableString = Option<string>

  /** `char.IsWhiteSpace`: the Unicode space, line and paragraph separators,
      the control characters U+0009 to U+000D, and U+0085. */
  predicate IsWhiteSpace(c: char)
    ensures IsWhiteSpace(c) <==> c as int in WhiteSpaceCodePoints
  {
    var n := c as int;
    || (0x09 <= n <= 0x0D) || n == 0x20 || n == 0x85 || n == 0xA0 || n == 0x1680
    || (0x2000 <= n <= 0x200A) || n == 0x2028 || n == 0x2029 || n == 0x202F
    || n == 0x205F || n == 0x3000
  }

  /** The code points that the .NET documentation lists for
      `char.IsWhiteSpace`, one by one. */
  const WhiteSpaceCodePoints: set<int> :=
    {0x09, 0x0A, 0x0B, 0x0C, 0x0D, 0x20, 0x85, 0xA0, 0x1680,
     0x2000, 0x2001, 0x2002, 0x2003, 0x2004, 0x2005, 0x2006, 0x2007, 0x2008, 0x2009, 0x200A,
     0x2028, 0x2029, 0x202F, 0x205F, 0x3000}

  /** `string.IsNullOrEmpty`. */
  predicate IsNullOrEmpty(s: NullableString)
    ensures IsNullOrEmpty(s) ==> IsNullOrWhiteSpace(s)
  {
    s.None? || |s.value| == 0
  }

  /** `string.IsNullOrWhiteSpace`: null, or every character is white space
      (so the empty string qualifies). */
  predicate IsNullOrWhiteSpace(s: NullableString)
    ensures s.Some? ==> (IsNullOrWhiteSpace(s) <==> forall c :: c in s.value ==> IsWhiteSpace(c))
  {
    s.None? || forall i :: 0 <= i < |s.value| ==> IsWhiteSpace(s.value[i])
  }

  /** `string.Contains(string)`: an ordinal search for `sub` as a contiguous
      part of `s`. */
  predicate Contains(s: string, sub: string)
    ensures sub == [] ==> Contains(s, sub)
    ensures Contains(s, sub) ==> |sub| <= |s|
  {
    assert sub == [] ==> OccursAt(s, sub, 0);
    exists i :: 0 <= i <= |s| - |sub| && OccursAt(s, sub, i)
  }

  /** `sub` occurs in `s` starting at position `i`. */
  predicate OccursAt(s: string, sub: string, i: int)
  {
    0 <= i <= |s| - |sub| && s[i..i + |sub|] == sub
  }

  /** Searching for a one-character string finds exactly the strings that
      hold that character. */
  lemma ContainsOneChar(s: string, c: char)
    ensures Contains(s, [c]) <==> c in s
  {
    if c in s {
      var i :| 0 <= i < |s| && s[i] == c;
      assert OccursAt(s, [c], i);
    }
    if Contains(s, [c]) {
      var i :| 0 <= i <= |s| - 1 && OccursAt(s, [c], i);
      assert s[i..i + 1] == [c];
      assert s[i] == c;
    }
  }

  /** `System.Guid`: a 128-bit value. */
  newtype Guid = x: int | 0 <= x < 0x1_0000_0000_0000_0000_0000_0000_0000_0000

  /** `System.DateTime`: a count of 100-nanosecond ticks, from 0 up to the
      ticks of `DateTime.MaxValue`. */
  newtype DateTime = t: int | 0 <= t <= 3_155_378_975_999_999_999
}
