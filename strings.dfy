/**
  The string operations the search filter relies on: JavaScript's
  `String.prototype.toLowerCase`, `toUpperCase` (on the ASCII letters only)
  and `String.prototype.includes` with no start position.
 */
module Strings {

  predicate IsUpper(c: char) { 'A' <= c <= 'Z' }

  predicate IsLower(c: char) { 'a' <= c <= 'z' }

  /** One character lowered: an upper-case ASCII letter becomes its lower-case partner. */
  function LowerChar(c: char): (r: char)
    ensures !IsUpper(r)
    ensures IsUpper(c) ==> IsLower(r) && r as int - c as int == 'a' as int - 'A' as int
    ensures !IsUpper(c) ==> r == c
  {
    if IsUpper(c) then (c as int - 'A' as int + 'a' as int) as char else c
  }

  /** One character raised: a lower-case ASCII letter becomes its upper-case partner. */
  function UpperChar(c: char): (r: char)
    ensures !IsLower(r)
    ensures IsLower(c) ==> IsUpper(r) && LowerChar(r) == c
    ensures !IsLower(c) ==> r == c
  {
    if IsLower(c) then (c as int - 'a' as int + 'A' as int) as char else c
  }

  /**
    `s.toLowerCase()`: same length, each upper-case ASCII letter replaced by
    its lower-case partner, every other character kept.
   */
  function ToLower(s: string): (r: string)
    ensures |r| == |s|
    ensures forall i :: 0 <= i < |r| ==> !IsUpper(r[i])
    ensures forall i :: 0 <= i < |s| && IsUpper(s[i]) ==>
      IsLower(r[i]) && r[i] as int - s[i] as int == 'a' as int - 'A' as int
    ensures forall i :: 0 <= i < |s| && !IsUpper(s[i]) ==> r[i] == s[i]
  {
    seq(|s|, i requires 0 <= i < |s| => LowerChar(s[i]))
  }

  /**
    `s.toUpperCase()`: same length, each lower-case ASCII letter replaced by
    its upper-case partner, every other character kept.
   */
  function ToUpper(s: string): (r: string)
    ensures |r| == |s|
    ensures forall i :: 0 <= i < |r| ==> !IsLower(r[i])
    ensures forall i :: 0 <= i < |s| && IsLower(s[i]) ==>
      IsUpper(r[i]) && s[i] as int - r[i] as int == 'a' as int - 'A' as int
    ensures forall i :: 0 <= i < |s| && !IsLower(s[i]) ==> r[i] == s[i]
  {
    seq(|s|, i requires 0 <= i < |s| => UpperChar(s[i]))
  }

  /** Lowering a lowered string changes nothing. */
  lemma ToLowerIdempotent(s: string)
    ensures ToLower(ToLower(s)) == ToLower(s)
  {
  }

  /** Raising a string first does not change what lowering it gives. */
  lemma ToLowerOfUpper(s: string)
    ensures ToLower(ToUpper(s)) == ToLower(s)
  {
    forall i | 0 <= i < |s|
      ensures ToLower(ToUpper(s))[i] == ToLower(s)[i]
    {
      var c := s[i];
      if IsLower(c) {
        assert ToUpper(s)[i] == UpperChar(c);
      }
    }
  }

  /** `needle` occurs in `hay` starting at position `i`. */
  ghost predicate OccursAt(hay: string, needle: string, i: int)
  {
    0 <= i <= |hay| - |needle| && hay[i..i + |needle|] == needle
  }

  /**
    `hay.includes(needle)`: true exactly when `needle` occurs somewhere in
    `hay`. Every string, the empty one included, contains the empty string.
   */
  function Includes(hay: string, needle: string): (r: bool)
    ensures r <==> exists i :: OccursAt(hay, needle, i)
  {
    if needle <= hay then
      assert OccursAt(hay, needle, 0);
      true
    else if hay == [] then
      false
    else
      var found := Includes(hay[1..], needle);
      ShiftOccurrence(hay, needle);
      found
  }

  /**
    When `needle` is not a prefix of `hay`, its occurrences in `hay` are
    those in `hay[1..]`, one position further on.
   */
  lemma ShiftOccurrence(hay: string, needle: string)
    requires hay != [] && !(needle <= hay)
    ensures (exists i :: OccursAt(hay, needle, i)) <==> (exists i :: OccursAt(hay[1..], needle, i))
  {
    var tail := hay[1..];
    if exists i :: OccursAt(hay, needle, i) {
      var i :| OccursAt(hay, needle, i);
      assert i != 0;
      assert tail[i - 1..i - 1 + |needle|] == hay[i..i + |needle|];
      assert OccursAt(tail, needle, i - 1);
    }
    if exists i :: OccursAt(tail, needle, i) {
      var i :| OccursAt(tail, needle, i);
      assert tail[i..i + |needle|] == hay[i + 1..i + 1 + |needle|];
      assert OccursAt(hay, needle, i + 1);
    }
  }

  /** The empty string is found in every string. */
  lemma IncludesEmpty(hay: string)
    ensures Includes(hay, "")
  {
    assert OccursAt(hay, "", 0);
  }

  /** A string that lacks one of the needle's characters does not include the needle. */
  lemma MissingCharacter(hay: string, needle: string, c: char)
    requires c in needle && c !in hay
    ensures !Includes(hay, needle)
  {
  }

  /** A lower-case letter appears in a lowered string only if it or its upper-case partner was there. */
  lemma LowerMissing(s: string, c: char)
    requires IsLower(c) && c !in s && UpperChar(c) !in s
    ensures c !in ToLower(s)
  {
    forall i | 0 <= i < |s|
      ensures ToLower(s)[i] != c
    {
      if IsUpper(s[i]) {
        assert LowerChar(s[i]) == c ==> UpperChar(c) == s[i];
      }
    }
  }
}
