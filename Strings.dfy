/**
 * The few Python `str` operations the core relies on: `lower()` restricted
 * to ASCII, `startswith`, `endswith` and the substring test `p in s`.
 */
module Strings {

  /** ASCII `str.lower()` on one character. */
  function ToLower(c: char): char
  {
    if 'A' <= c <= 'Z' then (c as int + 32) as char else c
  }

  predicate IsUpper(c: char)
  {
    'A' <= c <= 'Z'
  }

  /** ASCII `str.lower()`: every character lowered, the length kept. */
  function Lower(s: string): (r: string)
    ensures |r| == |s|
    ensures forall i :: 0 <= i < |s| ==> r[i] == ToLower(s[i])
  {
    seq(|s|, i requires 0 <= i < |s| => ToLower(s[i]))
  }

  /** A lowered string holds no upper-case letter, and lowering it again changes nothing. */
  lemma LowerIsLower(s: string)
    ensures forall i :: 0 <= i < |Lower(s)| ==> !IsUpper(Lower(s)[i])
    ensures Lower(Lower(s)) == Lower(s)
  {
  }

  /** `s.startswith(p)` */
  predicate StartsWith(s: string, p: string)
  {
    |p| <= |s| && s[..|p|] == p
  }

  /** `s.endswith(p)` */
  predicate EndsWith(s: string, p: string)
  {
    |p| <= |s| && s[|s| - |p|..] == p
  }

  /** `s.startswith(p)` holds exactly when `s` is `p` followed by something. */
  lemma StartsWithIffPrefix(s: string, p: string)
    ensures StartsWith(s, p) <==> exists t :: s == p + t
  {
    if StartsWith(s, p) {
      assert s == p + s[|p|..];
    }
    if exists t :: s == p + t {
      var t :| s == p + t;
      assert s[..|p|] == p;
    }
  }

  /** `s.endswith(p)` holds exactly when `s` is something followed by `p`. */
  lemma EndsWithIffSuffix(s: string, p: string)
    ensures EndsWith(s, p) <==> exists t :: s == t + p
  {
    if EndsWith(s, p) {
      assert s == s[..|s| - |p|] + p;
    }
    if exists t :: s == t + p {
      var t :| s == t + p;
      assert s[|s| - |p|..] == p;
    }
  }

  /** `p` occurs in `s` starting at offset `i`. */
  predicate OccursAt(p: string, s: string, i: int)
  {
    0 <= i <= |s| - |p| && s[i..i + |p|] == p
  }

  /** Reference meaning of Python's `p in s`: `p` occurs at some offset of `s`. */
  ghost predicate IsSubstring(p: string, s: string)
  {
    exists i :: OccursAt(p, s, i)
  }

  /** Left-to-right search for `p` in `s`, trying the offsets in turn. */
  function Contains(s: string, p: string): (r: bool)
    ensures r <==> IsSubstring(p, s)
    decreases |s|
  {
    if StartsWith(s, p) then
      assert OccursAt(p, s, 0);
      true
    else if |s| <= |p| then
      assert !IsSubstring(p, s) by {
        forall i | 0 <= i ensures !OccursAt(p, s, i) {
        }
      }
      false
    else
      var r := Contains(s[1..], p);
      assert r ==> IsSubstring(p, s) by {
        if r {
          var i :| OccursAt(p, s[1..], i);
          assert s[i + 1..i + 1 + |p|] == s[1..][i..i + |p|];
          assert OccursAt(p, s, i + 1);
        }
      }
      assert IsSubstring(p, s) ==> r by {
        if IsSubstring(p, s) {
          var i :| OccursAt(p, s, i);
          assert i != 0;
          assert s[1..][i - 1..i - 1 + |p|] == s[i..i + |p|];
          assert OccursAt(p, s[1..], i - 1);
        }
      }
      r
  }

  /** The empty string occurs in every string, as in Python. */
  lemma EmptyIsSubstring(s: string)
    ensures Contains(s, "")
  {
  }
}
