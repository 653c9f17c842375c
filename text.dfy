/**
  The parts of Python's `str` that the access-code generator relies on:
  `str.upper()` (restricted to ASCII), the containment test `sub in s`, and the
  ordering `a < b` that `sorted` uses (code point by code point, a proper prefix
  coming first).
*/
module Text {

  /** ASCII upper case of one character: `a`..`z` move to `A`..`Z`, every other character is kept. */
  function UpperChar(c: char): char
  {
    if IsLowerChar(c) then (c as int - 32) as char else c
  }

  predicate IsLowerChar(c: char)
  {
    'a' <= c <= 'z'
  }

  /** `s.upper()`, character by character. */
  function Upper(s: string): (u: string)
    ensures |u| == |s|
    ensures forall i :: 0 <= i < |s| ==> u[i] == UpperChar(s[i])
  {
    seq(|s|, i requires 0 <= i < |s| => UpperChar(s[i]))
  }

  /** Upper-casing leaves no lower-case letter behind, so doing it twice changes nothing. */
  lemma UpperIdempotent(s: string)
    ensures forall i :: 0 <= i < |s| ==> !IsLowerChar(Upper(s)[i])
    ensures Upper(Upper(s)) == Upper(s)
  {
  }

  /** A string without lower-case letters is its own upper case. */
  lemma UpperOfUpperCase(s: string)
    requires forall i :: 0 <= i < |s| ==> !IsLowerChar(s[i])
    ensures Upper(s) == s
  {
  }

  predicate IsPrefix(p: string, s: string)
  {
    |p| <= |s| && s[..|p|] == p
  }

  /** Python's `sub in s`: `sub` starts at some position of `s` (the empty string occurs in every string). */
  predicate Occurs(sub: string, s: string)
    decreases |s|
  {
    IsPrefix(sub, s) || (|s| > 0 && Occurs(sub, s[1..]))
  }

  /** `sub` is the slice of `s` that starts at position `i`. */
  predicate OccursAt(sub: string, s: string, i: int)
  {
    0 <= i <= |s| - |sub| && s[i..i + |sub|] == sub
  }

  /** `Occurs` is exactly "some slice of `s` equals `sub`". */
  lemma {:induction false} OccursIffSlice(sub: string, s: string)
    ensures Occurs(sub, s) <==> exists i :: OccursAt(sub, s, i)
    decreases |s|
  {
    if IsPrefix(sub, s) {
      assert OccursAt(sub, s, 0);
    } else if |s| == 0 {
      assert !exists i :: OccursAt(sub, s, i);
    } else {
      OccursIffSlice(sub, s[1..]);
      var t := s[1..];
      if Occurs(sub, t) {
        var i :| OccursAt(sub, t, i);
        assert s[i + 1..i + 1 + |sub|] == t[i..i + |sub|];
        assert OccursAt(sub, s, i + 1);
      } else {
        forall i | 0 < i <= |s| - |sub|
          ensures OccursAt(sub, s, i) == OccursAt(sub, t, i - 1)
        {
          assert s[i..i + |sub|] == t[i - 1..i - 1 + |sub|];
        }
        assert !OccursAt(sub, s, 0);
      }
    }
  }

  /** A string containing a character that `s` lacks does not occur in `s`. */
  lemma MissingCharNeverOccurs(sub: string, s: string, c: char)
    requires c in sub && c !in s
    ensures !Occurs(sub, s)
  {
    var k :| 0 <= k < |sub| && sub[k] == c;
    forall i | 0 <= i <= |s| - |sub|
      ensures !OccursAt(sub, s, i)
    {
      assert s[i..i + |sub|][k] == s[i + k];
    }
    OccursIffSlice(sub, s);
  }

  /** Python's `a < b` on strings: the first differing code point decides; a proper prefix is smaller. */
  predicate Less(a: string, b: string)
    decreases |a|
  {
    if |a| == 0 then |b| > 0
    else if |b| == 0 then false
    else if a[0] != b[0] then a[0] < b[0]
    else Less(a[1..], b[1..])
  }

  lemma {:induction false} LessIrreflexive(a: string)
    ensures !Less(a, a)
    decreases |a|
  {
    if |a| > 0 {
      LessIrreflexive(a[1..]);
    }
  }

  lemma {:induction false} LessTransitive(a: string, b: string, c: string)
    requires Less(a, b) && Less(b, c)
    ensures Less(a, c)
    decreases |a|
  {
    if |a| > 0 && a[0] == b[0] && b[0] == c[0] {
      LessTransitive(a[1..], b[1..], c[1..]);
    }
  }

  /** Any two different strings are ordered one way or the other. */
  lemma {:induction false} LessTotal(a: string, b: string)
    requires a != b
    ensures Less(a, b) || Less(b, a)
    decreases |a|
  {
    if |a| > 0 && |b| > 0 && a[0] == b[0] {
      assert a == [a[0]] + a[1..] && b == [b[0]] + b[1..];
      LessTotal(a[1..], b[1..]);
    }
  }

  lemma {:induction false} LessAsymmetric(a: string, b: string)
    requires Less(a, b)
    ensures !Less(b, a)
  {
    if Less(b, a) {
      LessTransitive(a, b, a);
      LessIrreflexive(a);
    }
  }

  /** Two strings that agree up to their last character are ordered by that character. */
  lemma {:induction false} LessLastLetter(w: string, c: char, d: char)
    ensures Less(w + [c], w + [d]) <==> c < d
    decreases |w|
  {
    if |w| > 0 {
      assert (w + [c])[1..] == w[1..] + [c] && (w + [d])[1..] == w[1..] + [d];
      LessLastLetter(w[1..], c, d);
    }
  }

  /** Appending one character each to two equally long strings keeps their order. */
  lemma {:induction false} LessAppendSameLength(a: string, b: string, c: char, d: char)
    requires |a| == |b| && Less(a, b)
    ensures Less(a + [c], b + [d])
    decreases |a|
  {
    if a[0] == b[0] {
      assert (a + [c])[1..] == a[1..] + [c] && (b + [d])[1..] == b[1..] + [d];
      LessAppendSameLength(a[1..], b[1..], c, d);
    }
  }
}
