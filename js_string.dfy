// The two JavaScript string operations the handlers rely on, over Dafny
// strings (sequences of Unicode scalar values).

module JsString {

  /** The value of JavaScript's `s.length`: the number of UTF-16 code units,
      where a character outside the Basic Multilingual Plane takes two. */
  function Utf16Length(s: string): (n: nat)
    ensures |s| <= n <= 2 * |s|
  {
    if s == [] then 0
    else (if s[0] as int >= 0x1_0000 then 2 else 1) + Utf16Length(s[1..])
  }

  /** JavaScript lengths add up over concatenation. */
  lemma {:induction false} Utf16LengthOfConcat(a: string, b: string)
    ensures Utf16Length(a + b) == Utf16Length(a) + Utf16Length(b)
  {
    if a != [] {
      assert (a + b)[0] == a[0] && (a + b)[1..] == a[1..] + b;
      Utf16LengthOfConcat(a[1..], b);
    } else {
      assert a + b == b;
    }
  }

  /** Every character of `s` lies in the Basic Multilingual Plane. */
  predicate IsBmp(s: string)
  {
    forall i :: 0 <= i < |s| ==> (s[i] as int) < 0x1_0000
  }

  /** On BMP text JavaScript's length and the character count agree. */
  lemma {:induction false} Utf16LengthOfBmp(s: string)
    requires IsBmp(s)
    ensures Utf16Length(s) == |s|
  {
    if s != [] {
      assert IsBmp(s[1..]) by {
        forall i | 0 <= i < |s[1..]| ensures (s[1..][i] as int) < 0x1_0000 {
          assert s[1..][i] == s[i + 1];
        }
      }
      Utf16LengthOfBmp(s[1..]);
    }
  }

  /** JavaScript's `s.includes(p)`: `p` occurs in `s` as a contiguous,
      case-sensitive substring (the empty pattern occurs everywhere). */
  function Includes(s: string, p: string): bool
    decreases |s|
  {
    if |s| < |p| then false
    else p <= s || (|s| > 0 && Includes(s[1..], p))
  }

  /** Reference reading of a substring occurrence: `p` starts at index `i` of `s`. */
  ghost predicate OccursAt(s: string, p: string, i: int)
  {
    0 <= i && i + |p| <= |s| && s[i..i + |p|] == p
  }

  /** `Includes` holds exactly when `p` occurs at some index of `s`. */
  lemma {:induction false} IncludesIffOccurs(s: string, p: string)
    ensures Includes(s, p) <==> exists i :: OccursAt(s, p, i)
    decreases |s|
  {
    if |s| < |p| {
      assert forall i :: !OccursAt(s, p, i);
    } else if p <= s {
      assert s[0..|p|] == p;
      assert OccursAt(s, p, 0);
    } else {
      assert |s| > 0;
      assert !OccursAt(s, p, 0);
      IncludesIffOccurs(s[1..], p);
      forall j | OccursAt(s[1..], p, j) ensures OccursAt(s, p, j + 1) {
        assert s[j + 1..j + 1 + |p|] == s[1..][j..j + |p|];
      }
      forall i | OccursAt(s, p, i) ensures OccursAt(s[1..], p, i - 1) {
        assert s[1..][i - 1..i - 1 + |p|] == s[i..i + |p|];
      }
    }
  }

  /** Text appended after an occurrence does not remove it. */
  lemma {:induction false} IncludesExtend(a: string, b: string, p: string)
    requires Includes(a, p)
    ensures Includes(a + b, p)
    decreases |a|
  {
    if !(p <= a) {
      assert (a + b)[1..] == a[1..] + b;
      IncludesExtend(a[1..], b, p);
    }
  }
}
