module Wrappers {
  datatype Option<+T> = None | Some(value: T)
}

/** The C string functions the sources rely on, over sequences of characters
    (the terminating zero is not part of the sequence). */
module Strings {

  function Lower(c: char): char {
    if 'A' <= c <= 'Z' then (c as int + 32) as char else c
  }

  function Fold(s: string): string {
    seq(|s|, i requires 0 <= i < |s| => Lower(s[i]))
  }

  /** strcasecmp(a, b) == 0 */
  predicate EqNoCase(a: string, b: string) {
    Fold(a) == Fold(b)
  }

  /** Two texts are the same but for the case of letters. */
  lemma EqNoCaseExact(a: string, b: string)
    ensures EqNoCase(a, b) <==>
              |a| == |b| && forall i | 0 <= i < |a| ::
                || a[i] == b[i]
                || ('A' <= a[i] <= 'Z' && b[i] as int == a[i] as int + 32)
                || ('A' <= b[i] <= 'Z' && a[i] as int == b[i] as int + 32)
  {
    if EqNoCase(a, b) {
      assert |Fold(a)| == |a| && |Fold(b)| == |b|;
      forall i | 0 <= i < |a| ensures Lower(a[i]) == Lower(b[i]) {
        assert Fold(a)[i] == Fold(b)[i];
      }
    }
  }

  /** strcmp(a, b) < 0 */
  predicate StrLess(a: string, b: string) {
    if b == "" then false
    else if a == "" then true
    else a[0] < b[0] || (a[0] == b[0] && StrLess(a[1..], b[1..]))
  }

  lemma {:induction false} StrLessTransitive(a: string, b: string, c: string)
    requires StrLess(a, b) && StrLess(b, c)
    ensures StrLess(a, c)
  {
    if a != "" && a[0] == b[0] && b[0] == c[0] {
      StrLessTransitive(a[1..], b[1..], c[1..]);
    }
  }

  lemma {:induction false} StrLessTotal(a: string, b: string)
    ensures a == b || StrLess(a, b) || StrLess(b, a)
    ensures !(StrLess(a, b) && StrLess(b, a))
    ensures !StrLess(a, a)
    decreases |a|
  {
    if a == "" {
    } else {
      StrLessTotal(a[1..], a[1..]);
      if b != "" {
        StrLessTotal(a[1..], b[1..]);
        if a[0] == b[0] && a[1..] == b[1..] {
          assert a == [a[0]] + a[1..] && b == [b[0]] + b[1..];
        }
      }
    }
  }

  /** Texts are compared at the first place where they differ, the end of a text coming before any character. */
  lemma {:induction false} StrLessExact(a: string, b: string)
    ensures StrLess(a, b) <==> a < b || exists k | 0 <= k < |a| && k < |b| :: a[..k] == b[..k] && a[k] < b[k]
  {
    if a == "" || b == "" {
    } else {
      StrLessExact(a[1..], b[1..]);
      if a[0] == b[0] {
        assert a[1..] < b[1..] <==> a < b by {
          assert a == [a[0]] + a[1..] && b == [b[0]] + b[1..];
        }
        forall k | 0 <= k < |a| - 1 && k < |b| - 1
          ensures (a[1..][..k] == b[1..][..k] && a[1..][k] < b[1..][k]) <==>
                    (a[..k + 1] == b[..k + 1] && a[k + 1] < b[k + 1])
        {
          assert a[..k + 1] == [a[0]] + a[1..][..k] && b[..k + 1] == [b[0]] + b[1..][..k];
        }
      }
    }
  }

  /** A proper prefix sorts before what it is a prefix of. */
  lemma {:induction false} PrefixLess(a: string, b: string)
    requires a < b
    ensures StrLess(a, b)
  {
    if a == "" {
    } else {
      assert a[1..] < b[1..];
      PrefixLess(a[1..], b[1..]);
    }
  }

  /** The C string in a buffer: what precedes the first zero. */
  function CStr(s: string): (r: string)
    ensures r <= s && '\0' !in r
    ensures |r| < |s| ==> s[|r|] == '\0'
  {
    if s == "" || s[0] == '\0' then "" else [s[0]] + CStr(s[1..])
  }

  lemma {:induction false} CStrIs(s: string, n: nat)
    requires n <= |s| && '\0' !in s[..n] && (n < |s| ==> s[n] == '\0')
    ensures CStr(s) == s[..n]
  {
    if n == 0 {
    } else {
      assert s[..n][0] == s[0] && s[1..][..n - 1] == s[..n][1..];
      CStrIs(s[1..], n - 1);
    }
  }
}
