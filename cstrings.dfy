/**
  C strings and the comparators the term file uses on them.

  A C string is the text before its terminating NUL, so a `CStr` is a
  `string` without `'\0'`. `Strcmp` and `Strncmp` follow the C library's
  definition: compare unsigned characters position by position, the end of
  the string reading as `0`, and stop at the first difference or at a NUL.
  The C standard fixes only the sign of their result; the model returns the
  difference of the first differing characters, and every property below is
  about the sign.
 */
module CStrings {

  type CStr = s: string | '\0' !in s

  /** The character code at position `i`, reading `0` past the end. */
  function Code(s: string, i: nat): int {
    if i < |s| then s[i] as int else 0
  }

  function Strcmp(a: string, b: string): int
    decreases |a|
  {
    var x, y := Code(a, 0), Code(b, 0);
    if x != y || x == 0 then x - y else Strcmp(a[1..], b[1..])
  }

  /** `strncmp`: at most `n` characters are compared. */
  function Strncmp(a: string, b: string, n: nat): int
    decreases n
  {
    var x, y := Code(a, 0), Code(b, 0);
    if n == 0 then 0
    else if x != y || x == 0 then x - y
    else Strncmp(a[1..], b[1..], n - 1)
  }

  /** Lexicographic order on character sequences, a proper prefix first:
      the order of `strcmp` stated independently of it. */
  predicate LexLess(a: string, b: string)
    decreases |a|
  {
    |b| > 0 && (|a| == 0 || a[0] < b[0] || (a[0] == b[0] && LexLess(a[1..], b[1..])))
  }

  function Sign(x: int): int {
    if x == 0 then 0 else if x < 0 then -1 else 1
  }

  /** `tfileStrCompare` (index_tfile.c): `strcmp` squeezed to -1, 0 or 1. */
  function StrCompare(a: string, b: string): int {
    var ret := Strcmp(a, b);
    if ret == 0 then ret else if ret < 0 then -1 else 1
  }

  /** `tfileCompare` (index_tfile.c): `strncmp` over the longer of the two
      lengths, squeezed to -1, 0 or 1. */
  function FileCompare(a: string, b: string): int {
    var ret := Strncmp(a, b, if |a| > |b| then |a| else |b|);
    if ret == 0 then ret else if ret < 0 then -1 else 1
  }

  // ---------------------------------------------------------------- strcmp

  lemma {:induction false} StrcmpFlip(a: string, b: string)
    ensures Strcmp(a, b) == -Strcmp(b, a)
  {
    var x, y := Code(a, 0), Code(b, 0);
    if !(x != y || x == 0) {
      StrcmpFlip(a[1..], b[1..]);
    }
  }

  /** On C strings `strcmp` is negative exactly for the lexicographically
      smaller string and zero exactly for equal strings. */
  lemma {:induction false} StrcmpIsLex(a: CStr, b: CStr)
    ensures Strcmp(a, b) < 0 <==> LexLess(a, b)
    ensures Strcmp(a, b) == 0 <==> a == b
    decreases |a|
  {
    if |a| > 0 && |b| > 0 && a[0] == b[0] {
      var a', b' := a[1..], b[1..];
      assert '\0' !in a' && '\0' !in b' by {
        forall i | 0 <= i < |a'| ensures a'[i] != '\0' { assert a'[i] == a[i + 1]; }
        forall i | 0 <= i < |b'| ensures b'[i] != '\0' { assert b'[i] == b[i + 1]; }
      }
      assert a[0] != '\0';
      StrcmpIsLex(a', b');
      assert a == [a[0]] + a' && b == [b[0]] + b';
    } else if |a| > 0 && |b| > 0 {
      assert a[0] != '\0';
    } else if |a| > 0 {
      assert a[0] != '\0';
    } else if |b| > 0 {
      assert b[0] != '\0';
    }
  }

  // ------------------------------------------------------------ lex order

  lemma {:induction false} LexLessIrreflexive(a: string)
    ensures !LexLess(a, a)
  {
    if |a| > 0 {
      LexLessIrreflexive(a[1..]);
    }
  }

  lemma {:induction false} LexLessTransitive(a: string, b: string, c: string)
    requires LexLess(a, b) && LexLess(b, c)
    ensures LexLess(a, c)
    decreases |a|
  {
    if |a| > 0 && a[0] == b[0] && b[0] == c[0] {
      LexLessTransitive(a[1..], b[1..], c[1..]);
    }
  }

  lemma {:induction false} LexLessTotal(a: string, b: string)
    ensures a == b || LexLess(a, b) || LexLess(b, a)
    decreases |a|
  {
    if |a| > 0 && |b| > 0 && a[0] == b[0] {
      LexLessTotal(a[1..], b[1..]);
      assert a == [a[0]] + a[1..] && b == [b[0]] + b[1..];
    }
  }

  // ------------------------------------------------------- tfileStrCompare

  /** `tfileStrCompare` answers only -1, 0 or 1, and on C strings it is the
      three-way lexicographic comparison. */
  lemma StrCompareIsLex(a: CStr, b: CStr)
    ensures StrCompare(a, b) in {-1, 0, 1}
    ensures StrCompare(a, b) == Sign(Strcmp(a, b))
    ensures StrCompare(a, b) == -1 <==> LexLess(a, b)
    ensures StrCompare(a, b) == 0 <==> a == b
    ensures StrCompare(a, b) == 1 <==> LexLess(b, a)
  {
    StrcmpIsLex(a, b);
    StrcmpIsLex(b, a);
    StrcmpFlip(a, b);
  }

  lemma StrCompareFlip(a: string, b: string)
    ensures StrCompare(a, b) == -StrCompare(b, a)
  {
    StrcmpFlip(a, b);
  }

  /** "Not after" under `tfileStrCompare` is transitive on C strings, so it
      is a total preorder a sort can use. */
  lemma StrCompareTransitive(a: CStr, b: CStr, c: CStr)
    requires StrCompare(a, b) <= 0 && StrCompare(b, c) <= 0
    ensures StrCompare(a, c) <= 0
  {
    StrCompareIsLex(a, b);
    StrCompareIsLex(b, c);
    StrCompareIsLex(a, c);
    if a != b && b != c {
      LexLessTransitive(a, b, c);
    }
  }

  // ----------------------------------------------------------- tfileCompare

  /** `strncmp` over at least as many characters as the longer string holds
      agrees with `strcmp`. */
  lemma {:induction false} StrncmpLongEnough(a: string, b: string, n: nat)
    requires n >= |a| && n >= |b|
    ensures Strncmp(a, b, n) == Strcmp(a, b)
    decreases n
  {
    var x, y := Code(a, 0), Code(b, 0);
    if n > 0 && !(x != y || x == 0) {
      StrncmpLongEnough(a[1..], b[1..], n - 1);
    }
  }

  /** `tfileCompare` orders file names exactly as `tfileStrCompare` does, so
      it answers -1, 0 or 1 with the sign of `strcmp`. */
  lemma FileCompareIsStrCompare(a: string, b: string)
    ensures FileCompare(a, b) == StrCompare(a, b)
    ensures FileCompare(a, b) == Sign(Strcmp(a, b))
  {
    StrncmpLongEnough(a, b, if |a| > |b| then |a| else |b|);
  }
}
