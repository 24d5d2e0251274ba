/**
 * Null-terminated byte strings and the byte-wise ordering `strcmp` puts on them.
 * A C string is modelled by the bytes before its terminator, so none of them is 0.
 */
module CStrings {
  /** One `char` of a buffer, read as `unsigned char` the way `strcmp` compares it. */
  type Byte = b: int | 0 <= b < 256

  /** A byte that can occur inside a C string (anything but the terminator). */
  type NonNul = b: int | 1 <= b < 256 witness 1

  /** The contents of a C string, without its terminator. */
  type CStr = seq<NonNul>

  /**
   * The sign of `strcmp(a, b)`: the first differing byte decides, and a string that
   * ends first (its terminator, 0, is below every byte) is the smaller one.
   * C promises only the sign, so the model returns -1, 0 or 1.
   */
  function Strcmp(a: CStr, b: CStr): int
  {
    if a == [] && b == [] then 0
    else if a == [] then -1
    else if b == [] then 1
    else if a[0] < b[0] then -1
    else if a[0] > b[0] then 1
    else Strcmp(a[1..], b[1..])
  }

  /** The comparator `strcmp(a, b) < 0` used by the registry. */
  predicate Less(a: CStr, b: CStr)
  {
    Strcmp(a, b) < 0
  }

  /** `strcmp` reports equality exactly for equal strings. */
  lemma {:induction false} StrcmpZeroIffEqual(a: CStr, b: CStr)
    ensures Strcmp(a, b) == 0 <==> a == b
  {
    if a != [] && b != [] && a[0] == b[0] {
      StrcmpZeroIffEqual(a[1..], b[1..]);
      assert a == [a[0]] + a[1..] && b == [b[0]] + b[1..];
    }
  }

  /** Swapping the arguments of `strcmp` flips its sign. */
  lemma {:induction false} StrcmpAntisymmetric(a: CStr, b: CStr)
    ensures Strcmp(b, a) == -Strcmp(a, b)
  {
    if a != [] && b != [] && a[0] == b[0] {
      StrcmpAntisymmetric(a[1..], b[1..]);
    }
  }

  /** The `strcmp` order is transitive. */
  lemma {:induction false} LessTransitive(a: CStr, b: CStr, c: CStr)
    requires Less(a, b) && Less(b, c)
    ensures Less(a, c)
  {
    if a != [] && a[0] == b[0] && b[0] == c[0] {
      LessTransitive(a[1..], b[1..], c[1..]);
    }
  }

  /** Two strings are ordered one way or the other, or are equal. */
  lemma Trichotomy(a: CStr, b: CStr)
    ensures Less(a, b) || Less(b, a) || a == b
  {
    StrcmpZeroIffEqual(a, b);
    StrcmpAntisymmetric(a, b);
  }

  /** "Not less than" is transitive too: a <= b <= c gives a <= c (written with `!Less`). */
  lemma NotLessTransitive(a: CStr, b: CStr, c: CStr)
    requires !Less(b, a) && !Less(c, b)
    ensures !Less(c, a)
  {
    Trichotomy(a, b);
    Trichotomy(b, c);
    if a != b && b != c {
      LessTransitive(a, b, c);
      StrcmpAntisymmetric(a, c);
    }
  }

  /** Bytes before the first terminator of a buffer: what a `char*` into it denotes. */
  function CPrefix(s: seq<Byte>): (r: CStr)
    ensures |r| <= |s|
    ensures forall i :: 0 <= i < |r| ==> s[i] == r[i]
    ensures |r| < |s| ==> s[|r|] == 0
  {
    if s == [] || s[0] == 0 then [] else [s[0] as NonNul] + CPrefix(s[1..])
  }

  /** A buffer holding `t` followed by a terminator denotes exactly `t`. */
  lemma {:induction false} CPrefixOfTerminated(s: seq<Byte>, t: CStr)
    requires |t| < |s| && s[|t|] == 0
    requires forall i :: 0 <= i < |t| ==> s[i] == t[i]
    ensures CPrefix(s) == t
  {
    if t != [] {
      CPrefixOfTerminated(s[1..], t[1..]);
      assert t == [t[0]] + t[1..];
    }
  }
}
