/**
  Java's view of text. A `java.lang.String` is a sequence of UTF-16 code
  units (Java `char`s); `length()`, `substring` and `indexOf` all count code
  units, so a character outside the Basic Multilingual Plane occupies two.
*/
module JavaText {

  /** A Java `char`: one UTF-16 code unit. */
  type CodeUnit = x: int | 0 <= x < 0x1_0000

  /** A Java `byte`, read as the unsigned value of its eight bits. */
  type Byte = x: int | 0 <= x < 0x100

  /** A non-null `java.lang.String`. */
  type JString = seq<CodeUnit>

  /** Every character of the literal lies in the Basic Multilingual Plane, so each is a single code unit. */
  predicate InBmp(s: string)
  {
    forall i :: 0 <= i < |s| ==> s[i] < '\U{10000}'
  }

  /** The Java string a source literal denotes; every literal of the client is ASCII. */
  function Literal(s: string): (r: JString)
    requires InBmp(s)
    ensures |r| == |s|
    ensures forall i :: 0 <= i < |s| ==> r[i] == s[i] as int
  {
    seq(|s|, i requires 0 <= i < |s| => s[i] as int)
  }

  /** The one-unit string "/". */
  const Slash: JString := Literal("/")

  /** `s` holds `t` starting at code-unit index `i`. */
  predicate OccursAt(s: JString, t: JString, i: int)
  {
    0 <= i && i + |t| <= |s| && s[i..i + |t|] == t
  }

  /** `s.indexOf(t, from)` for `0 <= from <= s.length()`: the first index at or after `from` where `t` occurs, or -1. */
  function IndexOfFrom(s: JString, t: JString, from: nat): (r: int)
    requires from <= |s|
    ensures r == -1 || (from <= r && OccursAt(s, t, r))
    ensures r == -1 ==> forall i :: from <= i ==> !OccursAt(s, t, i)
    ensures r != -1 ==> forall i :: from <= i < r ==> !OccursAt(s, t, i)
    decreases |s| - from
  {
    if OccursAt(s, t, from) then from
    else if from + |t| >= |s| then -1
    else IndexOfFrom(s, t, from + 1)
  }

  /** `s.indexOf(t)`: the first index where `t` occurs in `s`, or -1 when it occurs nowhere. */
  function IndexOf(s: JString, t: JString): (r: int)
    ensures r == -1 <==> forall i :: !OccursAt(s, t, i)
    ensures r != -1 ==> OccursAt(s, t, r) && forall i :: 0 <= i < r ==> !OccursAt(s, t, i)
  {
    IndexOfFrom(s, t, 0)
  }

  /** `s.contains(t)`, which Java defines as `indexOf(t) > -1`. */
  function Contains(s: JString, t: JString): (b: bool)
    ensures b <==> exists i :: OccursAt(s, t, i)
  {
    IndexOf(s, t) > -1
  }
}
