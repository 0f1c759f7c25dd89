/** Comparing strings and searching in them. */
module CameraText {

  /** strcmp order. */
  predicate Less(a: string, b: string) {
    if b == [] then false
    else if a == [] then true
    else a[0] < b[0] || (a[0] == b[0] && Less(a[1..], b[1..]))
  }

  lemma {:induction false} LessIrreflexive(a: string)
    ensures !Less(a, a)
  {
    if a != [] { LessIrreflexive(a[1..]); }
  }

  lemma {:induction false} LessTotal(a: string, b: string)
    ensures a == b || Less(a, b) || Less(b, a)
  {
    if a != [] && b != [] && a[0] == b[0] {
      LessTotal(a[1..], b[1..]);
      if a[1..] == b[1..] { assert a == [a[0]] + a[1..] && b == [b[0]] + b[1..]; }
    }
  }

  lemma {:induction false} LessTransitive(a: string, b: string, c: string)
    requires Less(a, b) && Less(b, c)
    ensures Less(a, c)
  {
    if a != [] && a[0] == b[0] == c[0] { LessTransitive(a[1..], b[1..], c[1..]); }
  }

  lemma LessNotBack(a: string, b: string)
    requires Less(a, b)
    ensures a != b && !Less(b, a)
  {
    LessIrreflexive(a);
    if Less(b, a) { LessTransitive(a, b, a); }
  }

  /** strchr from position a on; the length if the character does not occur. */
  function Find(s: string, a: nat, c: char): (b: nat)
    requires a <= |s|
    ensures a <= b <= |s|
    decreases |s| - a
  {
    if a == |s| || s[a] == c then a else Find(s, a + 1, c)
  }

  /** It stops at the first occurrence. */
  lemma {:induction false} FindStops(s: string, a: nat, c: char)
    requires a <= |s|
    ensures var b := Find(s, a, c); (b < |s| ==> s[b] == c) && forall k :: a <= k < b ==> s[k] != c
    decreases |s| - a
  {
    if a < |s| && s[a] != c { FindStops(s, a + 1, c); }
  }

  lemma {:induction false} FindIs(s: string, a: nat, b: nat, c: char)
    requires a <= b <= |s| && (forall k :: a <= k < b ==> s[k] != c) && (b < |s| ==> s[b] == c)
    ensures Find(s, a, c) == b
    decreases b - a
  {
    if a < b { FindIs(s, a + 1, b, c); }
  }

  /** The text of a C string. */
  function CText(s: string): string {
    s[..Find(s, 0, '\0')]
  }

  lemma CTextHasNoNul(s: string)
    ensures '\0' !in CText(s)
  {
    FindStops(s, 0, '\0');
  }

  /** `t` stands in s from position a on. */
  ghost predicate Stands(s: string, a: nat, t: string) {
    a + |t| <= |s| && forall j :: 0 <= j < |t| ==> s[a + j] == t[j]
  }

  lemma StandsInside(s: string, a: nat, t: string, u: string)
    requires Stands(s, a, t + u)
    ensures Stands(s, a, t) && Stands(s, a + |t|, u)
  {
    forall j | 0 <= j < |t| ensures s[a + j] == t[j] { assert s[a + j] == (t + u)[j]; }
    forall j | 0 <= j < |u| ensures s[a + |t| + j] == u[j] { assert s[a + (|t| + j)] == (t + u)[|t| + j]; }
  }

  lemma StandsSlice(s: string, a: nat, t: string)
    requires Stands(s, a, t)
    ensures s[a..a + |t|] == t
  {
  }
}
