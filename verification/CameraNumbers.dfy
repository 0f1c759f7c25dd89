/** Integers and sizes as text: what sprintf prints and what strtol and the size parsers read. The end of a
    string stands for its terminator. */
module CameraNumbers {
  import opened Basics
  import opened CameraText

  const INT_MIN := -0x8000_0000
  const INT_MAX := 0x7FFF_FFFF
  const LONG_MIN := -0x8000_0000_0000_0000
  const LONG_MAX := 0x7FFF_FFFF_FFFF_FFFF

  predicate IsInt(n: int) {
    INT_MIN <= n <= INT_MAX
  }

  function Digit(n: nat): char
    requires n < 10
  {
    ('0' as int + n) as char
  }

  function Dec(n: nat): string {
    if n < 10 then [Digit(n)] else Dec(n / 10) + [Digit(n % 10)]
  }

  /** sprintf of %d. */
  function Printed(n: int): string {
    if n < 0 then "-" + Dec(0 - n) else Dec(n)
  }

  predicate IsSpace(c: char) {
    c == ' ' || '\t' <= c <= '\r'
  }

  /** A character's value as a digit in any base. */
  function DigitOf(c: char): (n: nat) {
    if '0' <= c <= '9' then c as int - '0' as int
    else if 'a' <= c <= 'z' then c as int - 'a' as int + 10
    else if 'A' <= c <= 'Z' then c as int - 'A' as int + 10
    else 36
  }

  function SkipSpaces(s: string, a: nat): (p: nat)
    requires a <= |s|
    ensures a <= p <= |s|
    decreases |s| - a
  {
    if a < |s| && IsSpace(s[a]) then SkipSpaces(s, a + 1) else a
  }

  function DigitsEnd(s: string, a: nat, base: nat): (d: nat)
    requires a <= |s|
    ensures a <= d <= |s|
    decreases |s| - a
  {
    if a < |s| && DigitOf(s[a]) < base then DigitsEnd(s, a + 1, base) else a
  }

  function Magnitude(s: string, a: nat, d: nat, base: nat): nat
    requires a <= d <= |s|
    decreases d
  {
    if a == d then 0 else Magnitude(s, a, d - 1, base) * base + DigitOf(s[d - 1])
  }

  /** The base, and where its digits start: a base of 0 goes by the prefix. */
  function BaseAt(s: string, q: nat, base: nat): (r: (nat, nat))
    requires q <= |s|
    ensures q <= r.1 <= |s|
  {
    if base != 0 then (base, q)
    else if q + 2 < |s| && s[q] == '0' && (s[q + 1] == 'x' || s[q + 1] == 'X') && DigitOf(s[q + 2]) < 16
    then (16, q + 2)
    else if q < |s| && s[q] == '0' then (8, q)
    else (10, q)
  }

  function Saturated(n: int): int {
    if n < LONG_MIN then LONG_MIN else if n > LONG_MAX then LONG_MAX else n
  }

  /** strtol: the value and where it ends; without digits nothing is consumed. */
  function StrTol(s: string, a: nat, base: nat): (r: (int, nat))
    requires a <= |s|
    ensures a <= r.1 <= |s|
  {
    var p := SkipSpaces(s, a);
    var signed := p < |s| && (s[p] == '-' || s[p] == '+');
    var (b, q) := BaseAt(s, if signed then p + 1 else p, base);
    var d := DigitsEnd(s, q, b);
    if d == q then (0, a)
    else (Saturated(if signed && s[p] == '-' then 0 - Magnitude(s, q, d, b) else Magnitude(s, q, d, b)), d)
  }

  /** The conversion from long to int. */
  function ToInt(n: int): int {
    var u := n % 0x1_0000_0000;
    if u > INT_MAX then u - 0x1_0000_0000 else u
  }

  /** parse_pair: two integers with the delimiter right after the first. */
  function ParsePair(s: string, a: nat, delim: char): (r: Option<(int, int, nat)>)
    requires a <= |s|
    ensures r.Some? ==> a < r.value.2 <= |s|
  {
    var (w, e) := StrTol(s, a, 10);
    if e == |s| || s[e] != delim then None
    else var (h, f) := StrTol(s, e + 1, 10); Some((ToInt(w), ToInt(h), f))
  }

  /** parseSizesList: what is pushed before the end or the first thing that is no size. */
  function ParseSizes(s: string, a: nat): seq<(int, int)>
    requires a <= |s|
    decreases |s| - a
  {
    match ParsePair(s, a, 'x')
    case None => []
    case Some((w, h, e)) =>
      if e == |s| then [(w, h)]
      else if s[e] != ',' then []
      else [(w, h)] + ParseSizes(s, e + 1)
  }

  function PairText(w: int, h: int, delim: char): string {
    Printed(w) + [delim] + Printed(h)
  }

  function Joined(texts: seq<string>, i: nat): string
    requires i <= |texts|
    decreases |texts| - i
  {
    if i == |texts| then ""
    else if i == |texts| - 1 then texts[i]
    else texts[i] + ("," + Joined(texts, i + 1))
  }

  /** "WxH,WxH" */
  function SizesText(sizes: seq<(int, int)>): string {
    Joined(seq(|sizes|, k requires 0 <= k < |sizes| => PairText(sizes[k].0, sizes[k].1, 'x')), 0)
  }

  /** Position d ends a decimal number. */
  predicate Ends(s: string, d: nat) {
    d >= |s| || DigitOf(s[d]) >= 10
  }

  lemma DigitValue(n: nat)
    requires n < 10
    ensures DigitOf(Digit(n)) == n && !IsSpace(Digit(n)) && Digit(n) != '-' && Digit(n) != '+'
            && (Digit(n) == '0' <==> n == 0)
  {
  }

  lemma {:induction false} DecIsDigits(n: nat)
    ensures |Dec(n)| > 0 && forall k :: 0 <= k < |Dec(n)| ==> DigitOf(Dec(n)[k]) < 10
    ensures n > 0 ==> Dec(n)[0] != '0'
    ensures '0' <= Dec(n)[0] <= '9'
  {
    DigitValue(n % 10);
    if n >= 10 { DecIsDigits(n / 10); }
  }

  lemma {:induction false} MagnitudeOfDec(s: string, a: nat, d: nat, n: nat)
    requires Stands(s, a, Dec(n)) && d == a + |Dec(n)|
    ensures Magnitude(s, a, d, 10) == n
    decreases n
  {
    DigitValue(n % 10);
    DecIsDigits(n);
    var last := Dec(n)[|Dec(n)| - 1];
    assert s[a + (|Dec(n)| - 1)] == last == Digit(n % 10);
    if n < 10 {
      assert Magnitude(s, a, d - 1, 10) == 0;
    } else {
      StandsInside(s, a, Dec(n / 10), [Digit(n % 10)]);
      MagnitudeOfDec(s, a, d - 1, n / 10);
    }
  }

  lemma {:induction false} DigitsEndIs(s: string, a: nat, d: nat)
    requires a <= d <= |s| && Ends(s, d) && forall k :: a <= k < d ==> DigitOf(s[k]) < 10
    ensures DigitsEnd(s, a, 10) == d
    decreases d - a
  {
    if a < d { DigitsEndIs(s, a + 1, d); }
  }

  lemma DecReads(s: string, q: nat, n: nat, d: nat)
    requires Stands(s, q, Dec(n)) && d == q + |Dec(n)| && Ends(s, d)
    ensures q < d && DigitsEnd(s, q, 10) == d && Magnitude(s, q, d, 10) == n
    ensures '0' <= s[q] <= '9' && (n > 0 ==> s[q] != '0')
  {
    DecIsDigits(n);
    assert s[q + 0] == Dec(n)[0];
    forall k | q <= k < d ensures DigitOf(s[k]) < 10 { assert s[q + (k - q)] == Dec(n)[k - q]; }
    DigitsEndIs(s, q, d);
    MagnitudeOfDec(s, q, d, n);
  }

  /** strtol, in base 10, reads back what was printed. */
  lemma PrintedReads(s: string, a: nat, n: int, d: nat)
    requires Stands(s, a, Printed(n)) && d == a + |Printed(n)| && Ends(s, d) && IsInt(n)
    ensures a < d && StrTol(s, a, 10) == (n, d)
  {
    if n < 0 {
      StandsInside(s, a, "-", Dec(0 - n));
      assert s[a + 0] == "-"[0];
      DecReads(s, a + 1, 0 - n, d);
    } else {
      DecReads(s, a, n, d);
    }
  }

  lemma DigitsEndOfZero(s: string, q: nat)
    requires q + 1 == |s| && s[q] == '0'
    ensures DigitsEnd(s, q, 8) == q + 1 && Magnitude(s, q, q + 1, 8) == 0
  {
  }

  /** So does strtol in base 0 on the whole of it: no number but 0 is printed with a leading zero. */
  lemma IntReads(n: int)
    requires IsInt(n)
    ensures StrTol(Printed(n), 0, 0) == (n, |Printed(n)|)
  {
    var s := Printed(n);
    if n == 0 {
      assert s == "0";
      DigitsEndOfZero(s, 0);
    } else if n < 0 {
      StandsInside(s, 0, "-", Dec(0 - n));
      assert s[0 + 0] == "-"[0];
      DecReads(s, 1, 0 - n, |s|);
      SignedReads(s, n, 1);
    } else {
      DecReads(s, 0, n, |s|);
      SignedReads(s, n, 0);
    }
  }

  lemma SignedReads(s: string, n: int, q: nat)
    requires IsInt(n) && q < |s| && '1' <= s[q] <= '9' && DigitsEnd(s, q, 10) == |s|
    requires Magnitude(s, q, |s|, 10) == if n < 0 then 0 - n else n
    requires q == (if n < 0 then 1 else 0) && (n < 0 ==> s[0] == '-')
    ensures StrTol(s, 0, 0) == (n, |s|)
  {
    assert BaseAt(s, q, 0) == (10, q);
  }

  lemma PairParts(s: string, a: nat, w: int, h: int, delim: char)
    requires Stands(s, a, PairText(w, h, delim))
    ensures Stands(s, a, Printed(w)) && Stands(s, a + |Printed(w)| + 1, Printed(h))
    ensures s[a + |Printed(w)|] == delim
  {
    TextParts(s, a, Printed(w), delim, Printed(h));
  }

  lemma TextParts(s: string, a: nat, t: string, delim: char, u: string)
    requires Stands(s, a, t + [delim] + u)
    ensures Stands(s, a, t) && Stands(s, a + |t| + 1, u) && s[a + |t|] == delim
  {
    StandsInside(s, a, t + [delim], u);
    StandsInside(s, a, t, [delim]);
    assert s[a + |t| + 0] == [delim][0];
  }

  /** A pair of 32-bit integers is read back from its text. */
  lemma PairReads(s: string, a: nat, w: int, h: int, delim: char, e: nat)
    requires Stands(s, a, PairText(w, h, delim)) && e == a + |PairText(w, h, delim)| && Ends(s, e)
    requires IsInt(w) && IsInt(h) && DigitOf(delim) >= 10
    ensures ParsePair(s, a, delim) == Some((w, h, e))
  {
    PairParts(s, a, w, h, delim);
    var c := a + |Printed(w)|;
    PrintedReads(s, a, w, c);
    PrintedReads(s, c + 1, h, e);
    PairFrom(s, a, delim, StrTol(s, a, 10), StrTol(s, c + 1, 10));
  }

  lemma PairFrom(s: string, a: nat, delim: char, first: (int, nat), second: (int, nat))
    requires a <= |s| && first == StrTol(s, a, 10) && first.1 < |s| && s[first.1] == delim
    requires second == StrTol(s, first.1 + 1, 10) && IsInt(first.0) && IsInt(second.0)
    ensures ParsePair(s, a, delim) == Some((first.0, second.0, second.1))
  {
  }

  /** Wherever the text stands before something that ends a number, it is read as the size. */
  ghost predicate ReadsAs(t: string, p: (int, int)) {
    forall s, a: nat :: Stands(s, a, t) && Ends(s, a + |t|) ==> ParsePair(s, a, 'x') == Some((p.0, p.1, a + |t|))
  }

  lemma SizeReadsAs(p: (int, int))
    requires IsInt(p.0) && IsInt(p.1)
    ensures ReadsAs(PairText(p.0, p.1, 'x'), p)
  {
    var t := PairText(p.0, p.1, 'x');
    forall s, a: nat | Stands(s, a, t) && Ends(s, a + |t|) ensures ParsePair(s, a, 'x') == Some((p.0, p.1, a + |t|)) {
      PairReads(s, a, p.0, p.1, 'x', a + |t|);
    }
  }

  /** The text of the list, as far as it matters to its reader. */
  ghost predicate Listed(sizes: seq<(int, int)>, i: nat, s: string, a: nat)
    decreases |sizes| - i
  {
    && i < |sizes| && a <= |s|
    && var p := ParsePair(s, a, 'x');
    && p.Some? && (p.value.0, p.value.1) == sizes[i]
    && if i == |sizes| - 1 then p.value.2 == |s|
       else p.value.2 < |s| && s[p.value.2] == ',' && Listed(sizes, i + 1, s, p.value.2 + 1)
  }

  lemma ListedFrom(sizes: seq<(int, int)>, i: nat, s: string, a: nat, e: nat, t: string)
    requires i < |sizes| && ReadsAs(t, sizes[i]) && Stands(s, a, t) && e == a + |t|
    requires if i == |sizes| - 1 then e == |s| else e < |s| && s[e] == ',' && Listed(sizes, i + 1, s, e + 1)
    ensures Listed(sizes, i, s, a)
  {
    assert Ends(s, a + |t|);
    ListedAs(sizes, i, s, a, ParsePair(s, a, 'x'), e);
  }

  lemma ListedAs(sizes: seq<(int, int)>, i: nat, s: string, a: nat, p: Option<(int, int, nat)>, e: nat)
    requires i < |sizes| && a <= |s| && p == ParsePair(s, a, 'x') && p == Some((sizes[i].0, sizes[i].1, e))
    requires if i == |sizes| - 1 then e == |s| else e < |s| && s[e] == ',' && Listed(sizes, i + 1, s, e + 1)
    ensures Listed(sizes, i, s, a)
  {
  }

  lemma {:induction false} TextIsListed(sizes: seq<(int, int)>, texts: seq<string>, i: nat, s: string, a: nat)
    requires i < |sizes| == |texts| && Stands(s, a, Joined(texts, i)) && a + |Joined(texts, i)| == |s|
    requires forall k :: 0 <= k < |sizes| ==> ReadsAs(texts[k], sizes[k])
    ensures Listed(sizes, i, s, a)
    decreases |sizes| - i
  {
    var e := a + |texts[i]|;
    if i < |sizes| - 1 {
      JoinedParts(texts, i, s, a, e, Joined(texts, i + 1));
      TextIsListed(sizes, texts, i + 1, s, e + 1);
    }
    ListedFrom(sizes, i, s, a, e, texts[i]);
  }

  lemma JoinedParts(texts: seq<string>, i: nat, s: string, a: nat, e: nat, rest: string)
    requires i < |texts| - 1 && rest == Joined(texts, i + 1) && Stands(s, a, Joined(texts, i)) && e == a + |texts[i]|
    ensures Stands(s, a, texts[i]) && e < |s| && s[e] == ',' && Stands(s, e + 1, rest)
    ensures |Joined(texts, i)| == |texts[i]| + 1 + |rest|
  {
    StandsInside(s, a, texts[i], "," + rest);
    StandsInside(s, e, ",", rest);
    assert s[e + 0] == ","[0];
  }

  lemma {:induction false} ListedReads(sizes: seq<(int, int)>, i: nat, s: string, a: nat)
    requires Listed(sizes, i, s, a)
    ensures ParseSizes(s, a) == sizes[i..]
    decreases |sizes| - i
  {
    if i < |sizes| - 1 { ListedReads(sizes, i + 1, s, ParsePair(s, a, 'x').value.2 + 1); }
    assert sizes[i..] == [sizes[i]] + sizes[i + 1..];
  }

  /** A list of sizes is read back from its text, whatever its length. */
  lemma SizeListRoundTrip(sizes: seq<(int, int)>)
    requires forall k :: 0 <= k < |sizes| ==> IsInt(sizes[k].0) && IsInt(sizes[k].1)
    ensures ParseSizes(SizesText(sizes), 0) == sizes
  {
    if sizes != [] {
      var texts := seq(|sizes|, k requires 0 <= k < |sizes| => PairText(sizes[k].0, sizes[k].1, 'x'));
      forall k | 0 <= k < |sizes| ensures ReadsAs(texts[k], sizes[k]) { SizeReadsAs(sizes[k]); }
      TextIsListed(sizes, texts, 0, Joined(texts, 0), 0);
      ListedReads(sizes, 0, Joined(texts, 0), 0);
    }
  }
}
