/**
 * The JavaScript string operations the application relies on, over Dafny strings
 * (sequences of Unicode scalar values): `trim`, `toLowerCase` (ASCII fold),
 * `includes`, `startsWith`, `split(" ")`, `join(" ")` and decimal rendering of
 * counts and indices.
 */
module Strings {

  /** The characters `String.prototype.trim` removes: ECMAScript WhiteSpace and LineTerminator. */
  predicate IsJsWhitespace(c: char) {
    var n := c as int;
    n == 0x09 || n == 0x0A || n == 0x0B || n == 0x0C || n == 0x0D || n == 0x20 ||
    n == 0xA0 || n == 0x1680 || (0x2000 <= n <= 0x200A) || n == 0x2028 || n == 0x2029 ||
    n == 0x202F || n == 0x205F || n == 0x3000 || n == 0xFEFF
  }

  predicate AllWhitespace(s: string) {
    forall c :: c in s ==> IsJsWhitespace(c)
  }

  // ---------------------------------------------------------------------------
  // trim
  // ---------------------------------------------------------------------------

  /** `trimStart`: the suffix left after dropping leading whitespace. */
  function TrimStart(s: string): (r: string)
    ensures |r| <= |s| && r == s[|s| - |r|..]
    ensures AllWhitespace(s[..|s| - |r|])
    ensures r == [] || !IsJsWhitespace(r[0])
    decreases |s|
  {
    if |s| > 0 && IsJsWhitespace(s[0]) then TrimStart(s[1..]) else s
  }

  /** `trimEnd`: the prefix left after dropping trailing whitespace. */
  function TrimEnd(s: string): (r: string)
    ensures |r| <= |s| && r == s[..|r|]
    ensures AllWhitespace(s[|r|..])
    ensures r == [] || (!IsJsWhitespace(r[|r| - 1]) && r[0] == s[0])
    decreases |s|
  {
    if |s| > 0 && IsJsWhitespace(s[|s| - 1]) then TrimEnd(s[..|s| - 1]) else s
  }

  /** `String.prototype.trim`. */
  function Trim(s: string): (r: string)
    ensures r == [] || (!IsJsWhitespace(r[0]) && !IsJsWhitespace(r[|r| - 1]))
  {
    TrimEnd(TrimStart(s))
  }

  /** The trimmed string is the slice `s[a..b]`, with only whitespace outside it. */
  lemma TrimBounds(s: string) returns (a: nat, b: nat)
    ensures a <= b <= |s|
    ensures Trim(s) == s[a..b]
    ensures AllWhitespace(s[..a]) && AllWhitespace(s[b..])
  {
    var u := TrimStart(s);
    var r := TrimEnd(u);
    a := |s| - |u|;
    b := a + |r|;
    assert r == u[..|r|] == s[a..][..|r|];
    assert s[a..][..|r|] == s[a..b];
    assert s[b..] == u[|r|..];
  }

  /** The trimmed value is empty exactly when the input is all whitespace. */
  lemma TrimEmptyIff(s: string)
    ensures Trim(s) == [] <==> AllWhitespace(s)
  {
    var a, b := TrimBounds(s);
    if Trim(s) != [] {
      assert s[a] == Trim(s)[0];
    } else {
      assert s == s[..a] + s[b..];
    }
  }

  lemma {:induction false} TrimStartPrependWhitespace(w: string, x: string)
    requires AllWhitespace(w)
    ensures TrimStart(w + x) == TrimStart(x)
    decreases |w|
  {
    if w != [] {
      assert (w + x)[0] == w[0];
      assert (w + x)[1..] == w[1..] + x;
      TrimStartPrependWhitespace(w[1..], x);
    } else {
      assert w + x == x;
    }
  }

  lemma {:induction false} TrimEndAppendWhitespace(x: string, w: string)
    requires AllWhitespace(w)
    ensures TrimEnd(x + w) == TrimEnd(x)
    decreases |w|
  {
    if w != [] {
      var w' := w[..|w| - 1];
      assert (x + w)[|x + w| - 1] == w[|w| - 1];
      assert (x + w)[..|x + w| - 1] == x + w';
      TrimEndAppendWhitespace(x, w');
    } else {
      assert x + w == x;
    }
  }

  lemma {:induction false} TrimStartThenEndAppend(x: string, w: string)
    requires AllWhitespace(w)
    ensures TrimEnd(TrimStart(x + w)) == TrimEnd(TrimStart(x))
    decreases |x|
  {
    if x == [] {
      assert x + w == w;
      TrimEmptyIff(w);
      TrimEndAppendWhitespace([], w);
      assert TrimStart(w) == [] + w[|w|..];
    } else if IsJsWhitespace(x[0]) {
      assert (x + w)[1..] == x[1..] + w;
      TrimStartThenEndAppend(x[1..], w);
    } else {
      TrimEndAppendWhitespace(x, w);
    }
  }

  /** Surrounding whitespace never changes the trimmed value. */
  lemma TrimIgnoresSurroundingWhitespace(w1: string, s: string, w2: string)
    requires AllWhitespace(w1) && AllWhitespace(w2)
    ensures Trim(w1 + s + w2) == Trim(s)
  {
    assert w1 + s + w2 == w1 + (s + w2);
    TrimStartPrependWhitespace(w1, s + w2);
    assert TrimStart(w1 + s + w2) == TrimStart(s + w2);
    TrimStartThenEndAppend(s, w2);
  }

  /** Trimming twice is trimming once. */
  lemma TrimIdempotent(s: string)
    ensures Trim(Trim(s)) == Trim(s)
  {
    var r := Trim(s);
    assert TrimStart(r) == r;
    assert TrimEnd(r) == r;
  }

  // ---------------------------------------------------------------------------
  // toLowerCase (ASCII fold)
  // ---------------------------------------------------------------------------

  function LowerChar(c: char): char {
    if 'A' <= c <= 'Z' then (c as int + 32) as char else c
  }

  /** `toLowerCase`, folding ASCII capitals only. */
  function Lower(s: string): (r: string)
    ensures |r| == |s|
  {
    seq(|s|, i requires 0 <= i < |s| => LowerChar(s[i]))
  }

  /** Lower-casing commutes with slicing. */
  lemma LowerSlice(s: string, i: int, j: int)
    requires 0 <= i <= j <= |s|
    ensures Lower(s)[i..j] == Lower(s[i..j])
  {
  }

  /** Lower-casing a lower-cased string changes nothing. */
  lemma LowerIdempotent(s: string)
    ensures Lower(Lower(s)) == Lower(s)
  {
    assert forall i :: 0 <= i < |s| ==> Lower(Lower(s))[i] == Lower(s)[i];
  }

  // ---------------------------------------------------------------------------
  // startsWith / includes
  // ---------------------------------------------------------------------------

  /** `s.startsWith(prefix)`. */
  predicate StartsWith(s: string, prefix: string) {
    |prefix| <= |s| && s[..|prefix|] == prefix
  }

  /** `needle` occurs in `hay` at position `i`. */
  ghost predicate OccursAt(hay: string, needle: string, i: int) {
    0 <= i && i + |needle| <= |hay| && hay[i..i + |needle|] == needle
  }

  /** `hay.includes(needle)`, scanning start positions left to right. */
  predicate Contains(hay: string, needle: string)
    decreases |hay|
  {
    StartsWith(hay, needle) || (|hay| > 0 && Contains(hay[1..], needle))
  }

  /** The scan finds exactly the strings that occur somewhere in `hay`. */
  lemma {:induction false} ContainsIffOccurs(hay: string, needle: string)
    ensures Contains(hay, needle) <==> exists i :: OccursAt(hay, needle, i)
    decreases |hay|
  {
    if StartsWith(hay, needle) {
      assert OccursAt(hay, needle, 0);
    }
    if |hay| > 0 {
      ContainsIffOccurs(hay[1..], needle);
      if exists i :: OccursAt(hay[1..], needle, i) {
        var i :| OccursAt(hay[1..], needle, i);
        assert hay[1..][i..i + |needle|] == hay[i + 1..i + 1 + |needle|];
        assert OccursAt(hay, needle, i + 1);
      }
      if exists i :: OccursAt(hay, needle, i) {
        var i :| OccursAt(hay, needle, i);
        if i > 0 {
          assert forall k :: i <= k < i + |needle| ==> hay[k] == hay[1..][k - 1];
          assert hay[1..][i - 1..i - 1 + |needle|] == hay[i..i + |needle|];
          assert OccursAt(hay[1..], needle, i - 1);
        } else {
          assert StartsWith(hay, needle);
        }
      }
    } else {
      if exists i :: OccursAt(hay, needle, i) {
        var i :| OccursAt(hay, needle, i);
        assert StartsWith(hay, needle);
      }
    }
  }

  /** A substring of a substring is a substring. */
  lemma ContainsTransitive(a: string, b: string, c: string)
    requires Contains(b, a) && Contains(c, b)
    ensures Contains(c, a)
  {
    ContainsIffOccurs(b, a);
    ContainsIffOccurs(c, b);
    ContainsIffOccurs(c, a);
    var j :| OccursAt(b, a, j);
    var i :| OccursAt(c, b, i);
    forall k | 0 <= k < |a| ensures c[i + j + k] == a[k] {
      assert a[k] == b[j + k];
      assert b[j + k] == c[i + j + k];
    }
    assert c[i + j..i + j + |a|] == a;
    assert OccursAt(c, a, i + j);
  }

  /** Lower-casing both sides keeps an occurrence. */
  lemma LowerPreservesContains(hay: string, needle: string)
    requires Contains(hay, needle)
    ensures Contains(Lower(hay), Lower(needle))
  {
    ContainsIffOccurs(hay, needle);
    ContainsIffOccurs(Lower(hay), Lower(needle));
    var i :| OccursAt(hay, needle, i);
    LowerSlice(hay, i, i + |needle|);
    assert OccursAt(Lower(hay), Lower(needle), i);
  }

  // ---------------------------------------------------------------------------
  // split / join on one separator character
  // ---------------------------------------------------------------------------

  /** The fields of `s`, the first of which starts with the characters `current`. */
  function SplitFrom(s: string, current: string, sep: char): (fields: seq<string>)
    ensures |fields| >= 1
    decreases |s|
  {
    if s == [] then [current]
    else if s[0] == sep then [current] + SplitFrom(s[1..], [], sep)
    else SplitFrom(s[1..], current + [s[0]], sep)
  }

  /** `s.split(sep)` for a one-character separator: there is always at least one field. */
  function SplitOn(s: string, sep: char): (fields: seq<string>)
    ensures |fields| >= 1
  {
    SplitFrom(s, [], sep)
  }

  /** `parts.join(sep)`. */
  function Join(parts: seq<string>, sep: char): string
    decreases |parts|
  {
    if |parts| == 0 then []
    else if |parts| == 1 then parts[0]
    else parts[0] + [sep] + Join(parts[1..], sep)
  }

  lemma {:induction false} JoinSplitFrom(s: string, current: string, sep: char)
    ensures Join(SplitFrom(s, current, sep), sep) == current + s
    decreases |s|
  {
    if s == [] {
      assert current + s == current;
    } else if s[0] == sep {
      var rest := SplitFrom(s[1..], [], sep);
      JoinSplitFrom(s[1..], [], sep);
      assert ([current] + rest)[1..] == rest;
      assert [] + s[1..] == s[1..];
      assert current + s == current + [sep] + s[1..];
    } else {
      JoinSplitFrom(s[1..], current + [s[0]], sep);
      assert current + s == current + [s[0]] + s[1..];
    }
  }

  /** Joining the fields of a split gives back the original string. */
  lemma JoinSplit(s: string, sep: char)
    ensures Join(SplitOn(s, sep), sep) == s
  {
    JoinSplitFrom(s, [], sep);
    assert [] + s == s;
  }

  lemma {:induction false} SplitFromWithoutSeparator(s: string, current: string, sep: char)
    requires sep !in s
    ensures SplitFrom(s, current, sep) == [current + s]
    decreases |s|
  {
    if s == [] {
      assert current + s == current;
    } else {
      SplitFromWithoutSeparator(s[1..], current + [s[0]], sep);
      assert current + s == current + [s[0]] + s[1..];
    }
  }

  /** A string without the separator splits into itself alone. */
  lemma SplitWithoutSeparator(s: string, sep: char)
    requires sep !in s
    ensures SplitOn(s, sep) == [s]
  {
    SplitFromWithoutSeparator(s, [], sep);
    assert [] + s == s;
  }

  lemma {:induction false} SplitFromAppend(a: string, b: string, current: string, sep: char)
    ensures SplitFrom(a + [sep] + b, current, sep) == SplitFrom(a, current, sep) + SplitFrom(b, [], sep)
    decreases |a|
  {
    var s := a + [sep] + b;
    if a == [] {
      assert s[0] == sep && s[1..] == b;
    } else {
      assert s[0] == a[0];
      assert s[1..] == a[1..] + [sep] + b;
      if a[0] == sep {
        SplitFromAppend(a[1..], b, [], sep);
        assert SplitFrom(s, current, sep) == [current] + (SplitFrom(a[1..], [], sep) + SplitFrom(b, [], sep));
      } else {
        SplitFromAppend(a[1..], b, current + [a[0]], sep);
      }
    }
  }

  /** Splitting at one separator splits the two sides independently. */
  lemma SplitAppend(a: string, b: string, sep: char)
    ensures SplitOn(a + [sep] + b, sep) == SplitOn(a, sep) + SplitOn(b, sep)
  {
    SplitFromAppend(a, b, [], sep);
  }

  /** Splitting a join of separator-free parts gives the parts back. */
  lemma {:induction false} SplitJoin(parts: seq<string>, sep: char)
    requires |parts| >= 1
    requires forall k :: 0 <= k < |parts| ==> sep !in parts[k]
    ensures SplitOn(Join(parts, sep), sep) == parts
    decreases |parts|
  {
    SplitWithoutSeparator(parts[0], sep);
    if |parts| > 1 {
      SplitJoin(parts[1..], sep);
      SplitAppend(parts[0], Join(parts[1..], sep), sep);
      assert parts == [parts[0]] + parts[1..];
    }
  }

  /** `xs.filter(Boolean)` on strings: drops the empty ones, keeping the order of the rest. */
  function NonEmpty(xs: seq<string>): (ys: seq<string>)
    ensures forall y :: y in ys ==> y in xs && y != []
    ensures forall x :: x in xs && x != [] ==> x in ys
    ensures |ys| <= |xs|
    decreases |xs|
  {
    if xs == [] then []
    else if xs[0] == [] then NonEmpty(xs[1..])
    else [xs[0]] + NonEmpty(xs[1..])
  }

  lemma {:induction false} NonEmptyAppend(xs: seq<string>, ys: seq<string>)
    ensures NonEmpty(xs + ys) == NonEmpty(xs) + NonEmpty(ys)
    decreases |xs|
  {
    if xs == [] {
      assert xs + ys == ys;
    } else {
      assert (xs + ys)[0] == xs[0];
      assert (xs + ys)[1..] == xs[1..] + ys;
      NonEmptyAppend(xs[1..], ys);
    }
  }

  // ---------------------------------------------------------------------------
  // decimal rendering
  // ---------------------------------------------------------------------------

  predicate IsDigit(c: char) {
    '0' <= c <= '9'
  }

  function DigitChar(d: nat): (c: char)
    requires d < 10
    ensures IsDigit(c)
  {
    (48 + d) as char
  }

  function DigitValue(c: char): int {
    c as int - 48
  }

  /** `String(n)` for a natural number: its decimal digits, no leading zeros. */
  function NatToDecimal(n: nat): (s: string)
    ensures |s| >= 1
    ensures forall i :: 0 <= i < |s| ==> IsDigit(s[i])
    decreases n
  {
    if n < 10 then [DigitChar(n)] else NatToDecimal(n / 10) + [DigitChar(n % 10)]
  }

  /** Reads decimal digits back into a number. */
  function ParseDecimal(s: string): int
    decreases |s|
  {
    if s == [] then 0 else ParseDecimal(s[..|s| - 1]) * 10 + DigitValue(s[|s| - 1])
  }

  lemma {:induction false} DecimalRoundTrip(n: nat)
    ensures ParseDecimal(NatToDecimal(n)) == n
    decreases n
  {
    var s := NatToDecimal(n);
    if n < 10 {
      assert s[..0] == [];
    } else {
      DecimalRoundTrip(n / 10);
      assert s[..|s| - 1] == NatToDecimal(n / 10);
    }
  }

  /** Distinct numbers render differently. */
  lemma DecimalInjective(m: nat, n: nat)
    requires NatToDecimal(m) == NatToDecimal(n)
    ensures m == n
  {
    DecimalRoundTrip(m);
    DecimalRoundTrip(n);
  }
}
