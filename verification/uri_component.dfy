/**
 * Percent-encoding of text as JavaScript's `encodeURIComponent` does it (every
 * character outside the unreserved set becomes the `%XX` escapes of its UTF-8
 * bytes, upper-case hex), the same escaping with another "keep" set (the URL
 * query setter uses one), and a decoder in the manner of `decodeURIComponent`
 * that rejects malformed escapes and malformed UTF-8.
 */
module UriComponent {
  import opened Wrappers

  type Byte = b: int | 0 <= b < 256

  /** The characters `encodeURIComponent` leaves as they are. */
  predicate IsUnreserved(c: char) {
    ('A' <= c <= 'Z') || ('a' <= c <= 'z') || ('0' <= c <= '9') ||
    c == '-' || c == '_' || c == '.' || c == '!' || c == '~' || c == '*' ||
    c == '\'' || c == '(' || c == ')'
  }

  predicate IsUpperHexDigit(c: char) {
    ('0' <= c <= '9') || ('A' <= c <= 'F')
  }

  // ---------------------------------------------------------------------------
  // encoding
  // ---------------------------------------------------------------------------

  /** The UTF-8 encoding of one Unicode scalar value. */
  function Utf8(c: char): (bytes: seq<Byte>)
    ensures 1 <= |bytes| <= 4
  {
    var n := c as int;
    if n < 0x80 then [n]
    else if n < 0x800 then [0xC0 + n / 64, 0x80 + n % 64]
    else if n < 0x1_0000 then [0xE0 + n / 4096, 0x80 + n / 64 % 64, 0x80 + n % 64]
    else [0xF0 + n / 262144, 0x80 + n / 4096 % 64, 0x80 + n / 64 % 64, 0x80 + n % 64]
  }

  function HexDigit(d: int): (c: char)
    requires 0 <= d < 16
    ensures IsUpperHexDigit(c)
  {
    if d < 10 then (48 + d) as char else (55 + d) as char
  }

  /** The value of a hex digit of either case. */
  function HexValue(c: char): (r: Option<int>)
    ensures r.Some? ==> 0 <= r.value < 16
  {
    if '0' <= c <= '9' then Some(c as int - 48)
    else if 'A' <= c <= 'F' then Some(c as int - 55)
    else if 'a' <= c <= 'f' then Some(c as int - 87)
    else None
  }

  /** `%XX` for one byte. */
  function Percent(b: Byte): string {
    ['%', HexDigit(b / 16), HexDigit(b % 16)]
  }

  function PercentAll(bytes: seq<Byte>): (s: string)
    ensures |s| == 3 * |bytes|
    ensures forall c :: c in s ==> c == '%' || IsUpperHexDigit(c)
    decreases |bytes|
  {
    if bytes == [] then [] else Percent(bytes[0]) + PercentAll(bytes[1..])
  }

  /** One character: itself when `keep` admits it, otherwise its escaped UTF-8 bytes. */
  function EscapeChar(c: char, keep: char -> bool): string {
    if keep(c) then [c] else PercentAll(Utf8(c))
  }

  /** Escapes every character of `s` that `keep` does not admit. */
  function EscapeWhere(s: string, keep: char -> bool): (r: string)
    ensures forall c :: c in r ==> (c in s && keep(c)) || c == '%' || IsUpperHexDigit(c)
    decreases |s|
  {
    if s == [] then [] else EscapeChar(s[0], keep) + EscapeWhere(s[1..], keep)
  }

  /** `encodeURIComponent`. */
  function Encode(s: string): (r: string)
    ensures forall c :: c in r ==> IsUnreserved(c) || c == '%'
  {
    EscapeWhere(s, IsUnreserved)
  }

  // ---------------------------------------------------------------------------
  // decoding
  // ---------------------------------------------------------------------------

  /** The byte written as `%XX` at position `k`, if there is one. */
  function ByteAt(s: string, k: nat): (r: Option<Byte>)
    ensures r.Some? ==> k + 3 <= |s|
  {
    if k + 3 <= |s| && s[k] == '%' then
      match (HexValue(s[k + 1]), HexValue(s[k + 2]))
      case (Some(hi), Some(lo)) => Some(hi * 16 + lo)
      case _ => None
    else None
  }

  /** The six payload bits of a UTF-8 continuation byte written at position `k`. */
  function ContinuationAt(s: string, k: nat): (r: Option<int>)
    ensures r.Some? ==> k + 3 <= |s| && 0 <= r.value < 64
  {
    match ByteAt(s, k)
    case Some(b) => if 0x80 <= b < 0xC0 then Some(b - 0x80) else None
    case None => None
  }

  /**
   * Decodes the first character of `s`: a literal character, or the one to four
   * escaped bytes of a well-formed UTF-8 sequence (no overlong forms, no
   * surrogates, nothing above U+10FFFF). Yields the character and how many
   * characters of `s` it used.
   */
  function DecodeOne(s: string): (r: Option<(char, nat)>)
    requires |s| > 0
    ensures r.Some? ==> 1 <= r.value.1 <= |s|
  {
    if s[0] != '%' then Some((s[0], 1))
    else
      match ByteAt(s, 0)
      case None => None
      case Some(b0) =>
        if b0 < 0x80 then Some((b0 as char, 3))
        else if 0xC0 <= b0 < 0xE0 then
          match ContinuationAt(s, 3)
          case None => None
          case Some(x1) =>
            var v := (b0 - 0xC0) * 64 + x1;
            if v < 0x80 then None else Some((v as char, 6))
        else if 0xE0 <= b0 < 0xF0 then
          match (ContinuationAt(s, 3), ContinuationAt(s, 6))
          case (Some(x1), Some(x2)) =>
            var v := (b0 - 0xE0) * 4096 + x1 * 64 + x2;
            if v < 0x800 || (0xD800 <= v < 0xE000) then None else Some((v as char, 9))
          case _ => None
        else if 0xF0 <= b0 < 0xF8 then
          match (ContinuationAt(s, 3), ContinuationAt(s, 6), ContinuationAt(s, 9))
          case (Some(x1), Some(x2), Some(x3)) =>
            var v := (b0 - 0xF0) * 262144 + x1 * 4096 + x2 * 64 + x3;
            if v < 0x1_0000 || v > 0x10_FFFF then None else Some((v as char, 12))
          case _ => None
        else None
  }

  /** `decodeURIComponent`: `None` where JavaScript throws `URIError`. */
  function Decode(s: string): Option<string>
    decreases |s|
  {
    if s == [] then Some([])
    else
      match DecodeOne(s)
      case None => None
      case Some((c, n)) =>
        match Decode(s[n..])
        case None => None
        case Some(t) => Some([c] + t)
  }

  // ---------------------------------------------------------------------------
  // round trip
  // ---------------------------------------------------------------------------

  lemma HexRoundTrip(d: int)
    requires 0 <= d < 16
    ensures HexValue(HexDigit(d)) == Some(d)
  {
  }

  /** What follows a prefix is read the same as on its own. */
  lemma ByteAtShift(x: string, t: string, k: nat)
    ensures ByteAt(x + t, |x| + k) == ByteAt(t, k)
  {
    if k + 3 <= |t| {
      assert (x + t)[|x| + k] == t[k];
      assert (x + t)[|x| + k + 1] == t[k + 1];
      assert (x + t)[|x| + k + 2] == t[k + 2];
    }
  }

  lemma PercentReads(b: Byte, t: string)
    ensures ByteAt(Percent(b) + t, 0) == Some(b)
  {
    HexRoundTrip(b / 16);
    HexRoundTrip(b % 16);
  }

  /** Each escaped byte reads back from its place in the escaped text. */
  lemma {:induction false} PercentAllByteAt(bytes: seq<Byte>, rest: string, k: nat)
    requires k < |bytes|
    ensures ByteAt(PercentAll(bytes) + rest, 3 * k) == Some(bytes[k])
    decreases k
  {
    var t := PercentAll(bytes[1..]) + rest;
    assert PercentAll(bytes) + rest == Percent(bytes[0]) + t;
    if k == 0 {
      PercentReads(bytes[0], t);
    } else {
      PercentAllByteAt(bytes[1..], rest, k - 1);
      ByteAtShift(Percent(bytes[0]), t, 3 * (k - 1));
    }
  }

  lemma Recompose2(n: int)
    requires 0 <= n
    ensures (n / 64) * 64 + n % 64 == n
  {
  }

  lemma Recompose3(n: int)
    requires 0 <= n
    ensures (n / 4096) * 4096 + (n / 64 % 64) * 64 + n % 64 == n
  {
    var q := n / 64;
    assert q / 64 == n / 4096;
    assert q == (q / 64) * 64 + q % 64;
  }

  lemma Recompose4(n: int)
    requires 0 <= n
    ensures (n / 262144) * 262144 + (n / 4096 % 64) * 4096 + (n / 64 % 64) * 64 + n % 64 == n
  {
    var q := n / 4096;
    assert q / 64 == n / 262144;
    assert q == (q / 64) * 64 + q % 64;
    Recompose3(n);
  }

  lemma DecodeOneTwoBytes(c: char, rest: string)
    requires 0x80 <= c as int < 0x800
    ensures DecodeOne(PercentAll(Utf8(c)) + rest) == Some((c, 6))
  {
    var bytes := Utf8(c);
    var n := c as int;
    var s := PercentAll(bytes) + rest;
    var q, x1 := n / 64, n % 64;
    assert bytes == [0xC0 + q, 0x80 + x1];
    assert 2 <= q < 32;
    PercentAllByteAt(bytes, rest, 0);
    PercentAllByteAt(bytes, rest, 1);
    assert ContinuationAt(s, 3) == Some(x1);
    Recompose2(n);
  }

  lemma DecodeOneThreeBytes(c: char, rest: string)
    requires 0x800 <= c as int < 0x1_0000
    ensures DecodeOne(PercentAll(Utf8(c)) + rest) == Some((c, 9))
  {
    var bytes := Utf8(c);
    var n := c as int;
    var s := PercentAll(bytes) + rest;
    var q := n / 4096;
    var x1, x2 := n / 64 % 64, n % 64;
    assert bytes == [0xE0 + q, 0x80 + x1, 0x80 + x2];
    assert 0 <= q < 16;
    PercentAllByteAt(bytes, rest, 0);
    PercentAllByteAt(bytes, rest, 1);
    PercentAllByteAt(bytes, rest, 2);
    assert ContinuationAt(s, 3) == Some(x1);
    assert ContinuationAt(s, 6) == Some(x2);
    Recompose3(n);
    assert q * 4096 + x1 * 64 + x2 == n;
  }

  lemma DecodeOneFourBytes(c: char, rest: string)
    requires 0x1_0000 <= c as int
    ensures DecodeOne(PercentAll(Utf8(c)) + rest) == Some((c, 12))
  {
    var bytes := Utf8(c);
    var n := c as int;
    var s := PercentAll(bytes) + rest;
    var q := n / 262144;
    var x1, x2, x3 := n / 4096 % 64, n / 64 % 64, n % 64;
    assert bytes == [0xF0 + q, 0x80 + x1, 0x80 + x2, 0x80 + x3];
    assert 0 <= q <= 4;
    PercentAllByteAt(bytes, rest, 0);
    PercentAllByteAt(bytes, rest, 1);
    PercentAllByteAt(bytes, rest, 2);
    PercentAllByteAt(bytes, rest, 3);
    assert ContinuationAt(s, 3) == Some(x1);
    assert ContinuationAt(s, 6) == Some(x2);
    assert ContinuationAt(s, 9) == Some(x3);
    Recompose4(n);
    assert q * 262144 + x1 * 4096 + x2 * 64 + x3 == n;
  }

  /** A character escaped as UTF-8 bytes decodes back to itself, using exactly its escape. */
  lemma DecodeOneUtf8(c: char, rest: string)
    ensures DecodeOne(PercentAll(Utf8(c)) + rest) == Some((c, |PercentAll(Utf8(c))|))
  {
    var n := c as int;
    if n < 0x80 {
      PercentAllByteAt(Utf8(c), rest, 0);
    } else if n < 0x800 {
      DecodeOneTwoBytes(c, rest);
    } else if n < 0x1_0000 {
      DecodeOneThreeBytes(c, rest);
    } else {
      DecodeOneFourBytes(c, rest);
    }
  }

  /** A kept character or an escaped one decodes back to itself. */
  lemma DecodeOneEscaped(c: char, keep: char -> bool, rest: string)
    requires keep(c) ==> c != '%'
    ensures DecodeOne(EscapeChar(c, keep) + rest) == Some((c, |EscapeChar(c, keep)|))
  {
    if !keep(c) {
      DecodeOneUtf8(c, rest);
    }
  }

  /**
   * Escaping with any keep set that leaves `%` escaped (or absent) is undone by
   * decoding.
   */
  lemma {:induction false} DecodeEscapeWhere(s: string, keep: char -> bool)
    requires forall c :: c in s && keep(c) ==> c != '%'
    ensures Decode(EscapeWhere(s, keep)) == Some(s)
    decreases |s|
  {
    if s != [] {
      var e := EscapeChar(s[0], keep);
      var rest := EscapeWhere(s[1..], keep);
      DecodeOneEscaped(s[0], keep, rest);
      assert (e + rest)[|e|..] == rest;
      DecodeEscapeWhere(s[1..], keep);
      assert s == [s[0]] + s[1..];
    }
  }

  /** `decodeURIComponent(encodeURIComponent(s)) === s` for every string. */
  lemma DecodeEncode(s: string)
    ensures Decode(Encode(s)) == Some(s)
  {
    DecodeEscapeWhere(s, IsUnreserved);
  }

  // ---------------------------------------------------------------------------
  // re-escaping already escaped text
  // ---------------------------------------------------------------------------

  lemma {:induction false} EscapeWhereAppend(a: string, b: string, keep: char -> bool)
    ensures EscapeWhere(a + b, keep) == EscapeWhere(a, keep) + EscapeWhere(b, keep)
    decreases |a|
  {
    if a != [] {
      assert (a + b)[0] == a[0];
      assert (a + b)[1..] == a[1..] + b;
      EscapeWhereAppend(a[1..], b, keep);
    } else {
      assert a + b == b;
    }
  }

  /** Escaping text whose characters are all kept changes nothing. */
  lemma {:induction false} EscapeWhereAllKept(s: string, keep: char -> bool)
    requires forall c :: c in s ==> keep(c)
    ensures EscapeWhere(s, keep) == s
    decreases |s|
  {
    if s != [] {
      EscapeWhereAllKept(s[1..], keep);
      assert s == [s[0]] + s[1..];
    }
  }

  /**
   * Escaping the output of an escape again, with a second keep set that keeps `%`
   * and the hex digits, is the same as escaping once with the two sets' intersection.
   */
  lemma {:induction false} EscapeTwice(s: string, k1: char -> bool, k2: char -> bool, both: char -> bool)
    requires k2('%') && forall c :: IsUpperHexDigit(c) ==> k2(c)
    requires forall c :: both(c) == (k1(c) && k2(c))
    ensures EscapeWhere(EscapeWhere(s, k1), k2) == EscapeWhere(s, both)
    decreases |s|
  {
    if s != [] {
      var e := EscapeChar(s[0], k1);
      EscapeWhereAppend(e, EscapeWhere(s[1..], k1), k2);
      EscapeTwice(s[1..], k1, k2, both);
      if k1(s[0]) {
        assert EscapeWhere(e, k2) == EscapeChar(s[0], k2) by {
          assert e[1..] == [];
        }
      } else {
        EscapeWhereAllKept(e, k2);
      }
      assert EscapeWhere(e, k2) == EscapeChar(s[0], both);
    }
  }
}
