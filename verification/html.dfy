/**
 * Space-separated HTML attribute values: `class` lists and `aria-describedby`
 * id-reference lists, as the components build them with template strings,
 * `.trim()` and `[...].filter(Boolean).join(" ")`.
 */
module Html {
  import opened Wrappers
  import Strings

  /** The names a space-separated attribute value lists, in order. */
  function Tokens(s: string): (ts: seq<string>)
    ensures forall t :: t in ts ==> t != []
  {
    Strings.NonEmpty(Strings.SplitOn(s, ' '))
  }

  /** `value || undefined` for an attribute: an empty value leaves the attribute off. */
  function OrOmitted(value: string): (r: Option<string>)
    ensures r.None? <==> value == []
    ensures r.Some? ==> r.value == value
  {
    if value == [] then None else Some(value)
  }

  /** A class name or element id: non-empty and free of spaces. */
  predicate IsName(s: string) {
    s != [] && ' ' !in s
  }

  // The GOV.UK Frontend class names the form components toggle.
  const FormGroupClass := "govuk-form-group"
  const FormGroupErrorClass := "govuk-form-group--error"
  const InputClass := "govuk-input"
  const InputErrorClass := "govuk-input--error"
  const InputWidth20Class := "govuk-input--width-20"

  /** The characters the GOV.UK class names are written in. */
  predicate IsClassChar(c: char) {
    ('a' <= c <= 'z') || ('0' <= c <= '9') || c == '-' || c == '_'
  }

  /** A class name made of class characters only: in particular no whitespace at all. */
  predicate IsPlainClass(s: string) {
    s != [] && forall c :: c in s ==> IsClassChar(c)
  }

  lemma PlainClassIsName(s: string)
    requires IsPlainClass(s)
    ensures IsName(s) && forall c :: c in s ==> !Strings.IsJsWhitespace(c)
  {
  }

  lemma ClassNamesAreNames()
    ensures IsPlainClass(FormGroupClass) && IsPlainClass(FormGroupErrorClass)
    ensures IsPlainClass(InputClass) && IsPlainClass(InputErrorClass) && IsPlainClass(InputWidth20Class)
  {
    assert IsPlainClass(FormGroupClass);
    assert IsPlainClass(FormGroupErrorClass);
    assert IsPlainClass(InputClass);
    assert IsPlainClass(InputErrorClass);
    assert IsPlainClass(InputWidth20Class);
  }

  /** The class that a `${cond ? cls : ""}` placeholder adds: `cls` or nothing. */
  function Flag(on: bool, cls: string): (r: string)
    ensures on ==> r == cls
    ensures !on ==> r == []
  {
    if on then cls else []
  }

  // ---------------------------------------------------------------------------
  // token algebra
  // ---------------------------------------------------------------------------

  lemma TokensEmpty()
    ensures Tokens([]) == []
  {
    assert Strings.SplitOn([], ' ') == [[]];
  }

  /** A single space-free name is one token. */
  lemma TokensOfName(w: string)
    requires w != [] && ' ' !in w
    ensures Tokens(w) == [w]
  {
    Strings.SplitWithoutSeparator(w, ' ');
  }

  /** `name ${flagged}`: the name, then the flagged class when it is on. */
  lemma TokensFlagged(name: string, on: bool, cls: string)
    requires IsName(name) && IsName(cls)
    ensures Tokens(name + " " + Flag(on, cls)) == [name] + (if on then [cls] else [])
  {
    TokensConcat(name, Flag(on, cls));
    TokensOfName(name);
    if on {
      TokensOfName(cls);
    } else {
      TokensEmpty();
    }
  }

  /** A space separates the tokens on its two sides and adds none of its own. */
  lemma TokensConcat(a: string, b: string)
    ensures Tokens(a + " " + b) == Tokens(a) + Tokens(b)
  {
    Strings.SplitAppend(a, b, ' ');
    Strings.NonEmptyAppend(Strings.SplitOn(a, ' '), Strings.SplitOn(b, ' '));
  }

  predicate AllSpaces(w: string) {
    forall c :: c in w ==> c == ' '
  }

  lemma {:induction false} TokensLeadingSpaces(w: string, x: string)
    requires AllSpaces(w)
    ensures Tokens(w + x) == Tokens(x)
    decreases |w|
  {
    if w != [] {
      assert w[0] in w;
      assert w == [w[0]] + w[1..];
      assert w + x == [] + " " + (w[1..] + x);
      assert AllSpaces(w[1..]) by {
        forall c | c in w[1..] ensures c == ' ' {
          assert c in w;
        }
      }
      TokensConcat([], w[1..] + x);
      TokensEmpty();
      TokensLeadingSpaces(w[1..], x);
    } else {
      assert w + x == x;
    }
  }

  lemma {:induction false} TokensTrailingSpaces(x: string, w: string)
    requires AllSpaces(w)
    ensures Tokens(x + w) == Tokens(x)
    decreases |w|
  {
    if w != [] {
      var last := w[..|w| - 1];
      assert w[|w| - 1] in w;
      assert w == last + [w[|w| - 1]];
      assert x + w == (x + last) + " " + [];
      assert AllSpaces(last) by {
        forall c | c in last ensures c == ' ' {
          assert c in w;
        }
      }
      TokensConcat(x + last, []);
      TokensEmpty();
      TokensTrailingSpaces(x, last);
    } else {
      assert x + w == x;
    }
  }

  /** A whitespace run of a string whose only whitespace is spaces is all spaces. */
  lemma SpacesOnly(s: string, i: nat, j: nat)
    requires i <= j <= |s|
    requires SpaceSeparated(s)
    requires Strings.AllWhitespace(s[i..j])
    ensures AllSpaces(s[i..j])
  {
    forall c | c in s[i..j] ensures c == ' ' {
      assert c in s;
    }
  }

  /**
   * `.trim()` on a class string whose only whitespace is spaces does not change
   * the class names it lists.
   */
  lemma TokensTrim(s: string)
    requires SpaceSeparated(s)
    ensures Tokens(Strings.Trim(s)) == Tokens(s)
  {
    var a, b := Strings.TrimBounds(s);
    SpacesOnly(s, 0, a);
    SpacesOnly(s, b, |s|);
    TokensBetweenSpaces(s, a, b);
  }

  /** Runs of spaces at either end of a string list no tokens. */
  lemma TokensBetweenSpaces(s: string, a: nat, b: nat)
    requires a <= b <= |s|
    requires AllSpaces(s[0..a]) && AllSpaces(s[b..|s|])
    ensures Tokens(s[a..b]) == Tokens(s)
  {
    assert s == s[0..a] + (s[a..b] + s[b..|s|]);
    TokensLeadingSpaces(s[0..a], s[a..b] + s[b..|s|]);
    TokensTrailingSpaces(s[a..b], s[b..|s|]);
  }

  /** A name followed by anything, trimmed, is non-empty and starts with that name. */
  lemma TrimKeepsName(name: string, rest: string)
    requires IsName(name) && !Strings.IsJsWhitespace(name[0])
    ensures Strings.Trim(name + rest) != []
  {
    var s := name + rest;
    Strings.TrimEmptyIff(s);
    assert s[0] in s && s[0] == name[0];
  }

  /** A class string whose only whitespace is spaces, so that `Tokens` reads it as a browser does. */
  predicate SpaceSeparated(s: string) {
    forall c :: c in s && Strings.IsJsWhitespace(c) ==> c == ' '
  }

  /** A `${on ? cls : ""}` placeholder adds the class when on and nothing otherwise. */
  lemma FlagTokens(on: bool, cls: string)
    requires IsPlainClass(cls)
    ensures Tokens(Flag(on, cls)) == (if on then [cls] else [])
    ensures SpaceSeparated(Flag(on, cls))
  {
    PlainClassIsName(cls);
    if on {
      TokensOfName(cls);
    } else {
      TokensEmpty();
    }
  }

  /** `${name} ${mid} ${extra}` lists the name, then the classes of `mid`, then those of `extra`. */
  lemma ClassListTokens(name: string, mid: string, extra: string)
    requires IsPlainClass(name) && SpaceSeparated(mid) && SpaceSeparated(extra)
    ensures Tokens(name + " " + mid + " " + extra) == [name] + Tokens(mid) + Tokens(extra)
    ensures SpaceSeparated(name + " " + mid + " " + extra)
  {
    PlainClassIsName(name);
    assert name + " " + mid + " " + extra == name + " " + (mid + " " + extra);
    TokensConcat(name, mid + " " + extra);
    TokensConcat(mid, extra);
    TokensOfName(name);
    forall c | c in name + " " + mid + " " + extra && Strings.IsJsWhitespace(c) ensures c == ' ' {
      assert c in name || c == ' ' || c in mid || c in extra;
    }
  }

  /**
   * `${name} ${mid} ${extra}`.trim(): the same classes, and the result is
   * non-empty with no whitespace at its ends.
   */
  lemma TrimmedClassList(name: string, mid: string, extra: string)
    requires IsPlainClass(name) && SpaceSeparated(mid) && SpaceSeparated(extra)
    ensures var t := Strings.Trim(name + " " + mid + " " + extra);
            Tokens(t) == [name] + Tokens(mid) + Tokens(extra)
            && t != [] && !Strings.IsJsWhitespace(t[0]) && !Strings.IsJsWhitespace(t[|t| - 1])
  {
    var rest := " " + mid + " " + extra;
    ClassListTokens(name, mid, extra);
    assert name + " " + mid + " " + extra == name + rest;
    TrimNamedClass(name, rest);
  }

  /** `${a} ${b} ${extra}`.trim() for two plain classes: both, then the classes of `extra`. */
  lemma TrimmedTwoClasses(a: string, b: string, extra: string)
    requires IsPlainClass(a) && IsPlainClass(b) && SpaceSeparated(extra)
    ensures Tokens(Strings.Trim(a + " " + b + " " + extra)) == [a, b] + Tokens(extra)
  {
    FlagTokens(true, b);
    assert Flag(true, b) == b;
    TrimmedClassList(a, b, extra);
    assert [a] + [b] + Tokens(extra) == [a, b] + Tokens(extra);
  }

  /**
   * `${name} ${on ? cls : ""} ${extra}`.trim(): the name, the flag's class when
   * it is on, then the extra classes.
   */
  lemma TrimmedClassTokens(name: string, on: bool, cls: string, extra: string)
    requires IsPlainClass(name) && IsPlainClass(cls) && SpaceSeparated(extra)
    ensures var t := Strings.Trim(name + " " + Flag(on, cls) + " " + extra);
            Tokens(t) == [name] + (if on then [cls] else []) + Tokens(extra)
            && t != [] && !Strings.IsJsWhitespace(t[0]) && !Strings.IsJsWhitespace(t[|t| - 1])
  {
    FlagTokens(on, cls);
    TrimmedClassList(name, Flag(on, cls), extra);
  }

  /** Trimming a class string that starts with a plain class name keeps its tokens. */
  lemma TrimNamedClass(name: string, rest: string)
    requires IsPlainClass(name) && SpaceSeparated(name + rest)
    ensures var t := Strings.Trim(name + rest);
            Tokens(t) == Tokens(name + rest)
            && t != [] && !Strings.IsJsWhitespace(t[0]) && !Strings.IsJsWhitespace(t[|t| - 1])
  {
    PlainClassIsName(name);
    TokensTrim(name + rest);
    assert name[0] in name;
    TrimKeepsName(name, rest);
  }

  // ---------------------------------------------------------------------------
  // `[...].filter(Boolean).join(" ")`
  // ---------------------------------------------------------------------------

  /** The tokens of each value in turn. */
  function FlatTokens(xs: seq<string>): seq<string>
    decreases |xs|
  {
    if xs == [] then [] else Tokens(xs[0]) + FlatTokens(xs[1..])
  }

  lemma FlatTokensTwo(a: string, b: string)
    ensures FlatTokens([a, b]) == Tokens(a) + Tokens(b)
  {
    assert [a, b][1..] == [b];
    assert [b][1..] == [];
    assert FlatTokens([b]) == Tokens(b) + FlatTokens([]);
  }

  lemma FlatTokensThree(a: string, b: string, c: string)
    ensures FlatTokens([a, b, c]) == Tokens(a) + Tokens(b) + Tokens(c)
  {
    assert [a, b, c][1..] == [b, c];
    FlatTokensTwo(b, c);
  }

  /** `xs.filter(Boolean).join(" ")`. */
  function JoinPresent(xs: seq<string>): string {
    Strings.Join(Strings.NonEmpty(xs), ' ')
  }

  lemma {:induction false} TokensJoin(xs: seq<string>)
    ensures Tokens(Strings.Join(xs, ' ')) == FlatTokens(xs)
    decreases |xs|
  {
    if xs == [] {
      TokensEmpty();
    } else if |xs| == 1 {
      assert xs[1..] == [];
    } else {
      TokensConcat(xs[0], Strings.Join(xs[1..], ' '));
      TokensJoin(xs[1..]);
    }
  }

  lemma {:induction false} FlatTokensNonEmpty(xs: seq<string>)
    ensures FlatTokens(Strings.NonEmpty(xs)) == FlatTokens(xs)
    decreases |xs|
  {
    if xs != [] {
      FlatTokensNonEmpty(xs[1..]);
      if xs[0] == [] {
        TokensEmpty();
      } else {
        assert ([xs[0]] + Strings.NonEmpty(xs[1..]))[1..] == Strings.NonEmpty(xs[1..]);
      }
    }
  }

  /** The joined list names exactly the tokens of the values, in order; blanks vanish. */
  lemma TokensJoinPresent(xs: seq<string>)
    ensures Tokens(JoinPresent(xs)) == FlatTokens(xs)
  {
    TokensJoin(Strings.NonEmpty(xs));
    FlatTokensNonEmpty(xs);
  }

  lemma {:induction false} JoinNonEmpty(xs: seq<string>)
    requires xs != [] && xs[0] != []
    ensures Strings.Join(xs, ' ') != []
  {
    if |xs| > 1 {
      assert |Strings.Join(xs, ' ')| >= |xs[0]|;
    }
  }

  /** The joined list is empty exactly when every value is. */
  lemma JoinPresentEmptyIff(xs: seq<string>)
    ensures JoinPresent(xs) == [] <==> forall k :: 0 <= k < |xs| ==> xs[k] == []
  {
    var ys := Strings.NonEmpty(xs);
    if ys != [] {
      assert ys[0] in ys;
      JoinNonEmpty(ys);
      assert exists k :: 0 <= k < |xs| && xs[k] == ys[0];
    } else {
      forall k | 0 <= k < |xs| ensures xs[k] == [] {
        assert xs[k] in xs;
      }
    }
  }
}
