/**
 * The slug normalisation of the blog form's general settings: lower-case,
 * strip diacritics, keep only `a-z`, `0-9`, `-` and white space, trim, and
 * turn every run of white space into one `-`. Unicode decomposition with
 * diacritic removal is a character map `fold` given as a parameter.
 */
module Slug {
  import opened Base

  /** The characters `[a-z0-9-]`. */
  predicate SlugChar(c: char)
  {
    ('a' <= c <= 'z') || ('0' <= c <= '9') || c == '-'
  }

  /** `.normalize("NFD").replace(/\p{Diacritic}/gu, "")`, one character at a time. */
  function Fold(s: string, fold: char -> char): (r: string)
    ensures |r| == |s| && forall i | 0 <= i < |s| :: r[i] == fold(s[i])
  {
    seq(|s|, i requires 0 <= i < |s| => fold(s[i]))
  }

  /** `.replace(/[^a-z0-9-\s]/g, "")`. */
  function KeepAllowed(s: string): (r: string)
    ensures forall i | 0 <= i < |r| :: SlugChar(r[i]) || IsSpace(r[i])
    ensures (forall i | 0 <= i < |s| :: SlugChar(s[i])) ==> r == s
    decreases |s|
  {
    if s == [] then []
    else if SlugChar(s[0]) || IsSpace(s[0]) then [s[0]] + KeepAllowed(s[1..])
    else KeepAllowed(s[1..])
  }

  /** The string without its leading white space. */
  function DropSpaces(s: string): (r: string)
    ensures |r| <= |s| && r == s[|s| - |r|..]
    ensures r == [] || !IsSpace(r[0])
    decreases |s|
  {
    if s != [] && IsSpace(s[0]) then
      var r := DropSpaces(s[1..]);
      assert s[1..][|s| - 1 - |r|..] == s[|s| - |r|..];
      r
    else s
  }

  /** `.replace(/\s+/g, "-")`: each maximal run of white space becomes one `-`. */
  function Hyphenate(s: string): (r: string)
    ensures forall i | 0 <= i < |r| :: !IsSpace(r[i])
    ensures forall i | 0 <= i < |r| :: r[i] == '-' || r[i] in s
    decreases |s|
  {
    if s == [] then []
    else if IsSpace(s[0]) then
      var rest := DropSpaces(s);
      assert forall i | 0 <= i < |rest| :: rest[i] in s by {
        forall i | 0 <= i < |rest| ensures rest[i] in s {
          assert rest[i] == s[|s| - |rest| + i];
        }
      }
      "-" + Hyphenate(rest)
    else
      var t := Hyphenate(s[1..]);
      assert forall i | 0 <= i < |t| :: t[i] == '-' || t[i] in s by {
        forall i | 0 <= i < |t| ensures t[i] == '-' || t[i] in s {
          if t[i] != '-' {
            assert t[i] in s[1..];
          }
        }
      }
      [s[0]] + t
  }

  /** `handleSlugChange`'s chain of transforms. */
  function Normalize(s: string, fold: char -> char): string
  {
    Hyphenate(Trim(KeepAllowed(Fold(Lower(s), fold))))
  }

  /** The slug holds only `a-z`, `0-9` and `-`. */
  lemma NormalizeChars(s: string, fold: char -> char)
    ensures forall i | 0 <= i < |Normalize(s, fold)| :: SlugChar(Normalize(s, fold)[i])
  {
    var k := KeepAllowed(Fold(Lower(s), fold));
    var t := Trim(k);
    TrimInside(k);
    var r := Hyphenate(t);
    forall i | 0 <= i < |r| ensures SlugChar(r[i]) {
      if r[i] != '-' {
        var j :| 0 <= j < |t| && t[j] == r[i];
      }
    }
  }

  /** Every character of a trim is a character of the string. */
  lemma TrimInside(s: string)
    ensures forall i | 0 <= i < |Trim(s)| :: Trim(s)[i] in s
  {
    var t := TrimStart(s);
    var r := TrimEnd(t);
    assert Trim(s) == r;
    forall i | 0 <= i < |r| ensures r[i] in s {
      assert r[i] == t[i];
      assert t[i] == s[|s| - |t| + i];
    }
  }

  /** A string without white space hyphenates to itself. */
  lemma {:induction false} HyphenateNoSpace(s: string)
    requires forall i | 0 <= i < |s| :: !IsSpace(s[i])
    ensures Hyphenate(s) == s
    decreases |s|
  {
    if s != [] {
      HyphenateNoSpace(s[1..]);
    }
  }

  /** A run of white space in front of a word becomes exactly one `-`. */
  lemma HyphenateRun(w: string, b: string)
    requires w != [] && IsBlank(w)
    requires b == [] || !IsSpace(b[0])
    ensures Hyphenate(w + b) == "-" + Hyphenate(b)
  {
    DropSpacesBlank(w, b);
  }

  lemma {:induction false} DropSpacesBlank(w: string, b: string)
    requires IsBlank(w)
    requires b == [] || !IsSpace(b[0])
    ensures DropSpaces(w + b) == b
    decreases |w|
  {
    if w != [] {
      assert (w + b)[1..] == w[1..] + b;
      DropSpacesBlank(w[1..], b);
    } else {
      assert w + b == b;
    }
  }

  /** An upper-case ASCII letter comes out lower-cased, when the diacritic map leaves plain letters alone. */
  lemma NormalizeUpper(c: char, fold: char -> char)
    requires 'A' <= c <= 'Z'
    requires forall d | 'a' <= d <= 'z' :: fold(d) == d
    ensures Normalize([c], fold) == [LowerChar(c)]
  {
    var k := KeepAllowed(Fold(Lower([c]), fold));
    UpperKept(c, fold);
    assert forall i | 0 <= i < |k| :: SlugChar(k[i]);
    TrimNoSpace(k);
    HyphenateNoSpace(k);
    calc {
      Normalize([c], fold);
      Hyphenate(Trim(k));
      { assert Trim(k) == k; }
      Hyphenate(k);
      { assert Hyphenate(k) == k; }
      [LowerChar(c)];
    }
  }

  /** The first three stages turn an upper-case letter into its lower-case slug character. */
  lemma UpperKept(c: char, fold: char -> char)
    requires 'A' <= c <= 'Z'
    requires forall d | 'a' <= d <= 'z' :: fold(d) == d
    ensures KeepAllowed(Fold(Lower([c]), fold)) == [LowerChar(c)]
    ensures SlugChar(LowerChar(c))
  {
    var x := LowerChar(c);
    assert 'a' <= x <= 'z';
    assert Lower([c]) == [x];
    assert Fold([x], fold) == [x];
  }

  /** A slug is its own lower-case form, and the diacritic map leaves it alone. */
  lemma SlugFixed(r: string, fold: char -> char)
    requires forall i | 0 <= i < |r| :: SlugChar(r[i])
    requires forall c | SlugChar(c) :: fold(c) == c
    ensures Fold(Lower(r), fold) == r
  {
    assert Lower(r) == r;
  }

  /**
   * Normalising a slug again changes nothing, when the diacritic map leaves
   * the characters of a slug alone.
   */
  lemma NormalizeIdempotent(s: string, fold: char -> char)
    requires forall c | SlugChar(c) :: fold(c) == c
    ensures Normalize(Normalize(s, fold), fold) == Normalize(s, fold)
  {
    var r := Normalize(s, fold);
    NormalizeChars(s, fold);
    SlugFixed(r, fold);
    assert KeepAllowed(r) == r;
    TrimNoSpace(r);
    HyphenateNoSpace(r);
  }

  /** A string without white space at its ends is its own trim. */
  lemma TrimNoSpace(s: string)
    requires forall i | 0 <= i < |s| :: SlugChar(s[i])
    ensures Trim(s) == s
  {
    if s != [] {
      assert !IsSpace(s[0]);
      assert TrimStart(s) == s;
      assert !IsSpace(s[|s| - 1]);
    }
  }

  /**
   * White space around the input never shows in the slug: it is trimmed
   * before runs become `-` (given that the diacritic map leaves white space
   * alone).
   */
  lemma NormalizePadded(w: string, s: string, w2: string, fold: char -> char)
    requires IsBlank(w) && IsBlank(w2)
    requires forall c | IsSpace(c) :: fold(c) == c
    ensures Normalize(w + s + w2, fold) == Normalize(s, fold)
  {
    var m := Fold(Lower(s), fold);
    var k := KeepAllowed(m);
    BlankFixed(w, fold);
    BlankFixed(w2, fold);
    FoldLowerAppend(w, s, fold);
    FoldLowerAppend(w + s, w2, fold);
    assert Fold(Lower(w + s + w2), fold) == w + m + w2;
    KeepAllowedAppend(w + m, w2);
    KeepAllowedAppend(w, m);
    assert KeepAllowed(w + m + w2) == w + k + w2;
    TrimPadded(w, k, w2);
  }

  /** Lowering and the diacritic map work character by character. */
  lemma FoldLowerAppend(a: string, b: string, fold: char -> char)
    ensures Fold(Lower(a + b), fold) == Fold(Lower(a), fold) + Fold(Lower(b), fold)
  {
    assert Lower(a + b) == Lower(a) + Lower(b);
  }

  /** White space is kept as it is by lowering, the diacritic map and the filter. */
  lemma BlankFixed(w: string, fold: char -> char)
    requires IsBlank(w)
    requires forall c | IsSpace(c) :: fold(c) == c
    ensures Fold(Lower(w), fold) == w && KeepAllowed(w) == w
  {
    assert Lower(w) == w;
    BlankKept(w);
  }

  lemma {:induction false} BlankKept(w: string)
    requires IsBlank(w)
    ensures KeepAllowed(w) == w
    decreases |w|
  {
    if w != [] {
      BlankKept(w[1..]);
    }
  }

  lemma {:induction false} KeepAllowedAppend(a: string, b: string)
    ensures KeepAllowed(a + b) == KeepAllowed(a) + KeepAllowed(b)
    decreases |a|
  {
    if a == [] {
      assert a + b == b;
    } else {
      assert (a + b)[1..] == a[1..] + b;
      KeepAllowedAppend(a[1..], b);
    }
  }

  lemma {:induction false} TrimStartBlank(w: string, x: string)
    requires IsBlank(w)
    ensures TrimStart(w + x) == TrimStart(x)
    decreases |w|
  {
    if w == [] {
      assert w + x == x;
    } else {
      assert (w + x)[1..] == w[1..] + x;
      TrimStartBlank(w[1..], x);
    }
  }

  lemma {:induction false} TrimStartThenBlank(x: string, w: string)
    requires IsBlank(w)
    ensures TrimStart(x + w) == TrimStart(x) + w || (TrimStart(x + w) == [] && TrimStart(x) == [])
    decreases |x|
  {
    if x == [] {
      assert x + w == w;
      TrimStartBlank(w, []);
      assert w + [] == w;
    } else if IsSpace(x[0]) {
      assert (x + w)[1..] == x[1..] + w;
      TrimStartThenBlank(x[1..], w);
    }
  }

  lemma {:induction false} TrimEndBlank(x: string, w: string)
    requires IsBlank(w)
    ensures TrimEnd(x + w) == TrimEnd(x)
    decreases |w|
  {
    if w == [] {
      assert x + w == x;
    } else {
      assert (x + w)[..|x + w| - 1] == x + w[..|w| - 1];
      TrimEndBlank(x, w[..|w| - 1]);
    }
  }

  lemma TrimPadded(w: string, x: string, w2: string)
    requires IsBlank(w) && IsBlank(w2)
    ensures Trim(w + x + w2) == Trim(x)
  {
    assert w + x + w2 == w + (x + w2);
    TrimStartBlank(w, x + w2);
    TrimStartThenBlank(x, w2);
    TrimEndBlank(TrimStart(x), w2);
  }
}
