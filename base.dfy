/**
 * Shared vocabulary of the dashboard: optional values, the three content
 * languages, and the JavaScript string operations the forms and routes rely on
 * (`trim`, `toLowerCase`, `includes`).
 */
module Base {

  datatype Option<+T> = None | Some(value: T) {
    function GetOr(default: T): T { if Some? then value else default }
  }

  /** The three content languages, keyed "Español", "Inglés", "Portugués" in form state. */
  datatype Lang = Es | En | Pt

  const Langs: seq<Lang> := [Es, En, Pt]

  /** The two-letter code the translation services and the category table use. */
  function Code(l: Lang): string
  {
    match l
    case Es => "es"
    case En => "en"
    case Pt => "pt"
  }

  lemma CodesDistinct(l: Lang, m: Lang)
    ensures Code(l) == Code(m) <==> l == m
  {
  }

  /** One value per language, as in `{ Español: …, Inglés: …, Portugués: … }`. */
  datatype PerLang<T> = PerLang(es: T, en: T, pt: T) {
    function Get(l: Lang): T
    {
      match l
      case Es => es
      case En => en
      case Pt => pt
    }

    /** `{ ...prev, [lang]: v }`: the entry of `l` becomes `v`, the other two stay. */
    function Set(l: Lang, v: T): (r: PerLang<T>)
      ensures r.Get(l) == v
      ensures forall m :: m != l ==> r.Get(m) == Get(m)
    {
      match l
      case Es => this.(es := v)
      case En => this.(en := v)
      case Pt => this.(pt := v)
    }
  }

  /** The column-name suffix of a language: `name_spanish`, `name_english`, `name_portuguese`. */
  function Suffix(l: Lang): string
  {
    match l
    case Es => "_spanish"
    case En => "_english"
    case Pt => "_portuguese"
  }

  /** `!body.Español || !body.Inglés || !body.Portugués` fails: every language object is present. */
  predicate Complete<T>(p: PerLang<Option<T>>)
  {
    p.es.Some? && p.en.Some? && p.pt.Some?
  }

  /** The three language objects of a complete body. */
  function Present<T>(p: PerLang<Option<T>>): (r: PerLang<T>)
    requires Complete(p)
    ensures forall l :: p.Get(l) == Some(r.Get(l))
  {
    PerLang(p.es.value, p.en.value, p.pt.value)
  }

  /** ECMAScript WhiteSpace and LineTerminator code points (what `trim` and `\s` match). */
  predicate IsSpace(c: char)
  {
    c == ' ' || c == '\t' || c == '\n' || c == '\r' || c == '\U{B}' || c == '\U{C}'
    || c == '\U{A0}' || c == '\U{1680}' || ('\U{2000}' <= c <= '\U{200A}') || c == '\U{2028}'
    || c == '\U{2029}' || c == '\U{202F}' || c == '\U{205F}' || c == '\U{3000}' || c == '\U{FEFF}'
  }

  /** `!s.trim()`: the string holds nothing but white space. */
  predicate IsBlank(s: string)
  {
    forall i | 0 <= i < |s| :: IsSpace(s[i])
  }

  function TrimStart(s: string): (r: string)
    ensures |r| <= |s| && r == s[|s| - |r|..]
    ensures IsBlank(s[..|s| - |r|])
    ensures |r| > 0 ==> !IsSpace(r[0])
  {
    if |s| > 0 && IsSpace(s[0]) then
      var r := TrimStart(s[1..]);
      assert s[1..][..|s| - 1 - |r|] == s[1..|s| - |r|];
      r
    else s
  }

  function TrimEnd(s: string): (r: string)
    ensures |r| <= |s| && r == s[..|r|]
    ensures IsBlank(s[|r|..])
    ensures |r| > 0 ==> !IsSpace(r[|r| - 1])
  {
    if |s| > 0 && IsSpace(s[|s| - 1]) then
      var r := TrimEnd(s[..|s| - 1]);
      assert s[..|s| - 1][|r|..] == s[|r|..|s| - 1];
      r
    else s
  }

  /** `String.prototype.trim`: drops leading and trailing white space. */
  function Trim(s: string): (r: string)
    ensures |r| <= |s|
    ensures |r| > 0 ==> !IsSpace(r[0]) && !IsSpace(r[|r| - 1])
  {
    var t := TrimStart(s);
    var r := TrimEnd(t);
    assert |r| > 0 ==> r[0] == t[0];
    r
  }

  /** Trimming only cuts white space off the two ends: the result is a contiguous part of the input with blank text before and after it. */
  lemma TrimIsSlice(s: string)
    ensures exists a | 0 <= a <= |s| - |Trim(s)| :: Trim(s) == s[a..a + |Trim(s)|] && IsBlank(s[..a]) && IsBlank(s[a + |Trim(s)|..])
  {
    var t := TrimStart(s);
    var r := Trim(s);
    var a := |s| - |t|;
    assert r == s[a..a + |r|];
    assert s[a + |r|..] == t[|r|..];
  }

  /** Trimming leaves nothing exactly when the input is blank. */
  lemma TrimEmptyIffBlank(s: string)
    ensures Trim(s) == "" <==> IsBlank(s)
  {
    var t := TrimStart(s);
    if Trim(s) == "" {
      assert IsBlank(t[0..]);
      assert t == [];
      assert s[..|s|] == s;
    }
  }

  /** A trimmed string is its own trim. */
  lemma TrimIdempotent(s: string)
    ensures Trim(Trim(s)) == Trim(s)
  {
    var r := Trim(s);
    if |r| > 0 {
      assert TrimStart(r) == r;
      assert TrimEnd(r) == r;
    }
  }

  /** ASCII part of `toLowerCase`. */
  function LowerChar(c: char): char
  {
    if 'A' <= c <= 'Z' then (c as int + 32) as char else c
  }

  function Lower(s: string): (r: string)
    ensures |r| == |s|
    ensures forall i | 0 <= i < |s| :: r[i] == LowerChar(s[i])
  {
    seq(|s|, i requires 0 <= i < |s| => LowerChar(s[i]))
  }

  /** `s.includes(sub)`: `sub` occurs somewhere in `s`. */
  predicate Contains(s: string, sub: string)
    decreases |s|
  {
    sub <= s || (|s| > 0 && Contains(s[1..], sub))
  }

  /** `sub` occurs in `s` starting at position `i`. */
  predicate OccursAt(s: string, sub: string, i: int)
  {
    0 <= i <= |s| - |sub| && s[i..i + |sub|] == sub
  }

  /** `includes` finds a substring exactly when it occurs at some position of `s`. */
  lemma {:induction false} ContainsIffOccurs(s: string, sub: string)
    ensures Contains(s, sub) <==> exists i :: OccursAt(s, sub, i)
    decreases |s|
  {
    if sub <= s {
      assert OccursAt(s, sub, 0);
    } else if |s| > 0 {
      ContainsIffOccurs(s[1..], sub);
      if Contains(s[1..], sub) {
        var i :| OccursAt(s[1..], sub, i);
        assert s[1..][i..i + |sub|] == s[i + 1..i + 1 + |sub|];
        assert OccursAt(s, sub, i + 1);
      }
      if exists i :: OccursAt(s, sub, i) {
        var i :| OccursAt(s, sub, i);
        if i != 0 {
          assert s[1..][i - 1..i - 1 + |sub|] == s[i..i + |sub|];
          assert OccursAt(s[1..], sub, i - 1);
        }
      }
    }
  }

  /** Every string includes the empty string: an empty search term keeps everything. */
  lemma ContainsEmpty(s: string)
    ensures Contains(s, "")
  {
  }
}
