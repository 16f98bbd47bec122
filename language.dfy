/**
 * The bilingual text of the page, without the DOM: the two languages, the
 * `data-en` / `data-de` variants each translatable element carries, and what
 * `updateLanguageElements` writes into an element for a given language.
 */
module Language {
  import opened Options

  /** The value of `currentLanguage`: always one of 'en' and 'de'. */
  datatype Lang = En | De

  /** The language code, as used in `data-<code>` and in `document.documentElement.lang`. */
  function Code(l: Lang): (c: string)
  {
    match l
    case En => "en"
    case De => "de"
  }

  /** The toggle: `currentLanguage === 'en' ? 'de' : 'en'`. */
  function Flip(l: Lang): (r: Lang)
    ensures r != l
    ensures Code(r) != Code(l)
  {
    if l == En then De else En
  }

  /** ASCII upper-casing of one character, as `toUpperCase` does on the codes used here. */
  function UpperChar(c: char): (u: char)
  {
    if 'a' <= c <= 'z' then (c as int - 32) as char else c
  }

  function ToUpper(s: string): (r: string)
    ensures |r| == |s|
    ensures forall i :: 0 <= i < |s| ==> r[i] == UpperChar(s[i])
  {
    if s == [] then [] else [UpperChar(s[0])] + ToUpper(s[1..])
  }

  /** The text of the toggle control: `currentLanguage.toUpperCase()`. */
  function Label(l: Lang): (s: string)
    ensures s == if l == En then "EN" else "DE"
  {
    ToUpper(Code(l))
  }

  /** The two attribute values `data-en` and `data-de` of a translatable element. */
  datatype Bilingual = Bilingual(en: string, de: string)
  {
    /** `getAttribute('data-' + lang)` */
    function Get(l: Lang): string
    {
      match l
      case En => en
      case De => de
    }
  }

  /** A node matched by `[data-en][data-de]`: its variants and its current `textContent`. */
  datatype Translatable = Translatable(data: Bilingual, text: string)

  /**
   * One iteration of the `forEach` in `updateLanguageElements`: the text is
   * replaced only when the variant is truthy, i.e. a non-empty string.
   */
  function Apply(e: Translatable, l: Lang): (r: Translatable)
    ensures r.data == e.data
    ensures ShowsOne(r, l)
    ensures e.data.Get(l) == "" ==> r == e
  {
    if e.data.Get(l) != "" then e.(text := e.data.Get(l)) else e
  }

  /** The whole `forEach`, element by element in document order. */
  function ApplyAll(s: seq<Translatable>, l: Lang): (r: seq<Translatable>)
    ensures |r| == |s|
  {
    if s == [] then [] else [Apply(s[0], l)] + ApplyAll(s[1..], l)
  }

  /**
   * `document.title` after the title step of `updateLanguageElements`: it
   * changes only when a translatable title exists and its variant is
   * non-empty, and then it becomes that variant.
   */
  function TitleAfter(title: string, source: Option<Bilingual>, l: Lang): (r: string)
    ensures source.Some? && source.value.Get(l) != "" ==> r == source.value.Get(l)
    ensures source.None? || source.value.Get(l) == "" ==> r == title
  {
    match source
    case None => title
    case Some(b) => Apply(Translatable(b, title), l).text
  }

  /** Element `e` already shows its `l` variant wherever it has one. */
  predicate ShowsOne(e: Translatable, l: Lang)
  {
    e.data.Get(l) != "" ==> e.text == e.data.Get(l)
  }

  /** Every element already shows its `l` variant wherever it has one. */
  predicate Shows(s: seq<Translatable>, l: Lang)
  {
    forall i :: 0 <= i < |s| ==> ShowsOne(s[i], l)
  }

  /**
   * Switching away from `l` and back leaves `e` as it was: it shows its `l`
   * variant, or it has none and the other variant does not overwrite its text.
   */
  predicate Restores(e: Translatable, l: Lang)
  {
    if e.data.Get(l) != "" then e.text == e.data.Get(l)
    else e.data.Get(Flip(l)) == "" || e.data.Get(Flip(l)) == e.text
  }

  /** Every element of a translatable list has both variants non-empty. */
  predicate Complete(s: seq<Translatable>)
  {
    forall i :: 0 <= i < |s| ==> s[i].data.en != "" && s[i].data.de != ""
  }

  /**
   * Element `i` after the update is element `i` with its `l` variant written
   * in when non-empty, and otherwise untouched; the variants never change.
   */
  lemma {:induction false} ApplyAllAt(s: seq<Translatable>, l: Lang, i: nat)
    requires i < |s|
    ensures ApplyAll(s, l)[i].data == s[i].data
    ensures ApplyAll(s, l)[i].text == if s[i].data.Get(l) != "" then s[i].data.Get(l) else s[i].text
  {
    if i > 0 {
      ApplyAllAt(s[1..], l, i - 1);
    }
  }

  /** A list is its own update exactly when it already shows that language. */
  lemma {:induction false} ApplyAllFixedIff(s: seq<Translatable>, l: Lang)
    ensures ApplyAll(s, l) == s <==> Shows(s, l)
  {
    if s != [] {
      ApplyAllFixedIff(s[1..], l);
      assert s == [s[0]] + s[1..];
      if Shows(s, l) {
        assert Shows(s[1..], l) by {
          forall i | 0 <= i < |s[1..]| ensures ShowsOne(s[1..][i], l) {
            assert s[1..][i] == s[i + 1];
          }
        }
      }
      if ApplyAll(s, l) == s {
        forall i | 0 <= i < |s| ensures ShowsOne(s[i], l) {
          ApplyAllAt(s, l, i);
        }
      }
    }
  }

  /** After the update every element shows the language just applied. */
  lemma ApplyAllShows(s: seq<Translatable>, l: Lang)
    ensures Shows(ApplyAll(s, l), l)
  {
    forall i | 0 <= i < |s| ensures ShowsOne(ApplyAll(s, l)[i], l) {
      ApplyAllAt(s, l, i);
    }
  }

  /** Applying the same language twice is the same as applying it once. */
  lemma ApplyAllIdempotent(s: seq<Translatable>, l: Lang)
    ensures ApplyAll(ApplyAll(s, l), l) == ApplyAll(s, l)
  {
    ApplyAllShows(s, l);
    ApplyAllFixedIff(ApplyAll(s, l), l);
  }

  /**
   * Toggling to the other language and back restores every text exactly when
   * every element satisfies `Restores`.
   */
  lemma {:induction false} ToggleTwiceRestoresIff(s: seq<Translatable>, l: Lang)
    ensures ApplyAll(ApplyAll(s, Flip(l)), l) == s <==> forall i :: 0 <= i < |s| ==> Restores(s[i], l)
  {
    var twice := ApplyAll(ApplyAll(s, Flip(l)), l);
    forall i | 0 <= i < |s|
      ensures twice[i] == s[i] <==> Restores(s[i], l)
    {
      ApplyAllAt(s, Flip(l), i);
      ApplyAllAt(ApplyAll(s, Flip(l)), l, i);
    }
    if forall i :: 0 <= i < |s| ==> Restores(s[i], l) {
      assert twice == s;
    }
  }

  /**
   * With complete markup (both variants non-empty everywhere) and the page
   * showing `l`, toggling twice restores every text.
   */
  lemma CompleteMarkupRestores(s: seq<Translatable>, l: Lang)
    requires Complete(s)
    requires Shows(s, l)
    ensures ApplyAll(ApplyAll(s, Flip(l)), l) == s
  {
    forall i | 0 <= i < |s| ensures Restores(s[i], l) {
      assert ShowsOne(s[i], l);
    }
    ToggleTwiceRestoresIff(s, l);
  }

  /**
   * An element with an empty `data-en` and a non-empty `data-de` keeps the
   * German text after a switch to German and back.
   */
  lemma EmptyVariantNotRestored()
    ensures var e := Translatable(Bilingual("", "Hallo"), "Hello");
            ApplyAll(ApplyAll([e], De), En) == [Translatable(Bilingual("", "Hallo"), "Hallo")]
  {
  }
}
