/**
 * The page controller created on `DOMContentLoaded`: the stored language, the
 * translatable elements, the document's `lang` and title, the toggle label,
 * and the mobile menu's visibility and icon, changed by the event handlers.
 */
module Page {
  import opened Options
  import opened Language
  import opened Menu

  class PageController {
    /** `currentLanguage` */
    var current: Lang
    /** The nodes matched by `[data-en][data-de]`, in document order. */
    const elements: array<Translatable>
    /** The variants of `title[data-en][data-de]`, if the page has one. */
    const titleSource: Option<Bilingual>
    /** `document.documentElement.lang` */
    var documentLang: string
    /** `document.title` */
    var title: string
    /** `langToggle.textContent` */
    var toggleLabel: string
    /** Whether `mobileMenu` carries the `hidden` class. */
    var menuHidden: bool
    /** The glyph drawn in `mobileMenuBtn`. */
    var menuIcon: Icon

    /** The page as the markup delivers it; the stored language starts as 'en'. */
    constructor (elements: array<Translatable>, titleSource: Option<Bilingual>, documentLang: string,
                 title: string, toggleLabel: string, menuHidden: bool, menuIcon: Icon)
      ensures current == En
      ensures this.elements == elements && this.titleSource == titleSource
      ensures this.documentLang == documentLang && this.title == title && this.toggleLabel == toggleLabel
      ensures this.menuHidden == menuHidden && this.menuIcon == menuIcon
    {
      current := En;
      this.elements := elements;
      this.titleSource := titleSource;
      this.documentLang := documentLang;
      this.title := title;
      this.toggleLabel := toggleLabel;
      this.menuHidden := menuHidden;
      this.menuIcon := menuIcon;
    }

    ghost function Menu(): MenuState
      reads this
    {
      MenuState(menuHidden, menuIcon)
    }

    /** Everything on display agrees with the stored language. */
    ghost predicate InSync()
      reads this, elements
    {
      && documentLang == Code(current)
      && toggleLabel == Label(current)
      && Shows(elements[..], current)
      && TitleAfter(title, titleSource, current) == title
    }

    /**
     * `updateLanguageElements(lang)`: writes each non-empty `data-<lang>` into
     * its element, the title's into `document.title`, and sets the document's
     * `lang`. The stored language and the label are not touched.
     */
    method UpdateLanguageElements(lang: Lang)
      modifies elements, this`documentLang, this`title
      ensures elements[..] == ApplyAll(old(elements[..]), lang)
      ensures title == TitleAfter(old(title), titleSource, lang)
      ensures documentLang == Code(lang)
      ensures current == old(current) && toggleLabel == old(toggleLabel)
    {
      var i := 0;
      while i < elements.Length
        modifies elements
        invariant 0 <= i <= elements.Length
        invariant forall k :: 0 <= k < i ==> elements[k] == Apply(old(elements[k]), lang)
        invariant forall k :: i <= k < elements.Length ==> elements[k] == old(elements[k])
      {
        var text := elements[i].data.Get(lang);
        if text != "" {
          elements[i] := elements[i].(text := text);
        }
        i := i + 1;
      }
      ghost var was := old(elements[..]);
      forall k | 0 <= k < elements.Length ensures elements[..][k] == ApplyAll(was, lang)[k] {
        ApplyAllAt(was, lang, k);
      }

      match titleSource {
        case Some(b) =>
          var titleText := b.Get(lang);
          if titleText != "" {
            title := titleText;
          }
        case None =>
      }

      documentLang := Code(lang);
    }

    /**
     * `toggleLanguage`, taken as one step: flips the stored language, applies
     * it to the page and writes its upper-case code into the toggle control.
     */
    method ToggleLanguage()
      modifies elements, this`current, this`documentLang, this`title, this`toggleLabel
      ensures current == Flip(old(current))
      ensures elements[..] == ApplyAll(old(elements[..]), current)
      ensures title == TitleAfter(old(title), titleSource, current)
      ensures documentLang == Code(current)
      ensures toggleLabel == Label(current)
      ensures InSync()
    {
      current := Flip(current);
      UpdateLanguageElements(current);
      toggleLabel := Label(current);
      ApplyAllShows(old(elements[..]), current);
    }

    /**
     * The `beforeprint` handler: with German stored, the page is rewritten in
     * English while the stored language and the label stay German; with
     * English stored, nothing happens.
     */
    method BeforePrint()
      modifies elements, this`documentLang, this`title
      ensures current == old(current) && toggleLabel == old(toggleLabel)
      ensures current == De ==> elements[..] == ApplyAll(old(elements[..]), En)
                                && title == TitleAfter(old(title), titleSource, En)
                                && documentLang == "en"
      ensures current == De ==> Shows(elements[..], En) && !InSync()
      ensures current == En ==> elements[..] == old(elements[..])
                                && title == old(title) && documentLang == old(documentLang)
    {
      if current == De {
        UpdateLanguageElements(En);
        ApplyAllShows(old(elements[..]), En);
      }
    }

    /** The menu button's click handler. */
    method ClickMenuButton()
      modifies this`menuHidden, this`menuIcon
      ensures Menu() == Step(old(Menu()), ButtonClick)
      ensures menuHidden == !old(menuHidden)
      ensures menuIcon == Hamburger <==> menuHidden
    {
      menuHidden := !menuHidden;
      menuIcon := IconFor(menuHidden);
    }

    /** The click handler of every `.mobile-nav-link`. */
    method ClickMobileNavLink()
      modifies this`menuHidden, this`menuIcon
      ensures Menu() == Step(old(Menu()), NavLinkClick)
      ensures menuHidden && menuIcon == Hamburger
    {
      menuHidden, menuIcon := Closed.hidden, Closed.icon;
    }

    /**
     * The document-wide click handler. Whether the target lies inside the menu
     * or inside its button is given, as `contains` would report it.
     */
    method ClickDocument(insideMenu: bool, insideButton: bool)
      modifies this`menuHidden, this`menuIcon
      ensures !insideMenu && !insideButton ==> Menu() == Step(old(Menu()), OutsideClick)
      ensures !insideMenu && !insideButton ==> menuHidden && menuIcon == Hamburger
      ensures insideMenu || insideButton ==> Menu() == old(Menu())
    {
      if !insideMenu && !insideButton {
        menuHidden, menuIcon := Closed.hidden, Closed.icon;
      }
    }

    /**
     * The `keydown` handler: Ctrl with the key `l` toggles the language, and
     * Escape closes the menu when it is open. The two checks are independent.
     */
    method KeyDown(ctrlKey: bool, key: string)
      modifies elements, this`current, this`documentLang, this`title, this`toggleLabel
      modifies this`menuHidden, this`menuIcon
      ensures ctrlKey && key == "l" ==> current == Flip(old(current))
                                        && elements[..] == ApplyAll(old(elements[..]), current)
                                        && title == TitleAfter(old(title), titleSource, current)
                                        && documentLang == Code(current)
                                        && toggleLabel == Label(current)
      ensures !(ctrlKey && key == "l") ==> current == old(current) && elements[..] == old(elements[..])
                                           && title == old(title) && documentLang == old(documentLang)
                                           && toggleLabel == old(toggleLabel)
      ensures key == "Escape" ==> Menu() == Step(old(Menu()), EscapeKey)
      ensures key != "Escape" ==> Menu() == old(Menu())
    {
      if ctrlKey && key == "l" {
        ToggleLanguage();
      }
      if key == "Escape" && !menuHidden {
        menuHidden, menuIcon := Closed.hidden, Closed.icon;
      }
    }
  }

  /**
   * Two toggles in a row, from any page, even one `beforeprint` left out of
   * sync: the stored language comes back; the document `lang` and the label
   * come back exactly when they agreed with the stored language; every text
   * comes back exactly when every element satisfies `Restores`, and the title
   * exactly when it does.
   */
  method ToggleTwice(p: PageController)
    modifies p.elements, p`current, p`documentLang, p`title, p`toggleLabel
    ensures p.current == old(p.current)
    ensures p.documentLang == old(p.documentLang) <==> old(p.documentLang) == Code(old(p.current))
    ensures p.toggleLabel == old(p.toggleLabel) <==> old(p.toggleLabel) == Label(old(p.current))
    ensures p.elements[..] == old(p.elements[..])
            <==> forall i :: 0 <= i < p.elements.Length ==> Restores(old(p.elements[i]), old(p.current))
    ensures p.title == old(p.title)
            <==> (p.titleSource.Some? ==> Restores(Translatable(p.titleSource.value, old(p.title)), old(p.current)))
  {
    ghost var s := p.elements[..];
    ghost var l := p.current;
    p.ToggleLanguage();
    p.ToggleLanguage();
    ToggleTwiceRestoresIff(s, l);
    assert forall i :: 0 <= i < |s| ==> s[i] == old(p.elements[i]);
  }
}
