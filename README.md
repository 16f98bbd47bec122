# Portfolio page controller, modelled in Dafny

The portfolio site's script (`assets/js/script.js`) sets up one controller on
`DOMContentLoaded`. It holds a two-value language (`en`/`de`) and rewrites the
page's bilingual elements, the title, the document's `lang` and the toggle
label. It also drives a mobile menu (visibility plus a hamburger or close icon),
highlights the navigation link of the section under a scroll probe, and computes
where an in-page link scrolls to. This project models that logic without the
DOM:

- `options.dfy`: `Option`, the result of a DOM lookup that may find nothing.
- `language.dfy`: the languages, the `data-en`/`data-de` variants, and what one
  pass of `updateLanguageElements` does to a list of elements and to the title.
  It also has the lemmas about toggling back and forth.
- `menu.dfy`: the mobile menu as a pure state machine (`Step`, `Run`), with
  lemmas on double clicks, idempotent closes and icon consistency.
- `navigation.dfy`: the active-section scan (a loop proved against
  `ActiveSection`), the link highlighting (an in-place loop over an array of
  links) and the smooth-scroll target.
- `page.dfy`: class `PageController`. Its fields are the stored language, the
  array of translatable elements, the title, the document `lang`, the label and
  the menu state. The language, menu, keyboard and print handlers are its
  methods. The scroll handler and the smooth-scroll click handler touch no
  controller state, so they are `Navigation.UpdateActiveNav` and
  `Navigation.ScrollTarget`, outside the class.

Toggling twice does not always restore every element's text, although one
would expect it to; the model follows the code. `if (text)` skips an empty
variant, so an element with an empty
`data-en` and a non-empty `data-de` keeps the German text after switching to
German and back. `Language.ToggleTwiceRestoresIff` states exactly when two
toggles restore a list (the `Restores` predicate, both directions).
`Language.EmptyVariantNotRestored` is the concrete case.
`Language.CompleteMarkupRestores` shows that two toggles do restore when every
element has both variants non-empty and the page shows the stored language.

`getElementById('')` finds nothing under the DOM standard, so a bare `#` link
never scrolls (`Navigation.ElementById`). That same bare `#` link has the
fragment `''`, so it is highlighted whenever no section covers the probe.

## Model

| member | source | states |
|---|---|---|
| `Language.Flip` | assets/js/script.js:18 | the toggled language differs from the old one, and so does its code; with two values this fixes it |
| `Language.Label` | assets/js/script.js:20 | the label is the upper-cased code: `EN` for English, `DE` for German |
| `Language.ToUpper` | assets/js/script.js:20 | upper-casing keeps the length and maps every character through ASCII upper-casing |
| `Language.Apply` | assets/js/script.js:31-32 | one element after the update keeps its variants and shows its `data-<lang>` when that is non-empty; with an empty variant it is left exactly as it was |
| `Language.TitleAfter` | assets/js/script.js:35-39 | the title becomes `data-<lang>` only if a translatable title exists and that value is non-empty; otherwise it is unchanged |
| `Language.ApplyAll` | assets/js/script.js:30-33 | the `forEach` over the elements yields a list of the same length |
| `Language.ApplyAllAt` | assets/js/script.js:30-33 | after the update, element i keeps its variants; its text is its `data-<lang>` if that is non-empty, and is unchanged otherwise |
| `Language.ApplyAllFixedIff` | assets/js/script.js:30-33 | a list is left unchanged by the update iff every element already shows its non-empty variant of that language |
| `Language.ApplyAllShows` | assets/js/script.js:30-33 | after the update every element shows the applied language wherever it has a variant |
| `Language.ApplyAllIdempotent` | assets/js/script.js:28-33 | applying the same language twice is the same as applying it once |
| `Language.ToggleTwiceRestoresIff` | assets/js/script.js:18-19 | switching to the other language and back restores every text iff every element satisfies `Restores` |
| `Language.CompleteMarkupRestores` | assets/js/script.js:18-19 | with both variants non-empty everywhere and the page showing the stored language, two toggles restore every text |
| `Language.EmptyVariantNotRestored` | assets/js/script.js:31-32 | an element with empty `data-en` and non-empty `data-de` ends up showing the German text after de then en |
| `Page.PageController.constructor` | assets/js/script.js:4-7 | the stored language starts as English; every other field takes what the markup provides |
| `Page.PageController.UpdateLanguageElements` | assets/js/script.js:28-42 | the elements become `ApplyAll` of the old ones and the title becomes `TitleAfter` of the old title. The document `lang` becomes the code. The stored language and the label are unchanged |
| `Page.PageController.ToggleLanguage` | assets/js/script.js:14-26 | flips the stored language and applies it to the elements, title and `lang`. The label becomes the upper-case code. The page is then in sync with the stored language |
| `Page.ToggleTwice` | assets/js/script.js:14-26 | from any page, including one left out of sync by `beforeprint`, two toggles restore the stored language. The `lang` and the label are restored iff they matched the stored language. Every text is restored iff every element satisfies `Restores`, and the title iff it does |
| `Page.PageController.BeforePrint` | assets/js/script.js:128-130 | with German stored, the elements and title are rewritten in English and `lang` becomes `en`. The stored language and the label stay German, so the page is out of sync. With English stored, nothing changes |
| `Page.PageController.ClickMenuButton` | assets/js/script.js:45-51 | the menu's visibility flips, and afterwards the icon is Hamburger exactly when the menu is hidden |
| `Page.PageController.ClickMobileNavLink` | assets/js/script.js:54-60 | the menu ends hidden with the Hamburger icon |
| `Page.PageController.ClickDocument` | assets/js/script.js:63-69 | a click outside both menu and button closes the menu with the Hamburger icon; a click inside either leaves the menu as it was |
| `Page.PageController.KeyDown` | assets/js/script.js:115-125 | Ctrl with `l` has the full toggle effect, and any other key leaves the language state alone. Escape performs the Escape step of the menu, and any other key leaves the menu alone |
| `Menu.Step` | assets/js/script.js:45-69 | a button click flips `hidden` and the icon is then Hamburger iff the menu is hidden. A nav-link click or an outside click gives hidden with Hamburger. Escape (lines 120-123) gives that too on an open menu and changes nothing on a hidden one |
| `Menu.ButtonTwiceIff` | assets/js/script.js:46-50 | two button clicks restore the state iff the icon matched the visibility beforehand |
| `Menu.ClosesAreIdempotent` | assets/js/script.js:53-68 | a nav-link click, an outside click, and Escape (lines 120-123) on an open menu each leave it hidden with the Hamburger icon; repeating the event changes nothing |
| `Menu.RunPreservesConsistent` | assets/js/script.js:45-69 | every sequence of menu events keeps the icon in step with the visibility |
| `Menu.EvenClicksRestore` | assets/js/script.js:45-51 | an even number of button clicks restores a consistent menu's visibility and icon |
| `Menu.OddClicksToggle` | assets/js/script.js:45-51 | from any state, even one whose icon does not match its visibility, an odd number of button clicks acts like a single click |
| `Menu.Clicks` | assets/js/script.js:45-51 | n clicks are n button-click events |
| `Navigation.Covers` | assets/js/script.js:92 | a section the probe falls in (start inclusive, end exclusive) has positive height: a section of zero or negative height never matches |
| `Navigation.LastMatch` | assets/js/script.js:91-95 | gives nothing iff no section covers the probe. Otherwise it gives a covering section with no covering section after it in document order |
| `Navigation.ActiveSection` | assets/js/script.js:89-95 | `''` when no section covers the probe; otherwise the id of the last covering section in document order |
| `Navigation.ScanActiveSection` | assets/js/script.js:90-95 | the non-short-circuiting scan ends with `ActiveSection` of the sections at the probe |
| `Navigation.Fragment` | assets/js/script.js:97 | `substring(1)`: one character shorter than a non-empty href, and character i is the href's character i + 1; the empty href gives `''` |
| `Navigation.Highlight` | assets/js/script.js:97-99 | the link keeps its href and has exactly one of the two colour classes, the primary one iff its fragment equals the active id |
| `Navigation.HighlightLinks` | assets/js/script.js:96-100 | every link keeps its href. Its primary class is set iff its fragment equals the active id, and its gray class is the opposite |
| `Navigation.UpdateActiveNav` | assets/js/script.js:86-101 | the active id is `ActiveSection` at `Probe(scrollY, navbarHeight)`, i.e. `scrollY + navbarHeight + 100`, and every link is highlighted against it |
| `Navigation.BareHashHighlightedWhenNothingActive` | assets/js/script.js:90-99 | a bare `#` link is highlighted when no section covers the probe |
| `Navigation.ProbeExample` | assets/js/script.js:89-95 | a 64-pixel bar at offset 700 gives probe 864. `home` at [0, 800) is then not active; at [0, 1000) it is active and `#home` is highlighted |
| `Navigation.ElementById` | assets/js/script.js:76 | nothing is found iff the id is empty or no element has it; otherwise the first element with that id |
| `Navigation.ScrollTarget` | assets/js/script.js:75-81 | no scroll iff the fragment is empty or names no element; otherwise the scroll top is the first such element's `offsetTop - navbarHeight - 20` |

## Left out

- Timing: the two `setTimeout` delays and the `language-switching` class (lines 15-25). The outer delay also postpones the flip, the text rewrite and the label update by 150 ms. So the click or keydown handler returns with `currentLanguage` unchanged, and a `beforeprint` in that window still sees the old language. The model takes the deferred callback (lines 18-20) as the step and applies it at once in `ToggleLanguage` and `KeyDown`; that window is not modelled.
- The IntersectionObserver entrance animation (lines 106-112): a browser API driven by a fractional visibility threshold.
- Cosmetic or diagnostic side effects: the `load` handler's classes (lines 133-137), the `console.log` tracking of external links (lines 140-148) and the skip-link injection (lines 151-158).
- Browser actions: `window.scrollTo` and its smooth animation. `Navigation.ScrollTarget` returns the requested top instead.
- DOM plumbing: event dispatch and bubbling, `preventDefault`, `contains` hit-testing and CSS selector matching. These become inputs: method choice, the `insideMenu`/`insideButton` flags, and pre-selected element lists and arrays.
- Bubbling from the menu button to the document handler (lines 63-69). A click on the button also reaches the document-wide handler. The button handler's `icon.innerHTML` (line 48) replaces the `<path>` that may have been the click target. `mobileMenuBtn.contains(e.target)` could then be false, and the outside-click branch would close the menu again. `ClickDocument` takes `insideButton` as given, which assumes the target is still attached.
- No aliasing between the title element and `document.title`. The `<title>` node also matches `[data-en][data-de]`, and its text is the document title. The model keeps the title as a separate field. Both writes store the same value, so nothing observable is lost.
- No nesting of translatable elements: each node matched by `[data-en][data-de]` is taken to have its own independent text, with no translatable element inside another. `textContent = text` (line 32) replaces all of an element's children. With nesting, rewriting an inner element would also change the outer element's text even when the outer one's variant is empty. And an outer element rewritten first, as document order makes it, detaches the inner one, so the inner rewrite is never shown. `ApplyAllAt`, `ApplyAllShows`, `ToggleTwiceRestoresIff` and `CompleteMarkupRestores` describe pages without such nesting.
- The SVG path strings become the `Icon` enum.
- Geometry is in whole pixels, so fractional `scrollY` is not modelled.
- Language.ToUpper: upper-cases ASCII only. It is applied only to the codes `en` and `de`.
- Unguarded lookups of the required controls. A missing control would throw at start-up; the model takes every control as present.
