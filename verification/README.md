# CertiLearn page script, modelled in Dafny

The page script `assets/js/main.js` of the CertiLearn course site does five
cosmetic things. It scrolls smoothly to in-page anchors. It opens and closes the
mobile menu. It puts a loading state on submit buttons. It highlights the
navigation link of the current page. It keeps a light/dark theme in
`localStorage`. This project models the part of that script with logic of its
own, as pure functions over immutable records, and proves what it promises:

- **Active navigation highlighting** (`ActiveMenu`). The current page's file
  name comes from the path. Each link's href goes through `normalizeHref`. The
  per-link rule of `setActiveLink` marks a link, and for a dropdown entry also
  the dropdown's trigger, with the `active-menu` class. JavaScript's
  `split(c).pop()` and `split(c)[0]` are modelled in `JsString` by a `Split`
  that joins back to its input and is the only such decomposition.
- **Email validation** (`Email`). The regular expression
  `^[^\s@]+@[^\s@]+\.[^\s@]+$` is written twice: once as a ghost predicate that
  follows its structure (three runs and two separators), once as the check
  `ValidateEmail` computes. The two are proved equal. `\s` is the full
  ECMAScript whitespace set: WhiteSpace plus LineTerminator, including the
  Unicode space separators and U+FEFF.
- **Mobile menu** (`MobileMenu`). This is the panel's `hidden` class and the
  bars/times icon.
- **Theme** (`Theme`). This is the root element's `dark` class, the stored
  `theme` value, and the sun/moon icon of every `[data-theme-toggle]` button.

DOM class lists are sets of class names (`Dom.ClassList`). `classList.add`,
`remove` and `toggle` are the set operations in `Dom`. An element that a lookup
may fail to find is an `Option`, and `None` takes the source's null-guarded
branch. The `theme` slot of `localStorage` is the `stored` field of
`Theme.ThemePage`, with `None` for a missing key. `window.location.pathname` is
a parameter of `CurrentPage`.

Points where the code is more precise than a plain reading suggests:

- The two paths apply the `index.html` default in opposite orders. The current
  page defaults the raw segment and then strips `?`/`#`. `normalizeHref` strips
  first and defaults afterwards. So a raw segment such as `?x` gives an empty
  current page, while the same string as an href normalises to `index.html`
  (`ActiveMenu.DefaultOrderAsymmetry`, `ActiveMenu.QueryOnlySegment`). A real
  `location.pathname` never holds `?` or `#`, so this is not a defect.
- A normalised href is `index.html` when the stripped segment is empty, but also
  when it is literally `index.html`. The contract of `ActiveMenu.NormalizeHref`
  states both cases.
- Two theme toggles restore the root's classes on every page. They restore the
  stored value only when it already named the root's theme
  (`Theme.ToggleTwiceRestoresPage` requires `Theme.Consistent`). From a page with
  no stored value, two toggles leave `'light'` or `'dark'` stored. The mobile
  menu is the same: its icon comes back only if it matched the panel to begin
  with.

## Model

| member | source | states |
|---|---|---|
| JsString.Split | assets/js/main.js:105 | `split` on one character gives at least one piece, no piece holds the separator, and the pieces join back to the input |
| JsString.SplitUnique | assets/js/main.js:111 | any separator-free list of pieces that joins back to the input is exactly what `split` returns |
| JsString.LastPiece | assets/js/main.js:122 | `split(c).pop()` is a suffix of the input without `c`, and either the whole input or preceded by `c` |
| JsString.FirstPiece | assets/js/main.js:123 | `split(c)[0]` is a prefix of the input without `c`, and either the whole input or followed by `c` |
| ActiveMenu.FileName | assets/js/main.js:105 | the last path segment has no `/` and is what follows the last `/` (the whole path when there is none) |
| ActiveMenu.StripQueryAndFragment | assets/js/main.js:111 | cutting at `?` and then at `#` gives the longest prefix with neither, i.e. the cut at whichever comes first |
| ActiveMenu.CurrentPage | assets/js/main.js:105-111 | the current page has no `/`, `?` or `#`; it is `index.html` for an empty raw segment, the stripped segment otherwise, and empty exactly when the raw segment starts with `?` or `#` |
| ActiveMenu.NormalizeHref | assets/js/main.js:118-125 | null exactly for an absent, empty, `#`-prefixed or `javascript:void(0)` href; otherwise non-empty with no `/`, `?` or `#`, equal to the stripped last segment when that is non-empty, and `index.html` exactly when the stripped segment is empty or is `index.html` |
| ActiveMenu.IsIgnoredHref | assets/js/main.js:119 | the hrefs `normalizeHref` refuses: absent, empty, starting with `#`, or exactly `javascript:void(0)` |
| ActiveMenu.LinkMatches | assets/js/main.js:134 | the match rule: the normalised href is present and equals the current page; a match implies the href is not ignored and the page is a non-empty name without `/`, `?` or `#` |
| ActiveMenu.MarkActive | assets/js/main.js:136 | `classList.add('active-menu')`: the link keeps its href, gains the marker, and keeps every other class |
| ActiveMenu.EmptyPageMatchesNothing | assets/js/main.js:134 | an empty current page matches no link |
| ActiveMenu.NormalizeFixedPoint | assets/js/main.js:118-125 | a normalised name other than `javascript:void(0)` normalises to itself |
| ActiveMenu.SelfLinkMatches | assets/js/main.js:105-125 | a link whose href is the page's own path matches the current page whenever the path is not an ignored href (absent, empty, `#`-prefixed or `javascript:void(0)`) and the current page is non-empty; the path `""` gives current page `index.html` but is itself an ignored href |
| ActiveMenu.DefaultOrderAsymmetry | assets/js/main.js:105-124 | when the raw segment starts with `?` or `#` the current page is empty, the same string as an href normalises to `index.html`, and the link is not active |
| ActiveMenu.QueryOnlySegment | assets/js/main.js:105-124 | on the path `/?x` the segment is `?x`, the current page is empty and the href normalises to `index.html` |
| ActiveMenu.SetActiveLink | assets/js/main.js:128-151 | returns true iff the link exists and its normalised href equals the current page; on true the link gains `active-menu`, on false link and parent are unchanged; the parent gains the marker iff the link matched, it is a dropdown item and the parent was found |
| ActiveMenu.MarkLinks | assets/js/main.js:157-163 | one pass of `setActiveLink` over a list of links keeps every href and every other class, and a link ends up marked iff it was marked before or it matches the current page |
| Email.ValidateEmail | assets/js/main.js:40-43 | accepts exactly the strings of the form run `@` run `.` run, each run non-empty and free of whitespace and `@` |
| Email.ValidateEmailShape | assets/js/main.js:41 | accepts exactly the strings with no whitespace and exactly one `@`, with something before it and a `.` after it that is neither the first nor the last character of the part after the `@` |
| Email.AcceptsSimpleAddress | assets/js/main.js:41 | `a@b.c` is accepted |
| Email.RejectsEmptyLocalPart | assets/js/main.js:41 | `@b.c` is refused |
| Email.RejectsSecondAt | assets/js/main.js:41 | `a@b@c.d` is refused |
| Email.RejectsTrailingDot | assets/js/main.js:41 | `a@bc.` is refused |
| Email.RejectsSpace | assets/js/main.js:41 | `a b@c.d` is refused |
| MobileMenu.ShowState | assets/js/main.js:27-33 | after the glyph swap the icon has `fa-bars` iff hidden and `fa-times` iff shown, with every other class kept |
| MobileMenu.ToggleMobileMenu | assets/js/main.js:18-37 | without a panel nothing changes; otherwise `hidden` flips, no other panel class changes, and an icon that exists shows bars iff hidden and a cross iff shown; a button without an icon is untouched |
| MobileMenu.ToggleTwiceRestoresMenu | assets/js/main.js:22 | two calls restore the panel's class list |
| MobileMenu.ToggleTwiceRestoresPage | assets/js/main.js:21-33 | two calls from a page whose icon matches its panel restore the whole page |
| MobileMenu.ToggleTimesParity | assets/js/main.js:22 | after `n` calls the panel is hidden iff it started hidden and `n` is even |
| MobileMenu.ToggleEvenRestores | assets/js/main.js:18-37 | an even number of calls from a page whose icon matches its panel restores the page |
| Theme.SavedTheme | assets/js/main.js:216 | a missing or empty stored value reads as `light`, any other value as itself |
| Theme.UpdateIcon | assets/js/main.js:247-256 | an icon, if present, ends up with `fa-sun` iff the theme is `dark` and `fa-moon` otherwise, with every other class kept |
| Theme.UpdateThemeIcons | assets/js/main.js:244-258 | every button with an icon shows the sun iff the theme is `dark` and the moon otherwise; button count, icon presence and other classes are kept |
| Theme.UpdateLastWins | assets/js/main.js:244-258 | two icon updates in a row equal one update with the later theme |
| Theme.UpdateShownIsIdentity | assets/js/main.js:249-255 | updating icons that already show the theme changes nothing |
| Theme.InitTheme | assets/js/main.js:214-227 | storage is not written; the root is dark iff the stored value is exactly `dark`; no other root class changes; every button keeps its icon or lack of one, and each icon shows the sun iff the root is dark and the moon otherwise, with its other classes kept |
| Theme.ToggleTheme | assets/js/main.js:229-242 | the root's `dark` class flips and no other class changes; `dark` is stored iff the new state is dark, `light` otherwise; every button keeps its icon or lack of one, and each icon shows the sun iff the new state is dark and the moon otherwise, with its other classes kept |
| Theme.ToggleTwiceRestoresRoot | assets/js/main.js:229-241 | two toggles restore the root's class list |
| Theme.ToggleTwiceRestoresPage | assets/js/main.js:229-258 | two toggles from a consistent page restore root, stored value and icons |
| Theme.ToggleThenReloadKeepsTheme | assets/js/main.js:214-242 | after a toggle the page is consistent, and `initTheme` on it changes nothing, so a reload keeps the chosen theme |
| Theme.InitThemeIdempotent | assets/js/main.js:214-227 | running `initTheme` twice equals running it once |

## Left out

- Smooth scrolling (`assets/js/main.js:4-15`) is event wiring plus the browser's `scrollIntoView` animation. Beyond cancelling the default action it has no logic to state.
- The submit-button loading state (`assets/js/main.js:46-53`) depends on the browser's `checkValidity` and on `innerHTML`, which are outside the model.
- `addActiveMenuStyles` (`assets/js/main.js:56-100`) injects CSS text. Its one rule, at most one style element with that id, is DOM bookkeeping.
- The DOM traversal in `setActiveMenu` is left out (`assets/js/main.js:154-198`). That covers `querySelectorAll`, `closest`, the `#mobile-*-dropdown` selectors and the marking of a mobile dropdown's `BUTTON` sibling. Selector semantics belong to the browser. The links a pass visits are a parameter of `ActiveMenu.MarkLinks`. The dropdown trigger is a parameter of `ActiveMenu.SetActiveLink`.
- ActiveMenu.SetActiveLink: the trigger is a separate value, so the case where `querySelector('a:first-child')` returns the link itself is not modelled. In the source the link is then marked once, which gives the same classes.
- Page-lifecycle gating on `document.readyState` and `DOMContentLoaded`, and the `console.log` line, are left out (`assets/js/main.js:203-211, 261-268`). They are I/O.
- Storage access is taken to always succeed. In a browser, `localStorage.getItem` and `setItem` can throw (`SecurityError` when storage is blocked, `QuotaExceededError` when it is full). `toggleTheme` would then have flipped the root class at `assets/js/main.js:234` or `238` and stop at `setItem` on the next line, before `updateThemeIcons`, leaving root and icons disagreeing. `Theme.ToggleTheme` and `Theme.InitTheme` do not model that exception path.
- `localStorage` is reduced to its `theme` slot. No other key is read or written.
- Email.ValidateEmail: Dafny characters are Unicode scalar values, not the UTF-16 code units a JavaScript regular expression without the `u` flag reads. Neither half of a surrogate pair is whitespace or `@`, so the verdict is the same. The argument is taken to be a string already, so JavaScript's conversion of non-string arguments is not modelled.

