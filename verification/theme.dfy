/** Theme persistence: the `dark` class on the root element, the value saved
    under the `theme` key of `localStorage`, and the sun/moon icon inside each
    `[data-theme-toggle]` button. */
module Theme {
  import opened Wrappers
  import opened Dom

  const DarkClass: string := "dark"
  const DarkTheme: string := "dark"
  const LightTheme: string := "light"
  const SunGlyph: string := "fa-sun"
  const MoonGlyph: string := "fa-moon"

  /** A theme-toggle button and its `<i>` icon, when it holds one. */
  datatype ThemeButton = ThemeButton(icon: Option<ClassList>)

  /** The root element's classes, the stored `theme` value (`None` for a
      missing key) and the toggle buttons in document order. */
  datatype ThemePage = ThemePage(root: ClassList, stored: Option<string>, buttons: seq<ThemeButton>)

  predicate IsDark(p: ThemePage)
  {
    DarkClass in p.root
  }

  /** Every button that has an icon shows the sun when `dark` and the moon otherwise. */
  ghost predicate IconsShow(dark: bool, buttons: seq<ThemeButton>)
  {
    forall i :: 0 <= i < |buttons| && buttons[i].icon.Some? ==>
      (SunGlyph in buttons[i].icon.value <==> dark) && (MoonGlyph in buttons[i].icon.value <==> !dark)
  }

  /** `localStorage.getItem('theme') || 'light'`: a missing or empty value reads as light. */
  function SavedTheme(stored: Option<string>): (theme: string)
    ensures theme != ""
    ensures stored.None? || stored.value == "" ==> theme == LightTheme
    ensures stored.Some? && stored.value != "" ==> theme == stored.value
  {
    if stored.None? || stored.value == "" then LightTheme else stored.value
  }

  /** The icon of one button after `updateThemeIcons(theme)`. */
  function UpdateIcon(theme: string, b: ThemeButton): (r: ThemeButton)
    ensures r.icon.Some? <==> b.icon.Some?
    ensures b.icon.Some? ==>
      (SunGlyph in r.icon.value <==> theme == DarkTheme) &&
      (MoonGlyph in r.icon.value <==> theme != DarkTheme) &&
      r.icon.value - {SunGlyph, MoonGlyph} == b.icon.value - {SunGlyph, MoonGlyph}
  {
    match b.icon
    case None => b
    case Some(icon) =>
      if theme == DarkTheme then ThemeButton(Some(SwapClass(icon, MoonGlyph, SunGlyph)))
      else ThemeButton(Some(SwapClass(icon, SunGlyph, MoonGlyph)))
  }

  /** `updateThemeIcons(theme)`: every button with an icon comes to show the
      sun exactly when `theme` is `'dark'`; buttons without one are untouched. */
  function UpdateThemeIcons(theme: string, buttons: seq<ThemeButton>): (r: seq<ThemeButton>)
    ensures |r| == |buttons|
    ensures IconsShow(theme == DarkTheme, r)
    ensures forall i :: 0 <= i < |buttons| ==> (r[i].icon.Some? <==> buttons[i].icon.Some?)
    ensures forall i :: 0 <= i < |buttons| && buttons[i].icon.Some? ==>
      r[i].icon.value - {SunGlyph, MoonGlyph} == buttons[i].icon.value - {SunGlyph, MoonGlyph}
  {
    if buttons == [] then []
    else [UpdateIcon(theme, buttons[0])] + UpdateThemeIcons(theme, buttons[1..])
  }

  /** Updating twice is the same as updating once with the later theme. */
  lemma {:induction false} UpdateLastWins(t1: string, t2: string, buttons: seq<ThemeButton>)
    ensures UpdateThemeIcons(t2, UpdateThemeIcons(t1, buttons)) == UpdateThemeIcons(t2, buttons)
    decreases |buttons|
  {
    if buttons != [] {
      var once := UpdateThemeIcons(t1, buttons);
      assert once[1..] == UpdateThemeIcons(t1, buttons[1..]);
      UpdateLastWins(t1, t2, buttons[1..]);
      if buttons[0].icon.Some? {
        var icon := buttons[0].icon.value;
        SwapClassLastWins(icon, MoonGlyph, SunGlyph);
        SwapClassLastWins(icon, SunGlyph, MoonGlyph);
      }
    }
  }

  /** Updating buttons that already show the theme changes nothing. */
  lemma {:induction false} UpdateShownIsIdentity(theme: string, buttons: seq<ThemeButton>)
    requires IconsShow(theme == DarkTheme, buttons)
    ensures UpdateThemeIcons(theme, buttons) == buttons
    decreases |buttons|
  {
    if buttons != [] {
      assert IconsShow(theme == DarkTheme, buttons[1..]) by {
        forall i | 0 <= i < |buttons[1..]| && buttons[1..][i].icon.Some?
          ensures (SunGlyph in buttons[1..][i].icon.value <==> theme == DarkTheme)
          ensures (MoonGlyph in buttons[1..][i].icon.value <==> theme != DarkTheme)
        {
          assert buttons[1..][i] == buttons[i + 1];
        }
      }
      UpdateShownIsIdentity(theme, buttons[1..]);
      if buttons[0].icon.Some? {
        var icon := buttons[0].icon.value;
        if theme == DarkTheme {
          SwapClassShown(icon, MoonGlyph, SunGlyph);
        } else {
          SwapClassShown(icon, SunGlyph, MoonGlyph);
        }
      }
      assert buttons == [buttons[0]] + buttons[1..];
    }
  }

  /** `initTheme()`: applies the saved theme to the root and the icons and
      leaves storage as it found it. */
  function InitTheme(p: ThemePage): (r: ThemePage)
    ensures r.stored == p.stored
    ensures IsDark(r) <==> p.stored == Some(DarkTheme)
    ensures r.root - {DarkClass} == p.root - {DarkClass}
    ensures IconsShow(IsDark(r), r.buttons)
    ensures |r.buttons| == |p.buttons|
    ensures forall i :: 0 <= i < |p.buttons| ==> (r.buttons[i].icon.Some? <==> p.buttons[i].icon.Some?)
    ensures forall i :: 0 <= i < |p.buttons| && p.buttons[i].icon.Some? ==>
      r.buttons[i].icon.value - {SunGlyph, MoonGlyph} == p.buttons[i].icon.value - {SunGlyph, MoonGlyph}
  {
    var theme := SavedTheme(p.stored);
    var root := if theme == DarkTheme then AddClass(p.root, DarkClass) else RemoveClass(p.root, DarkClass);
    ThemePage(root, p.stored, UpdateThemeIcons(theme, p.buttons))
  }

  /** `toggleTheme()`: flips the root's `dark` class, saves the new theme
      and updates the icons to it. */
  function ToggleTheme(p: ThemePage): (r: ThemePage)
    ensures IsDark(r) <==> !IsDark(p)
    ensures r.root - {DarkClass} == p.root - {DarkClass}
    ensures r.stored == Some(if IsDark(r) then DarkTheme else LightTheme)
    ensures IconsShow(IsDark(r), r.buttons)
    ensures |r.buttons| == |p.buttons|
    ensures forall i :: 0 <= i < |p.buttons| ==> (r.buttons[i].icon.Some? <==> p.buttons[i].icon.Some?)
    ensures forall i :: 0 <= i < |p.buttons| && p.buttons[i].icon.Some? ==>
      r.buttons[i].icon.value - {SunGlyph, MoonGlyph} == p.buttons[i].icon.value - {SunGlyph, MoonGlyph}
  {
    if IsDark(p) then
      ThemePage(RemoveClass(p.root, DarkClass), Some(LightTheme), UpdateThemeIcons(LightTheme, p.buttons))
    else
      ThemePage(AddClass(p.root, DarkClass), Some(DarkTheme), UpdateThemeIcons(DarkTheme, p.buttons))
  }

  /** The page agrees with itself: the stored value names the root's theme
      and the icons show it. */
  ghost predicate Consistent(p: ThemePage)
  {
    p.stored == Some(if IsDark(p) then DarkTheme else LightTheme) && IconsShow(IsDark(p), p.buttons)
  }

  /** Two toggles give back the root's class list. */
  lemma ToggleTwiceRestoresRoot(p: ThemePage)
    ensures ToggleTheme(ToggleTheme(p)).root == p.root
  {
  }

  /** Two toggles from a consistent page give back the whole page: root,
      stored value and icons. */
  lemma ToggleTwiceRestoresPage(p: ThemePage)
    requires Consistent(p)
    ensures ToggleTheme(ToggleTheme(p)) == p
  {
    ToggleTwiceRestoresRoot(p);
    var theme := if IsDark(p) then DarkTheme else LightTheme;
    var other := if IsDark(p) then LightTheme else DarkTheme;
    assert ToggleTheme(p).buttons == UpdateThemeIcons(other, p.buttons);
    UpdateLastWins(other, theme, p.buttons);
    UpdateShownIsIdentity(theme, p.buttons);
  }

  /** A toggle leaves the page consistent, so reloading it restores the
      theme the user chose. */
  lemma ToggleThenReloadKeepsTheme(p: ThemePage)
    ensures Consistent(ToggleTheme(p))
    ensures InitTheme(ToggleTheme(p)) == ToggleTheme(p)
  {
    var q := ToggleTheme(p);
    var theme := if IsDark(q) then DarkTheme else LightTheme;
    UpdateShownIsIdentity(theme, q.buttons);
    var r := InitTheme(q);
    assert r.root == q.root by {
      assert r.root - {DarkClass} == q.root - {DarkClass};
      assert DarkClass in r.root <==> DarkClass in q.root;
      assert forall c :: c in r.root <==> c in q.root by {
        assert forall c :: c != DarkClass ==> (c in r.root <==> c in r.root - {DarkClass});
      }
    }
  }

  /** Running `initTheme` twice is the same as running it once. */
  lemma InitThemeIdempotent(p: ThemePage)
    ensures InitTheme(InitTheme(p)) == InitTheme(p)
  {
    var q := InitTheme(p);
    UpdateLastWins(SavedTheme(p.stored), SavedTheme(p.stored), p.buttons);
  }

}
