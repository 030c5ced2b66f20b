/** `toggleMobileMenu`: the `#mobile-menu` panel's `hidden` class and the
    hamburger icon inside the button that calls the function. */
module MobileMenu {
  import opened Wrappers
  import opened Dom

  const Hidden: string := "hidden"
  const BarsGlyph: string := "fa-bars"
  const TimesGlyph: string := "fa-times"

  /** The button's `<i>` icon, when the button holds one. */
  datatype MenuButton = MenuButton(icon: Option<ClassList>)

  /** The panel and its button; `None` where `getElementById` or
      `querySelector` finds nothing. */
  datatype MenuPage = MenuPage(menu: Option<ClassList>, button: Option<MenuButton>)

  predicate IsHidden(p: MenuPage)
    requires p.menu.Some?
  {
    Hidden in p.menu.value
  }

  /** The icon shows bars while the panel is hidden and a cross while it is shown. */
  predicate IconMatches(p: MenuPage)
    requires p.menu.Some?
  {
    p.button.Some? && p.button.value.icon.Some? ==>
      var icon := p.button.value.icon.value;
      (BarsGlyph in icon <==> IsHidden(p)) && (TimesGlyph in icon <==> !IsHidden(p))
  }

  /** The glyph swap the function applies once the panel has been toggled. */
  function ShowState(icon: ClassList, hidden: bool): (r: ClassList)
    ensures BarsGlyph in r <==> hidden
    ensures TimesGlyph in r <==> !hidden
    ensures r - {BarsGlyph, TimesGlyph} == icon - {BarsGlyph, TimesGlyph}
  {
    if hidden then SwapClass(icon, TimesGlyph, BarsGlyph) else SwapClass(icon, BarsGlyph, TimesGlyph)
  }

  /** `toggleMobileMenu()`. */
  function ToggleMobileMenu(p: MenuPage): (r: MenuPage)
    ensures p.menu.None? ==> r == p
    ensures r.menu.Some? <==> p.menu.Some?
    ensures p.menu.Some? ==> (IsHidden(r) <==> !IsHidden(p))
    ensures p.menu.Some? ==> r.menu.value - {Hidden} == p.menu.value - {Hidden}
    ensures r.button.Some? <==> p.button.Some?
    ensures r.button.Some? ==> (r.button.value.icon.Some? <==> p.button.value.icon.Some?)
    ensures p.menu.Some? ==> IconMatches(r)
    ensures p.menu.Some? && p.button.Some? && p.button.value.icon.Some? ==>
      r.button.value.icon.value - {BarsGlyph, TimesGlyph} == p.button.value.icon.value - {BarsGlyph, TimesGlyph}
    ensures p.button.Some? && p.button.value.icon.None? ==> r.button == p.button
  {
    match p.menu
    case None => p
    case Some(m) =>
      var m' := ToggleClass(m, Hidden);
      var hidden := Hidden in m';
      var b' := match p.button
        case None => None
        case Some(b) =>
          match b.icon
          case None => Some(b)
          case Some(icon) => Some(MenuButton(Some(ShowState(icon, hidden))));
      MenuPage(Some(m'), b')
  }

  /** Two calls give back the panel's original class list. */
  lemma ToggleTwiceRestoresMenu(p: MenuPage)
    ensures ToggleMobileMenu(ToggleMobileMenu(p)).menu == p.menu
  {
    if p.menu.Some? {
      ToggleClassTwice(p.menu.value, Hidden);
    }
  }

  /** From a page whose icon already matches the panel, two calls change nothing. */
  lemma ToggleTwiceRestoresPage(p: MenuPage)
    requires p.menu.Some? && IconMatches(p)
    ensures ToggleMobileMenu(ToggleMobileMenu(p)) == p
  {
    ToggleTwiceRestoresMenu(p);
    var q := ToggleMobileMenu(ToggleMobileMenu(p));
    if p.button.Some? && p.button.value.icon.Some? {
      var icon := p.button.value.icon.value;
      var back := q.button.value.icon.value;
      assert back - {BarsGlyph, TimesGlyph} == icon - {BarsGlyph, TimesGlyph};
      assert BarsGlyph in back <==> BarsGlyph in icon;
      assert TimesGlyph in back <==> TimesGlyph in icon;
      assert back == icon by {
        assert forall c :: c in back <==> c in icon by {
          assert forall c :: c != BarsGlyph && c != TimesGlyph ==>
            (c in back <==> c in back - {BarsGlyph, TimesGlyph});
        }
      }
    }
  }

  /** `n` successive calls. */
  function ToggleTimes(p: MenuPage, n: nat): MenuPage
  {
    if n == 0 then p else ToggleMobileMenu(ToggleTimes(p, n - 1))
  }

  /** Each call flips the panel once: after `n` calls it is hidden exactly
      when it started hidden and `n` is even. */
  lemma {:induction false} ToggleTimesParity(p: MenuPage, n: nat)
    requires p.menu.Some?
    ensures ToggleTimes(p, n).menu.Some?
    ensures IsHidden(ToggleTimes(p, n)) <==> (IsHidden(p) <==> n % 2 == 0)
  {
    if n > 0 {
      ToggleTimesParity(p, n - 1);
    }
  }

  /** An even number of calls from a page whose icon matches its panel
      restores the panel and the icon. */
  lemma {:induction false} ToggleEvenRestores(p: MenuPage, n: nat)
    requires p.menu.Some? && IconMatches(p)
    requires n % 2 == 0
    ensures ToggleTimes(p, n) == p
  {
    if n > 0 {
      ToggleEvenRestores(p, n - 2);
      assert ToggleTimes(p, n) == ToggleMobileMenu(ToggleMobileMenu(ToggleTimes(p, n - 2)));
      ToggleTwiceRestoresPage(p);
    }
  }

}
