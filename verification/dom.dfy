/** The slice of the DOM the page script touches: an element's `classList`,
    seen as a set of class names, and the three `classList` operations it uses. */
module Dom {

  type ClassList = set<string>

  /** `classList.add(name)`. */
  function AddClass(cl: ClassList, name: string): (r: ClassList)
    ensures name in r
    ensures r - {name} == cl - {name}
  {
    cl + {name}
  }

  /** `classList.remove(name)`. */
  function RemoveClass(cl: ClassList, name: string): (r: ClassList)
    ensures name !in r
    ensures r - {name} == cl - {name}
  {
    cl - {name}
  }

  /** `classList.toggle(name)`: removes the class if present, adds it otherwise. */
  function ToggleClass(cl: ClassList, name: string): (r: ClassList)
    ensures name in r <==> name !in cl
    ensures r - {name} == cl - {name}
  {
    if name in cl then RemoveClass(cl, name) else AddClass(cl, name)
  }

  /** Toggling the same class twice gives back the class list unchanged. */
  lemma ToggleClassTwice(cl: ClassList, name: string)
    ensures ToggleClass(ToggleClass(cl, name), name) == cl
  {
  }

  /** Replacing one glyph class by another: `remove(off)` then `add(on)`.
      Every other class is kept. */
  function SwapClass(cl: ClassList, off: string, on: string): (r: ClassList)
    requires off != on
    ensures on in r && off !in r
    ensures r - {off, on} == cl - {off, on}
  {
    AddClass(RemoveClass(cl, off), on)
  }

  /** A swap is undone by the reverse swap when the list already showed `off`
      and not `on`; a second swap in the same direction changes nothing. */
  lemma SwapClassLastWins(cl: ClassList, a: string, b: string)
    requires a != b
    ensures SwapClass(SwapClass(cl, a, b), b, a) == SwapClass(cl, b, a)
    ensures SwapClass(SwapClass(cl, a, b), a, b) == SwapClass(cl, a, b)
  {
  }

  /** Swapping towards the glyph the list already shows is the identity. */
  lemma SwapClassShown(cl: ClassList, off: string, on: string)
    requires off != on
    requires on in cl && off !in cl
    ensures SwapClass(cl, off, on) == cl
  {
  }

}
