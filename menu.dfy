/**
 * The mobile menu as a state machine: whether the menu container carries the
 * `hidden` class, and which glyph the toggle button shows.
 */
module Menu {

  /** The two SVG paths the handlers draw into the button. */
  datatype Icon = Hamburger | Close

  datatype MenuState = MenuState(hidden: bool, icon: Icon)

  /**
   * The events the menu reacts to: a click on the menu button, a click on a
   * `.mobile-nav-link`, a click outside both menu and button, and the Escape key.
   */
  datatype MenuEvent = ButtonClick | NavLinkClick | OutsideClick | EscapeKey

  /** The icon the button handler draws for a given resulting visibility. */
  function IconFor(hidden: bool): (i: Icon)
  {
    if hidden then Hamburger else Close
  }

  /** The state every closing handler produces. */
  const Closed := MenuState(true, Hamburger)

  /** The icon matches the visibility: Hamburger exactly when the menu is hidden. */
  predicate Consistent(s: MenuState)
  {
    s.icon == IconFor(s.hidden)
  }

  /**
   * The effect of one handler. The button flips the visibility and draws the
   * icon of the new state; the other three close the menu, Escape only while
   * it is open.
   */
  function Step(s: MenuState, ev: MenuEvent): (r: MenuState)
    ensures ev == ButtonClick ==> r.hidden == !s.hidden && (r.icon == Hamburger <==> r.hidden)
    ensures ev == NavLinkClick || ev == OutsideClick ==> r == Closed
    ensures ev == EscapeKey ==> r == if s.hidden then s else Closed
  {
    match ev
    case ButtonClick => MenuState(!s.hidden, IconFor(!s.hidden))
    case NavLinkClick => Closed
    case OutsideClick => Closed
    case EscapeKey => if !s.hidden then Closed else s
  }

  /** A sequence of events, handled in order. */
  function Run(s: MenuState, evs: seq<MenuEvent>): (r: MenuState)
    decreases |evs|
  {
    if evs == [] then s else Run(Step(s, evs[0]), evs[1..])
  }

  /** `n` clicks on the menu button. */
  function Clicks(n: nat): (r: seq<MenuEvent>)
    ensures |r| == n
    ensures forall i :: 0 <= i < n ==> r[i] == ButtonClick
  {
    if n == 0 then [] else [ButtonClick] + Clicks(n - 1)
  }

  /** Two button clicks restore the state exactly when the icon matched the visibility. */
  lemma ButtonTwiceIff(s: MenuState)
    ensures Step(Step(s, ButtonClick), ButtonClick) == s <==> Consistent(s)
  {
  }

  /**
   * A nav-link click, an outside click and Escape on an open menu all leave it
   * hidden with the Hamburger icon, and repeating any of them changes nothing.
   */
  lemma ClosesAreIdempotent(s: MenuState, ev: MenuEvent)
    requires ev != ButtonClick
    requires ev == EscapeKey ==> !s.hidden
    ensures Step(s, ev) == Closed
    ensures Step(Step(s, ev), ev) == Step(s, ev)
  {
  }

  /** Every handler keeps the icon in step with the visibility. */
  lemma {:induction false} RunPreservesConsistent(s: MenuState, evs: seq<MenuEvent>)
    requires Consistent(s)
    ensures Consistent(Run(s, evs))
    decreases |evs|
  {
    if evs != [] {
      RunPreservesConsistent(Step(s, evs[0]), evs[1..]);
    }
  }

  /** An even number of button clicks restores a consistent menu. */
  lemma {:induction false} EvenClicksRestore(s: MenuState, n: nat)
    requires Consistent(s)
    ensures Run(s, Clicks(2 * n)) == s
  {
    if n > 0 {
      var rest := Clicks(2 * n - 2);
      assert Clicks(2 * n) == [ButtonClick] + ([ButtonClick] + rest);
      assert Run(s, Clicks(2 * n)) == Run(Step(s, ButtonClick), [ButtonClick] + rest);
      assert Run(Step(s, ButtonClick), [ButtonClick] + rest)
          == Run(Step(Step(s, ButtonClick), ButtonClick), rest);
      EvenClicksRestore(s, n - 1);
    }
  }

  /** An odd number of button clicks acts like a single click. */
  lemma {:induction false} OddClicksToggle(s: MenuState, n: nat)
    ensures Run(s, Clicks(2 * n + 1)) == Step(s, ButtonClick)
  {
    var rest := Clicks(2 * n);
    assert Clicks(2 * n + 1) == [ButtonClick] + rest;
    assert Run(s, Clicks(2 * n + 1)) == Run(Step(s, ButtonClick), rest);
    EvenClicksRestore(Step(s, ButtonClick), n);
  }
}
