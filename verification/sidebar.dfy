/** The navigation sidebar: which entry is highlighted for the current
    path, the name shown for the signed-in user, and whether the panel is
    expanded. */
module Sidebar {
  import opened Optional
  import opened Text
  import Auth

  // ---------------------------------------------------------------------
  // Navigation entries.
  // ---------------------------------------------------------------------

  datatype NavEntry = NavEntry(name: string, href: string)

  /** The fixed navigation list, top to bottom. */
  const Nav: seq<NavEntry> := [
    NavEntry("Dashboard", "/dashboard"),
    NavEntry("Purchase Orders", "/purchase-orders"),
    NavEntry("Warehouses", "/warehouses"),
    NavEntry("Items", "/items"),
    NavEntry("Products", "/products"),
    NavEntry("Billings", "/billings")
  ]

  /** An entry is highlighted on its own page and on any page below it:
      the very path, or the path continued after a `/` boundary, never a
      path that merely shares a raw prefix. */
  predicate IsActive(pathname: string, href: string)
    ensures IsActive(pathname, href) <==>
      pathname == href
      || (|pathname| > |href| && pathname[..|href|] == href && pathname[|href|] == '/')
  {
    pathname == href || Below(pathname, href)
  }

  /** `inner` lies strictly below `outer` in the path hierarchy. */
  predicate Below(inner: string, outer: string) {
    StartsWith(inner, outer + "/")
  }

  /** `/items/42` activates `/items`. */
  lemma ActiveOnSubpath(href: string, rest: string)
    ensures IsActive(href + "/" + rest, href)
  {
  }

  /** `/itemsX` does not activate `/items`. */
  lemma NotActiveOnRawPrefix(pathname: string, href: string)
    requires |pathname| > |href| && pathname[..|href|] == href
    requires pathname[|href|] != '/'
    ensures !IsActive(pathname, href)
  {
  }

  lemma ActiveExamples()
    ensures IsActive("/items", "/items")
    ensures IsActive("/items/42", "/items")
    ensures !IsActive("/itemsX", "/items")
    ensures !IsActive("/item", "/items")
  {
  }

  /** Two entries active on the same path are the same href, or one lies
      below the other. */
  lemma ActiveNested(pathname: string, h1: string, h2: string)
    requires IsActive(pathname, h1) && IsActive(pathname, h2)
    requires |h1| <= |h2|
    ensures h1 == h2 || Below(h2, h1)
  {
  }

  /** The list has six entries with distinct hrefs, none below another. */
  lemma NavWellFormed()
    ensures |Nav| == 6
    ensures forall i, j :: 0 <= i < |Nav| && 0 <= j < |Nav| && i != j ==>
      Nav[i].href != Nav[j].href && !Below(Nav[j].href, Nav[i].href)
  {
    forall i, j | 0 <= i < |Nav| && 0 <= j < |Nav| && i != j
      ensures Nav[i].href != Nav[j].href && !Below(Nav[j].href, Nav[i].href)
    {
      var a, b := Nav[i].href, Nav[j].href;
      // Every href starts with '/' and their second characters already
      // tell them apart, except for /purchase-orders and /products.
      assert a[0] == '/' && b[0] == '/';
      if a[1] != b[1] {
        assert a != b;
        if |b| >= |a + "/"| {
          assert b[..|a + "/"|][1] == b[1];
          assert (a + "/")[1] == a[1];
        }
      } else {
        assert a[2] != b[2];
        if |b| >= |a + "/"| {
          assert b[..|a + "/"|][2] == b[2];
          assert (a + "/")[2] == a[2];
        }
      }
    }
  }

  /** At most one navigation entry is highlighted, whatever the path. */
  lemma AtMostOneActive(pathname: string)
    ensures forall i, j ::
      (0 <= i < |Nav| && 0 <= j < |Nav| && IsActive(pathname, Nav[i].href) && IsActive(pathname, Nav[j].href))
      ==> i == j
  {
  }

  // ---------------------------------------------------------------------
  // The account label.
  // ---------------------------------------------------------------------

  /** A name in JavaScript's truthy sense: present and non-empty. */
  predicate Named(name: Opt<string>) {
    name.Present? && name.value != ""
  }

  /** "first last" when both names are set, otherwise the email. */
  function DisplayName(user: Auth.User): (r: string)
    ensures Named(user.firstName) && Named(user.lastName) ==>
      var first, last := user.firstName.value, user.lastName.value;
      && |r| == |first| + 1 + |last|
      && r[..|first|] == first
      && r[|first|] == ' '
      && r[|first| + 1..] == last
    ensures !(Named(user.firstName) && Named(user.lastName)) ==> r == user.email
  {
    if Named(user.firstName) && Named(user.lastName) then
      var r := user.firstName.value + " " + user.lastName.value;
      assert r[..|user.firstName.value|] == user.firstName.value;
      assert r[|user.firstName.value| + 1..] == user.lastName.value;
      r
    else user.email
  }

  /** Cuts a string at its first space. */
  function SplitAtSpace(s: string): (string, string) {
    if s == [] then ("", "")
    else if s[0] == ' ' then ("", s[1..])
    else
      var (a, b) := SplitAtSpace(s[1..]);
      ([s[0]] + a, b)
  }

  lemma {:induction false} SplitJoin(a: string, b: string)
    requires ' ' !in a
    ensures SplitAtSpace(a + " " + b) == (a, b)
  {
    if a == [] {
      assert a + " " + b == [' '] + b;
    } else {
      assert (a + " " + b)[1..] == a[1..] + " " + b;
      SplitJoin(a[1..], b);
      assert [a[0]] + a[1..] == a;
    }
  }

  /** When the first name has no space in it, both names can be read back
      from the label. */
  lemma DisplayNameRecoversNames(user: Auth.User)
    requires Named(user.firstName) && Named(user.lastName)
    requires ' ' !in user.firstName.value
    ensures SplitAtSpace(DisplayName(user)) == (user.firstName.value, user.lastName.value)
  {
    SplitJoin(user.firstName.value, user.lastName.value);
  }

  // ---------------------------------------------------------------------
  // The expand state.
  // ---------------------------------------------------------------------

  datatype Panel = Panel(pinned: bool, hovered: bool)

  /** Neither pinned nor hovered when first rendered. */
  const InitialPanel := Panel(false, false)

  predicate IsExpanded(p: Panel) {
    p.pinned || p.hovered
  }

  datatype PanelEvent = MouseEnter | MouseLeave | PinClick

  /** Pointer events set `hovered`; the pin button negates `pinned`. The
      button is only displayed while the panel is expanded, so a collapsed
      panel receives no pin click and is left as it is. */
  function Step(p: Panel, e: PanelEvent): (r: Panel)
    ensures e.PinClick? ==> r.hovered == p.hovered && (r.pinned != p.pinned <==> IsExpanded(p))
    ensures !e.PinClick? ==> r.pinned == p.pinned && r.hovered == e.MouseEnter?
  {
    match e
    case MouseEnter => p.(hovered := true)
    case MouseLeave => p.(hovered := false)
    case PinClick => if IsExpanded(p) then p.(pinned := !p.pinned) else p
  }

  function Run(p: Panel, events: seq<PanelEvent>): Panel
    decreases |events|
  {
    if events == [] then p else Run(Step(p, events[0]), events[1..])
  }

  /** With the pointer on the panel, pressing the pin button twice leaves
      the panel as it was. */
  lemma PinTwiceRestores(p: Panel)
    requires p.hovered
    ensures Step(Step(p, PinClick), PinClick) == p
  {
  }

  /** Without the pointer on it, unpinning collapses the panel and hides
      the button, so a second press cannot pin it again. */
  lemma UnpinWithoutHoverHidesButton()
    ensures Step(Panel(true, false), PinClick) == InitialPanel
    ensures Step(Step(Panel(true, false), PinClick), PinClick) == InitialPanel
  {
  }

  /** A pinned panel stays expanded whatever the pointer does. */
  lemma {:induction false} PinnedStaysExpanded(p: Panel, events: seq<PanelEvent>)
    requires p.pinned
    requires forall i :: 0 <= i < |events| ==> events[i] != PinClick
    ensures IsExpanded(Run(p, events))
    ensures Run(p, events).pinned
    decreases |events|
  {
    if events != [] {
      assert forall i :: 0 <= i < |events[1..]| ==> events[1..][i] == events[i + 1];
      PinnedStaysExpanded(Step(p, events[0]), events[1..]);
    }
  }

  /** The panel starts collapsed; entering expands it; leaving collapses it
      unless pinned; a press on the visible button collapses it only when it
      unpins a panel the pointer is not on. */
  lemma PanelExpansion(p: Panel)
    ensures !IsExpanded(InitialPanel)
    ensures IsExpanded(Step(p, MouseEnter))
    ensures IsExpanded(Step(p, MouseLeave)) <==> p.pinned
    ensures IsExpanded(p) ==> (IsExpanded(Step(p, PinClick)) <==> !p.pinned || p.hovered)
    ensures !IsExpanded(p) ==> Step(p, PinClick) == p
  {
  }
}
