/** The admin sidebar (components/layouts/sidebar.tsx): which controls are
    mounted for a given viewport and sidebar flag, what a click on each does
    to the shared store, and which navigation entry is highlighted. Whether
    the viewport is mobile comes from a media-query hook that is not part of
    this model; it is a parameter here. */
module Sidebar {
  import Store

  datatype NavItem = NavItem(name: string, href: string)

  /** The navigation entries, in display order. */
  const Navigation: seq<NavItem> := [
    NavItem("Dashboard", "/admin"),
    NavItem("Content", "/admin/content"),
    NavItem("Media", "/admin/media"),
    NavItem("Analytics", "/admin/analytics"),
    NavItem("Users", "/admin/users"),
    NavItem("Settings", "/admin/settings")
  ]

  /** A clickable element of the sidebar: the dimming overlay, the X button
      in the panel header, the hamburger button, or the navigation link at an
      index of `Navigation`. */
  datatype Control = Overlay | CloseButton | MenuButton | NavLink(index: nat)

  /** The dimming overlay is mounted only on mobile with the sidebar open. */
  predicate OverlayShown(isMobile: bool, sidebarOpen: bool)
  {
    isMobile && sidebarOpen
  }

  /** The hamburger button is mounted only on mobile with the sidebar
      closed. */
  predicate MenuButtonShown(isMobile: bool, sidebarOpen: bool)
  {
    isMobile && !sidebarOpen
  }

  /** Whether control `c` is in the mounted tree. The X button and the links
      sit in the panel, which is always mounted. */
  predicate Mounted(isMobile: bool, sidebarOpen: bool, c: Control)
  {
    match c
    case Overlay => OverlayShown(isMobile, sidebarOpen)
    case MenuButton => MenuButtonShown(isMobile, sidebarOpen)
    case CloseButton => true
    case NavLink(i) => i < |Navigation|
  }

  /** The sidebar flag after a click on `c`: the overlay sets it false, the
      X and hamburger buttons toggle it, a link sets it false on mobile and
      leaves it alone otherwise. */
  function Step(isMobile: bool, sidebarOpen: bool, c: Control): bool
  {
    match c
    case Overlay => false
    case CloseButton => !sidebarOpen
    case MenuButton => !sidebarOpen
    case NavLink(_) => if isMobile then false else sidebarOpen
  }

  /** A navigation entry is highlighted when the path is exactly its
      href. */
  predicate IsActive(pathname: string, item: NavItem)
  {
    pathname == item.href
  }

  /** What the component renders for one state. */
  datatype SidebarView = SidebarView(overlay: bool, menuButton: bool, active: seq<bool>)

  function View(isMobile: bool, sidebarOpen: bool, pathname: string): (v: SidebarView)
    ensures isMobile ==> v.overlay != v.menuButton
    ensures !isMobile ==> !v.overlay && !v.menuButton
    ensures v.overlay <==> isMobile && sidebarOpen
    ensures v.menuButton <==> isMobile && !sidebarOpen
    ensures |v.active| == |Navigation|
    ensures forall i :: 0 <= i < |v.active| ==> (v.active[i] <==> pathname == Navigation[i].href)
    ensures forall i, j :: 0 <= i < |v.active| && 0 <= j < |v.active| && v.active[i] && v.active[j] ==> i == j
  {
    HrefsDistinct();
    SidebarView(
      OverlayShown(isMobile, sidebarOpen),
      MenuButtonShown(isMobile, sidebarOpen),
      seq(|Navigation|, i requires 0 <= i < |Navigation| => IsActive(pathname, Navigation[i])))
  }

  lemma HrefsDistinct()
    ensures forall i, j :: 0 <= i < j < |Navigation| ==> Navigation[i].href != Navigation[j].href
  {
    var hrefs := seq(|Navigation|, i requires 0 <= i < |Navigation| => Navigation[i].href);
    assert hrefs == ["/admin", "/admin/content", "/admin/media",
                     "/admin/analytics", "/admin/users", "/admin/settings"];
  }

  /** At most one navigation entry is highlighted for any path. */
  lemma AtMostOneActive(pathname: string, i: nat, j: nat)
    requires i < |Navigation| && j < |Navigation|
    requires IsActive(pathname, Navigation[i]) && IsActive(pathname, Navigation[j])
    ensures i == j
  {
    HrefsDistinct();
  }

  /** Matching is exact: a sub-page of a section highlights nothing, and the
      "/admin" entry is not highlighted on "/admin/content". */
  lemma ActiveIsExactMatch()
    ensures IsActive("/admin/content", Navigation[1])
    ensures !IsActive("/admin/content", Navigation[0])
    ensures forall i :: 0 <= i < |Navigation| ==> !IsActive("/admin/content/42", Navigation[i])
  {
  }

  // ----- single clicks -----

  /** Clicking the overlay closes the sidebar, after which the hamburger
      takes the overlay's place. */
  lemma OverlayClickCloses(isMobile: bool, sidebarOpen: bool)
    requires Mounted(isMobile, sidebarOpen, Overlay)
    ensures !Step(isMobile, sidebarOpen, Overlay)
    ensures MenuButtonShown(isMobile, Step(isMobile, sidebarOpen, Overlay))
    ensures !OverlayShown(isMobile, Step(isMobile, sidebarOpen, Overlay))
  {
  }

  /** The hamburger is only there while the sidebar is closed, so its
      toggle always opens it, and the overlay then takes its place. */
  lemma MenuButtonClickOpens(isMobile: bool, sidebarOpen: bool)
    requires Mounted(isMobile, sidebarOpen, MenuButton)
    ensures Step(isMobile, sidebarOpen, MenuButton)
    ensures OverlayShown(isMobile, Step(isMobile, sidebarOpen, MenuButton))
    ensures !MenuButtonShown(isMobile, Step(isMobile, sidebarOpen, MenuButton))
  {
  }

  /** The X button flips the flag in both directions. */
  lemma CloseButtonToggles(isMobile: bool, sidebarOpen: bool)
    ensures Step(isMobile, sidebarOpen, CloseButton) == !sidebarOpen
    ensures Step(isMobile, Step(isMobile, sidebarOpen, CloseButton), CloseButton) == sidebarOpen
  {
  }

  /** A link closes the sidebar on mobile and leaves it as it was on
      desktop. */
  lemma NavLinkClick(isMobile: bool, sidebarOpen: bool, i: nat)
    ensures isMobile ==> !Step(isMobile, sidebarOpen, NavLink(i))
    ensures !isMobile ==> Step(isMobile, sidebarOpen, NavLink(i)) == sidebarOpen
  {
  }

  // ----- sequences of clicks -----

  /** The flag after clicking `cs` in order, the viewport fixed. */
  function Run(isMobile: bool, sidebarOpen: bool, cs: seq<Control>): bool
    decreases |cs|
  {
    if cs == [] then sidebarOpen
    else Run(isMobile, Step(isMobile, sidebarOpen, cs[0]), cs[1..])
  }

  /** Every click in `cs` hits a control that is mounted at that moment. */
  predicate Clickable(isMobile: bool, sidebarOpen: bool, cs: seq<Control>)
    decreases |cs|
  {
    cs == [] ||
    (Mounted(isMobile, sidebarOpen, cs[0]) &&
     Clickable(isMobile, Step(isMobile, sidebarOpen, cs[0]), cs[1..]))
  }

  function CloseClicks(cs: seq<Control>): nat
  {
    if cs == [] then 0 else (if cs[0] == CloseButton then 1 else 0) + CloseClicks(cs[1..])
  }

  /** On desktop neither the overlay nor the hamburger can be clicked and a
      link leaves the flag alone, so the flag ends flipped exactly when the
      X button was clicked an odd number of times. */
  lemma {:induction false} DesktopRunParity(sidebarOpen: bool, cs: seq<Control>)
    requires Clickable(false, sidebarOpen, cs)
    ensures Run(false, sidebarOpen, cs) == (if CloseClicks(cs) % 2 == 0 then sidebarOpen else !sidebarOpen)
    decreases |cs|
  {
    if cs != [] {
      DesktopRunParity(Step(false, sidebarOpen, cs[0]), cs[1..]);
    }
  }

  /** On mobile, any click other than the hamburger's or the X's leaves the
      sidebar closed; the hamburger leaves it open. */
  lemma {:induction false} MobileRunLast(sidebarOpen: bool, cs: seq<Control>)
    requires cs != [] && Clickable(true, sidebarOpen, cs)
    ensures cs[|cs| - 1].Overlay? || cs[|cs| - 1].NavLink? ==> !Run(true, sidebarOpen, cs)
    ensures cs[|cs| - 1].MenuButton? ==> Run(true, sidebarOpen, cs)
    decreases |cs|
  {
    if |cs| > 1 {
      assert cs[1..][|cs[1..]| - 1] == cs[|cs| - 1];
      MobileRunLast(Step(true, sidebarOpen, cs[0]), cs[1..]);
    }
  }

  // ----- the click handlers, acting on the shared store -----

  /** Dispatches a click to the store operation its handler calls. */
  method Click(store: Store.DashboardStore, isMobile: bool, c: Control)
    modifies store
    ensures store.sidebarOpen == Step(isMobile, old(store.sidebarOpen), c)
  {
    match c
    case Overlay =>
      store.SetSidebarOpen(false);
    case CloseButton =>
      store.ToggleSidebar();
    case MenuButton =>
      store.ToggleSidebar();
    case NavLink(_) =>
      if isMobile {
        store.SetSidebarOpen(false);
      }
  }
}
