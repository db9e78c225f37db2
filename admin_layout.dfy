/** The admin shell (app/admin/layout.tsx): the content column is pushed
    right by the panel's width only on desktop with the sidebar open. The
    layout reads the shared flag and never writes it. */
module AdminLayout {
  import Store
  import Sidebar

  /** Whether the content column gets the left padding that clears the
      panel. */
  predicate ContentOffset(isMobile: bool, sidebarOpen: bool)
  {
    !isMobile && sidebarOpen
  }

  /** Rendering the layout reads the store and changes nothing. */
  method Render(store: Store.DashboardStore, isMobile: bool) returns (offset: bool)
    ensures offset <==> !isMobile && store.sidebarOpen
    ensures isMobile ==> !offset
    ensures !store.sidebarOpen ==> !offset
  {
    offset := ContentOffset(isMobile, store.sidebarOpen);
  }

  /** For every state exactly one of four things is on screen: the overlay,
      the hamburger, the offset content, or (desktop, closed) none of them. */
  lemma ShellPartition(isMobile: bool, sidebarOpen: bool)
    ensures Sidebar.OverlayShown(isMobile, sidebarOpen) ==>
      !Sidebar.MenuButtonShown(isMobile, sidebarOpen) && !ContentOffset(isMobile, sidebarOpen)
    ensures Sidebar.MenuButtonShown(isMobile, sidebarOpen) ==> !ContentOffset(isMobile, sidebarOpen)
    ensures (!Sidebar.OverlayShown(isMobile, sidebarOpen) && !Sidebar.MenuButtonShown(isMobile, sidebarOpen)
             && !ContentOffset(isMobile, sidebarOpen)) <==> !isMobile && !sidebarOpen
  {
  }

  /** The offset and the overlay depend on the same flag with the viewport
      test reversed: opening the sidebar brings in the offset on desktop and
      the overlay on mobile. */
  lemma OpenSidebarEffect(isMobile: bool)
    ensures ContentOffset(isMobile, true) <==> !isMobile
    ensures Sidebar.OverlayShown(isMobile, true) <==> isMobile
    ensures !ContentOffset(isMobile, false) && !Sidebar.OverlayShown(isMobile, false)
  {
  }

  /** On desktop, after any clickable run of sidebar clicks, the content is
      offset exactly when it was before and the X button was clicked an even
      number of times, or it was not and the count is odd. */
  lemma {:induction false} DesktopOffsetAfterRun(sidebarOpen: bool, cs: seq<Sidebar.Control>)
    requires Sidebar.Clickable(false, sidebarOpen, cs)
    ensures ContentOffset(false, Sidebar.Run(false, sidebarOpen, cs)) ==
      (if Sidebar.CloseClicks(cs) % 2 == 0 then sidebarOpen else !sidebarOpen)
  {
    Sidebar.DesktopRunParity(sidebarOpen, cs);
  }

  /** On mobile the offset never appears, whatever the flag. */
  lemma MobileNeverOffset()
    ensures forall sidebarOpen :: !ContentOffset(true, sidebarOpen)
  {
  }
}
