/** The shared dashboard UI state (store/dashboard-store.ts): one flag,
    `sidebarOpen`, written only through a flip and an absolute set. */
module Store {

  class DashboardStore {
    var sidebarOpen: bool

    /** A fresh store starts with the sidebar open. */
    constructor ()
      ensures sidebarOpen
    {
      sidebarOpen := true;
    }

    /** `toggleSidebar`: negates the flag. */
    method ToggleSidebar()
      modifies this
      ensures sidebarOpen == !old(sidebarOpen)
    {
      sidebarOpen := !sidebarOpen;
    }

    /** `setSidebarOpen(open)`: overwrites the flag, whatever it was. */
    method SetSidebarOpen(open: bool)
      modifies this
      ensures sidebarOpen == open
    {
      sidebarOpen := open;
    }
  }

  /** Two toggles restore the flag. */
  method ToggleTwice(store: DashboardStore)
    modifies store
    ensures store.sidebarOpen == old(store.sidebarOpen)
  {
    store.ToggleSidebar();
    store.ToggleSidebar();
  }

  /** Setting the same value twice is the same as setting it once. */
  method SetTwice(store: DashboardStore, open: bool)
    modifies store
    ensures store.sidebarOpen == open
  {
    store.SetSidebarOpen(open);
    store.SetSidebarOpen(open);
  }

  /** A set followed by a toggle leaves the opposite of what was set. */
  method SetThenToggle(store: DashboardStore, open: bool)
    modifies store
    ensures store.sidebarOpen == !open
  {
    store.SetSidebarOpen(open);
    store.ToggleSidebar();
  }
}
