/**
 * The shared UI store: whether the mobile menu is open, which section is
 * active and which theme the navbar uses. Every action replaces exactly
 * one field.
 */
module Store {
  import opened Wrappers
  import opened SectionThemes

  /** A snapshot of the store's three fields. */
  datatype UiState = UiState(isMobileNavOpen: bool, activeSection: string, navTheme: Theme)

  /** The values the store is created with. */
  const Initial := UiState(false, "home", Dark)

  /** `toggleMobileNav` on a snapshot. */
  function Toggled(s: UiState): UiState
  {
    s.(isMobileNavOpen := !s.isMobileNavOpen)
  }

  /** `closeMobileNav` on a snapshot. */
  function Closed(s: UiState): UiState
  {
    s.(isMobileNavOpen := false)
  }

  /** `setActiveSection(section)` on a snapshot. */
  function WithActiveSection(s: UiState, section: string): UiState
  {
    s.(activeSection := section)
  }

  /** `setNavTheme(theme)` on a snapshot. */
  function WithNavTheme(s: UiState, theme: Theme): UiState
  {
    s.(navTheme := theme)
  }

  /** Two toggles restore the state; a toggle flips the menu flag and nothing else. */
  lemma ToggleInvolutive(s: UiState)
    ensures Toggled(s).isMobileNavOpen == !s.isMobileNavOpen
    ensures Toggled(s).activeSection == s.activeSection && Toggled(s).navTheme == s.navTheme
    ensures Toggled(Toggled(s)) == s
  {
  }

  /** Closing always leaves the menu closed, keeps the other fields, and closing twice is closing once. */
  lemma CloseIdempotent(s: UiState)
    ensures !Closed(s).isMobileNavOpen
    ensures Closed(s).activeSection == s.activeSection && Closed(s).navTheme == s.navTheme
    ensures Closed(Closed(s)) == Closed(s)
    ensures !s.isMobileNavOpen ==> Closed(s) == s
  {
  }

  /** Setting the section changes only the section, and the last setting wins. */
  lemma ActiveSectionFrame(s: UiState, a: string, b: string)
    ensures WithActiveSection(s, a).activeSection == a
    ensures WithActiveSection(s, a).isMobileNavOpen == s.isMobileNavOpen
    ensures WithActiveSection(s, a).navTheme == s.navTheme
    ensures WithActiveSection(WithActiveSection(s, a), b) == WithActiveSection(s, b)
  {
  }

  /** Setting the theme changes only the theme, and the last setting wins. */
  lemma NavThemeFrame(s: UiState, t: Theme, u: Theme)
    ensures WithNavTheme(s, t).navTheme == t
    ensures WithNavTheme(s, t).isMobileNavOpen == s.isMobileNavOpen
    ensures WithNavTheme(s, t).activeSection == s.activeSection
    ensures WithNavTheme(WithNavTheme(s, t), u) == WithNavTheme(s, u)
  {
  }

  /**
   * The initial state does not pair the active section with its registry
   * theme: `home` is registered as light while the navbar starts dark.
   */
  lemma InitialThemeDiffersFromRegistry()
    ensures Initial.activeSection == "home" && Initial.navTheme == Dark && !Initial.isMobileNavOpen
    ensures ThemeOf(Initial.activeSection) == Some(Light)
    ensures ThemeOf(Initial.activeSection) != Some(Initial.navTheme)
  {
    ThemeOfTable();
  }

  /** The store object; its three fields change in place through its four actions. */
  class AppStore {
    var isMobileNavOpen: bool
    var activeSection: string
    var navTheme: Theme

    function State(): UiState
      reads this
    {
      UiState(isMobileNavOpen, activeSection, navTheme)
    }

    constructor ()
      ensures State() == Initial
      ensures !isMobileNavOpen && activeSection == "home" && navTheme == Dark
    {
      isMobileNavOpen := false;
      activeSection := "home";
      navTheme := Dark;
    }

    method ToggleMobileNav()
      modifies this
      ensures isMobileNavOpen == !old(isMobileNavOpen)
      ensures activeSection == old(activeSection) && navTheme == old(navTheme)
      ensures State() == Toggled(old(State()))
    {
      isMobileNavOpen := !isMobileNavOpen;
    }

    method CloseMobileNav()
      modifies this
      ensures !isMobileNavOpen
      ensures activeSection == old(activeSection) && navTheme == old(navTheme)
      ensures State() == Closed(old(State()))
    {
      isMobileNavOpen := false;
    }

    method SetActiveSection(section: string)
      modifies this
      ensures activeSection == section
      ensures isMobileNavOpen == old(isMobileNavOpen) && navTheme == old(navTheme)
      ensures State() == WithActiveSection(old(State()), section)
    {
      activeSection := section;
    }

    method SetNavTheme(theme: Theme)
      modifies this
      ensures navTheme == theme
      ensures isMobileNavOpen == old(isMobileNavOpen) && activeSection == old(activeSection)
      ensures State() == WithNavTheme(old(State()), theme)
    {
      navTheme := theme;
    }
  }
}
