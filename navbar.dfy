/**
 * The navbar: classes and logo derived from the theme, the in-page link
 * targets, and which store action each control triggers.
 */
module Navbar {
  import opened Wrappers
  import opened SectionThemes
  import opened Store

  /** Text colour class: white text on a dark background, black otherwise. */
  function TextColor(t: Theme): string
  {
    if ThemeName(t) == "dark" then "text-white" else "text-black"
  }

  /** Logo image: the light logo on a dark background, the dark logo otherwise. */
  function LogoSrc(t: Theme): string
  {
    if ThemeName(t) == "dark" then "/logo-light.png" else "/logo-dark.png"
  }

  /** Underline class of the desktop links. */
  function UnderLine(t: Theme): string
  {
    if ThemeName(t) == "dark" then "bg-white" else "bg-black"
  }

  /**
   * Each derived value picks the dark-theme variant exactly when the theme is
   * dark; text and underline share one colour, and the logo is drawn in the
   * shade opposite to the background.
   */
  lemma ThemeStyles(t: Theme)
    ensures TextColor(t) == "text-white" <==> t == Dark
    ensures TextColor(t) == "text-black" <==> t == Light
    ensures LogoSrc(t) == "/logo-light.png" <==> t == Dark
    ensures LogoSrc(t) == "/logo-dark.png" <==> t == Light
    ensures UnderLine(t) == "bg-white" <==> t == Dark
    ensures UnderLine(t) == "bg-black" <==> t == Light
    ensures TextColor(t)[5..] == UnderLine(t)[3..]
    ensures LogoSrc(t)[6..] == (if t == Dark then "light.png" else "dark.png")
  {
  }

  /** ASCII lower-casing of one character. */
  function LowerChar(c: char): (d: char)
    ensures 'A' <= c <= 'Z' ==> 'a' <= d <= 'z' && d as int - c as int == 'a' as int - 'A' as int
    ensures !('A' <= c <= 'Z') ==> d == c
  {
    if 'A' <= c <= 'Z' then (c as int + 32) as char else c
  }

  /**
   * `toLowerCase` over ASCII: the result has the same length, holds no
   * upper-case letter, and keeps every character that is not one.
   */
  function Lower(s: string): (r: string)
    ensures |r| == |s|
    ensures forall i :: 0 <= i < |r| ==> !('A' <= r[i] <= 'Z')
    ensures forall i :: 0 <= i < |s| && !('A' <= s[i] <= 'Z') ==> r[i] == s[i]
    ensures forall i :: 0 <= i < |s| && 'A' <= s[i] <= 'Z' ==> r[i] as int == s[i] as int + 32
  {
    seq(|s|, i requires 0 <= i < |s| => LowerChar(s[i]))
  }

  /** The in-page anchor of a nav link: `#` followed by the lowercased label. */
  function Href(text: string): (r: string)
    ensures |r| == |text| + 1 && r[0] == '#'
    ensures forall i :: 0 <= i < |text| ==>
      if 'A' <= text[i] <= 'Z' then r[i + 1] as int == text[i] as int + 32 else r[i + 1] == text[i]
  {
    "#" + Lower(text)
  }

  /** The labels of the desktop and the mobile link lists. */
  const NavLabels: seq<string> := ["About", "Projects", "Skills", "Contact"]

  /** The anchor of the logo link. */
  const LogoHref: string := "#home"

  /** The anchors of the link list, in order. */
  function LinkHrefs(): seq<string>
  {
    seq(|NavLabels|, i requires 0 <= i < |NavLabels| => Href(NavLabels[i]))
  }

  /** Lower-casing a lower-cased string changes nothing. */
  lemma LowerIdempotent(s: string)
    ensures Lower(Lower(s)) == Lower(s)
  {
  }

  /** Lower-casing is settled character by character. */
  lemma LowerIs(s: string, t: string)
    requires |s| == |t|
    requires forall i :: 0 <= i < |s| ==> LowerChar(s[i]) == t[i]
    ensures Lower(s) == t
  {
  }

  /** The link list points at #about, #projects, #skills and #contact. */
  lemma LinkHrefsValue()
    ensures LinkHrefs() == ["#about", "#projects", "#skills", "#contact"]
  {
    assert LinkHrefs() == ["#" + Lower("About"), "#" + Lower("Projects"), "#" + Lower("Skills"), "#" + Lower("Contact")];
    assert Lower("About") == "about" by { LowerIs("About", "about"); }
    assert "#" + Lower("About") == "#about";
    assert Lower("Projects") == "projects" by { LowerIs("Projects", "projects"); }
    assert "#" + Lower("Projects") == "#projects";
    assert Lower("Skills") == "skills" by { LowerIs("Skills", "skills"); }
    assert "#" + Lower("Skills") == "#skills";
    assert Lower("Contact") == "contact" by { LowerIs("Contact", "contact"); }
    assert "#" + Lower("Contact") == "#contact";
  }

  /**
   * Every link targets a registry section, and with the logo's #home the
   * navbar has exactly one anchor per registry section, in registry order.
   */
  lemma NavAnchors()
    ensures forall i :: 0 <= i < |LinkHrefs()| ==> LinkHrefs()[i][1..] in SectionIds()
    ensures [LogoHref] + LinkHrefs() == seq(|SectionIds()|, i requires 0 <= i < |SectionIds()| => "#" + SectionIds()[i])
  {
    LinkHrefsValue();
    RegistryShape();
    var ids := SectionIds();
    assert "#about"[1..] == ids[1];
    assert "#projects"[1..] == ids[2];
    assert "#skills"[1..] == ids[3];
    assert "#contact"[1..] == ids[4];
    assert "#" + ids[0] == LogoHref;
    assert "#" + ids[1] == "#about";
    assert "#" + ids[2] == "#projects";
    assert "#" + ids[3] == "#skills";
    assert "#" + ids[4] == "#contact";
  }

  /** The interactive controls of the navbar. */
  datatype Control =
    | Logo
    | DesktopLink(text: string)
    | Hamburger
    | CloseButton
    | MobileLink(text: string)

  /** The store action a control's click handler invokes. */
  datatype MenuAction = ToggleMenu | CloseMenu

  /**
   * The handler wired to each control: the hamburger toggles the menu, the
   * logo, the close button and the mobile links close it, and the desktop
   * links have no handler of their own.
   */
  function Handler(c: Control): Option<MenuAction>
  {
    match c
    case Hamburger => Some(ToggleMenu)
    case Logo => Some(CloseMenu)
    case CloseButton => Some(CloseMenu)
    case MobileLink(_) => Some(CloseMenu)
    case DesktopLink(_) => None
  }

  /** The store after a click on a control. */
  function Click(s: UiState, c: Control): UiState
  {
    match Handler(c)
    case Some(ToggleMenu) => Toggled(s)
    case Some(CloseMenu) => Closed(s)
    case None => s
  }

  /** The controls rendered in the component tree in a state: the mobile menu and its controls only while the menu is open. */
  function RenderedControls(s: UiState): (cs: seq<Control>)
    ensures Logo in cs && Hamburger in cs
    ensures CloseButton in cs <==> s.isMobileNavOpen
    ensures forall l :: MobileLink(l) in cs <==> s.isMobileNavOpen && l in NavLabels
    ensures forall l :: DesktopLink(l) in cs <==> l in NavLabels
  {
    var desktop := seq(|NavLabels|, i requires 0 <= i < |NavLabels| => DesktopLink(NavLabels[i]));
    var mobile := seq(|NavLabels|, i requires 0 <= i < |NavLabels| => MobileLink(NavLabels[i]));
    assert forall l :: DesktopLink(l) in desktop <==> l in NavLabels by {
      forall l ensures DesktopLink(l) in desktop <==> l in NavLabels {
        if l in NavLabels {
          var i :| 0 <= i < |NavLabels| && NavLabels[i] == l;
          assert desktop[i] == DesktopLink(l);
        }
      }
    }
    assert forall l :: MobileLink(l) in mobile <==> l in NavLabels by {
      forall l ensures MobileLink(l) in mobile <==> l in NavLabels {
        if l in NavLabels {
          var i :| 0 <= i < |NavLabels| && NavLabels[i] == l;
          assert mobile[i] == MobileLink(l);
        }
      }
    }
    [Logo] + desktop + [Hamburger] + (if s.isMobileNavOpen then [CloseButton] + mobile else [])
  }

  /**
   * No click handler sets the active section or the theme; every control
   * other than the hamburger and the desktop links leaves the menu closed, a
   * click on the hamburger flips it, and the desktop links have no handler.
   */
  lemma ClickEffects(s: UiState, c: Control)
    ensures Click(s, c).activeSection == s.activeSection
    ensures Click(s, c).navTheme == s.navTheme
    ensures c == Hamburger ==> Click(s, c).isMobileNavOpen == !s.isMobileNavOpen
    ensures c.Logo? || c.CloseButton? || c.MobileLink? ==> !Click(s, c).isMobileNavOpen
    ensures c.DesktopLink? ==> Click(s, c) == s
  {
  }

  /** Following any mobile-menu control removes the mobile menu from the rendered component tree. */
  lemma MobileControlsDismissMenu(s: UiState, c: Control)
    requires c in RenderedControls(s) && (c.CloseButton? || c.MobileLink?)
    ensures s.isMobileNavOpen
    ensures CloseButton !in RenderedControls(Click(s, c))
  {
  }

  /** The navbar's click dispatch on the live store. */
  method OnClick(store: AppStore, c: Control)
    modifies store
    ensures store.State() == Click(old(store.State()), c)
  {
    var handler := Handler(c);
    if handler == Some(ToggleMenu) {
      store.ToggleMobileNav();
    } else if handler == Some(CloseMenu) {
      store.CloseMobileNav();
    }
  }
}
