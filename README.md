# Portfolio navigation state, modelled in Dafny

A single-page portfolio site keeps a small UI store. The store records whether the mobile menu is open, which page section is active and which colour theme the navbar uses. A visibility callback updates the active section and the theme as sections scroll into view. The navbar derives its text colour, logo and underline from the theme. Its controls open and close the mobile menu.

This project models that navigation state machine and proves properties of it:

- `wrappers.dfy` (`Wrappers`): the `Option` type. It stands for `undefined` and `null`.
- `section_themes.dfy` (`SectionThemes`): the `Theme` type (`'dark' | 'light'`) and the constant section registry.
  - `Find` models `Array.prototype.find` on the registry. It returns the first entry with a given id.
  - Lemmas prove the registry's shape, that its ids are distinct, that its themes alternate, and what lookup returns.
- `store.dfy` (`Store`): the store.
  - `AppStore` is a class with the three fields and the four actions. Each action changes one field in place.
  - `UiState` is a value snapshot of the three fields. `Toggled`, `Closed`, `WithActiveSection` and `WithNavTheme` are the four actions on snapshots. Lemmas prove their frame properties.
- `active_section.dfy` (`ActiveSection`): the intersection callback and the observe/unobserve loops.
  - `HandleEntries` walks a batch of entries and calls the store's setters. It is proved equal to the pure left fold `Apply`.
  - Lemmas state what `Apply` leaves behind: the last qualifying entry sets the active section, and the last registered one sets the theme.
  - The observer is reduced to the set of ids it watches, plus ghost logs of its `observe` and `unobserve` calls in call order. Whether a section's element exists in the document is an input set.
- `navbar.dfy` (`Navbar`): the theme-derived classes, the link anchors and the click handlers.
  - The click handlers are modelled as a pure `Click` function on snapshots and as an `OnClick` method on the live store.
  - `RenderedControls` lists the controls rendered in the component tree. The mobile menu's controls are listed only while the menu is open.

Three behaviours of the code are easy to misread. The model follows the code:

- `navTheme` is not kept equal to the registry theme of `activeSection`. The store starts as `home`/dark while the registry says `home` is light (`InitialThemeDiffersFromRegistry`). An id missing from the registry changes the section but keeps the theme (`StepQualifying`). The pairing holds only after a batch whose last qualifying entry is registered (`ApplyConsistent`).
- Within one batch, entries are processed in the order of the batch, not in registry order. So the last qualifying entry of the batch wins (`ApplyActiveSection`, `ApplyNavTheme`).
- The observer is created with a threshold of 0.3. The model takes "is intersecting" as an input, so the threshold does not appear in it.

An entry qualifies when it is intersecting and its `id` attribute is truthy. So a missing id and the empty id `""` are both skipped, as JavaScript's `if (currentId)` does.

## Model

| member | source | states |
|---|---|---|
| SectionThemes.ThemeName | src/store/useStore.ts:14 | a theme is one of exactly the two literals "dark" and "light", and "dark" names exactly the dark theme; the navbar compares against this literal |
| SectionThemes.RegistryShape | src/data/sectionThemes.tsx:7-13 | the registry has five entries whose ids are home, about, projects, skills, contact in that order |
| SectionThemes.RegistryIdsDistinct | src/data/sectionThemes.tsx:8-12 | registry ids are pairwise distinct |
| SectionThemes.RegistryThemesAlternate | src/data/sectionThemes.tsx:8-12 | themes alternate light, dark, light, dark, light in registry order |
| SectionThemes.Ids | src/data/useActiveSection.tsx:10 | the id list has one element per registry entry, each the id of the entry at the same position |
| SectionThemes.Find | src/data/useActiveSection.tsx:21 | `find` yields an entry of the list carrying the id with no earlier entry carrying it, and yields nothing exactly when no entry carries the id |
| SectionThemes.FindDistinct | src/data/sectionThemes.tsx:8-12 | when ids are distinct, looking up the id of any entry yields that very entry, so lookup returns at most one entry |
| SectionThemes.ThemeOfRegistry | src/data/useActiveSection.tsx:21-24 | a theme is found exactly for registry ids, and it is the theme registered for that id |
| SectionThemes.ThemeOfTable | src/data/sectionThemes.tsx:8-12 | home, projects and contact look up light; about and skills look up dark |
| Store.AppStore.constructor | src/store/useStore.ts:18-31 | the store starts with the menu closed, section "home" and the dark theme |
| Store.AppStore.ToggleMobileNav | src/store/useStore.ts:21 | the menu flag becomes the negation of its old value; section and theme are unchanged |
| Store.AppStore.CloseMobileNav | src/store/useStore.ts:22 | the menu flag becomes false; section and theme are unchanged |
| Store.AppStore.SetActiveSection | src/store/useStore.ts:26 | the section becomes the argument; menu flag and theme are unchanged |
| Store.AppStore.SetNavTheme | src/store/useStore.ts:30 | the theme becomes the argument; menu flag and section are unchanged |
| Store.ToggleInvolutive | src/store/useStore.ts:21 | a toggle flips only the menu flag, and two toggles restore the state |
| Store.CloseIdempotent | src/store/useStore.ts:22 | closing always leaves the menu closed and keeps the other fields; closing twice equals closing once; closing a closed menu changes nothing |
| Store.ActiveSectionFrame | src/store/useStore.ts:26 | setting the section changes only the section, and the last of two settings wins |
| Store.NavThemeFrame | src/store/useStore.ts:30 | setting the theme changes only the theme, and the last of two settings wins |
| Store.InitialThemeDiffersFromRegistry | src/store/useStore.ts:20-29 | the initial state is closed/home/dark, while the registry gives home the light theme, so the initial theme is not the registry's |
| ActiveSection.StepSkips | src/data/useActiveSection.tsx:14-16 | an entry that is not intersecting, or whose id is missing or empty, leaves the store unchanged |
| ActiveSection.StepQualifying | src/data/useActiveSection.tsx:18-24 | a qualifying entry makes its id the active section and keeps the menu flag; the theme becomes the registry theme of the id, or stays when the id is not registered |
| ActiveSection.StepNavTheme | src/data/useActiveSection.tsx:21-24 | one entry sets the registry theme of its id exactly when it qualifies and is registered, and keeps the theme otherwise |
| ActiveSection.ApplyKeepsMenu | src/data/useActiveSection.tsx:12-28 | a batch never changes the mobile menu flag |
| ActiveSection.ApplyActiveSection | src/data/useActiveSection.tsx:13-27 | after a batch the active section is the id of its last qualifying entry; a batch without one leaves the whole store unchanged |
| ActiveSection.ApplyNavThemeUnchanged | src/data/useActiveSection.tsx:21-24 | a batch with no registered qualifying entry leaves the theme unchanged |
| ActiveSection.ApplyNavTheme | src/data/useActiveSection.tsx:13-27 | after a batch the theme is the registry theme of its last registered qualifying entry |
| ActiveSection.ApplyConsistent | src/data/useActiveSection.tsx:13-27 | when the last qualifying entry is registered, the batch leaves the theme equal to the registry theme of the active section |
| ActiveSection.ApplyConcat | src/data/useActiveSection.tsx:13 | processing two batches one after the other equals processing their concatenation |
| ActiveSection.AboutEntersView | src/data/useActiveSection.tsx:14-24 | from the initial state, "about" entering view yields section about with the dark theme and the menu closed |
| ActiveSection.HandleEntries | src/data/useActiveSection.tsx:12-28 | the callback's loop leaves the store equal to the fold of the batch over the old store |
| ActiveSection.PresentIds | src/data/useActiveSection.tsx:35-38 | the ids kept are exactly the listed ids whose element is present, and there are no more of them than listed ids |
| ActiveSection.PresentIdsInOrder | src/data/useActiveSection.tsx:35-38 | the ids kept appear in the same relative order as in the list, and each appears once when the list has no duplicates |
| ActiveSection.PresentIdsAll | src/data/useActiveSection.tsx:35-38 | when every section has an element, every registry id is kept, in registry order |
| ActiveSection.ObserveSections | src/data/useActiveSection.tsx:35-38 | set-up calls `observe` exactly for the registry ids whose element is present, in registry order (the observer's call log grows by that filtered list), makes no `unobserve` call, and adds those ids to the observer's targets |
| ActiveSection.UnobserveSections | src/data/useActiveSection.tsx:40-45 | teardown calls `unobserve` for the same filtered registry ids in the same order (the `unobserve` log grows by that list), makes no `observe` call, and removes those ids from the targets |
| ActiveSection.SetUpAndTearDown | src/data/useActiveSection.tsx:35-45 | a fresh observer that is set up and torn down against the same document observes nothing afterwards, and its `observe` and `unobserve` call logs are the same list: the present registry ids in registry order |
| Navbar.ThemeStyles | src/components/Navbar.tsx:8-10 | dark gives text-white, /logo-light.png and bg-white, light gives text-black, /logo-dark.png and bg-black (each in both directions); text and underline share one colour |
| Navbar.Lower | src/components/Navbar.tsx:73 | lower-casing keeps the length, turns each letter A–Z into the letter 32 code points above it (a–z), leaves no upper-case letter and keeps every other character |
| Navbar.LowerIdempotent | src/components/Navbar.tsx:73 | lower-casing twice equals lower-casing once |
| Navbar.Href | src/components/Navbar.tsx:73 | a link's anchor is one character longer than its label and starts with "#"; position i+1 holds label character i, lowered by 32 code points when it is A–Z and unchanged otherwise |
| Navbar.LinkHrefsValue | src/components/Navbar.tsx:70-73 | the four links point at #about, #projects, #skills and #contact |
| Navbar.NavAnchors | src/components/Navbar.tsx:53 | every link targets a registry id, and with the logo's #home the navbar has exactly one anchor per registry section, in registry order |
| Navbar.RenderedControls | src/components/Navbar.tsx:107 | the close button and the mobile links are rendered in the component tree if and only if the menu is open; the logo, hamburger and desktop links always are |
| Navbar.ClickEffects | src/components/Navbar.tsx:55 | no click handler sets section or theme; the hamburger's handler flips the menu; the handlers of the logo, close button and mobile links leave it closed; desktop links have no handler, so their click leaves the store as it was |
| Navbar.MobileControlsDismissMenu | src/components/Navbar.tsx:125 | a click on a close button or mobile link rendered in the tree happens only while the menu is open, and removes the mobile menu from the tree |
| Navbar.OnClick | src/components/Navbar.tsx:87 | the click handler leaves the live store equal to the click's effect on the old state |

## Left out

- Browser geometry: the 0.3 intersection threshold and how the browser decides that an entry is intersecting. `isIntersecting` is an input.
- `IntersectionObserver`, `document.getElementById` and React's `useEffect`. These are foreign calls. The observer is a set of observed ids, and element presence is an input set of ids. The document is taken to be the same at set-up and at teardown.
- The duplicate section elements that share one id, and which of them `getElementById` returns. The model works with ids, not elements.
- Zustand subscriptions and React re-rendering. The store is a plain object whose fields change in place.
- Navbar.ClickEffects, Navbar.OnClick: model only what a control's click handler does to the store at the moment of the click. The in-page navigation of the anchors (the browser scrolling to `#about` and the other targets) is not modelled. Its effect reaches the store only through later intersection batches (`HandleEntries`, `Apply`), which then set the section and theme of the target.
- Navbar.RenderedControls, Navbar.MobileControlsDismissMenu: describe the component tree, not the screen. The menu sits inside an exit animation of 0.2 s. During it, the close button and the mobile links stay visible and clickable while `isMobileNavOpen` is already false. A click then closes an already closed menu, which changes nothing (`CloseIdempotent`).
- Responsive visibility in CSS (`md:hidden`, `hidden md:flex`). `RenderedControls` lists desktop and mobile controls together, whatever the viewport.
- Navbar.Lower: lowers only ASCII `A`–`Z`, not the full Unicode case mapping of `toLowerCase`. The labels it is applied to are ASCII.
- Animation configuration (framer-motion variants, durations, springs), the section pages, the layout component and the footer. These are presentation with no state logic.
- The contact form. Its page holds only static links, with no submission logic.
