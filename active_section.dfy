/**
 * The visibility tracker: the intersection callback that turns a batch of
 * visibility entries into store updates, and the loops that start and stop
 * observing the registered sections.
 */
module ActiveSection {
  import opened Wrappers
  import opened SectionThemes
  import opened Store

  /**
   * One visibility entry: whether its target crossed into view, and the
   * target's `id` attribute (`None` when the element has no id).
   */
  datatype Entry = Entry(isIntersecting: bool, id: Option<string>)

  /**
   * An entry acts on the store when it is intersecting and its id is
   * truthy: a missing id and the empty string are both skipped.
   */
  predicate Qualifies(e: Entry)
  {
    e.isIntersecting && e.id.Some? && e.id.value != ""
  }

  /** A qualifying entry whose id is in the registry. */
  predicate Registered(e: Entry)
  {
    Qualifies(e) && ThemeOf(e.id.value).Some?
  }

  /** The effect of one entry of the callback's `forEach` on the store. */
  function Step(s: UiState, e: Entry): UiState
  {
    if e.isIntersecting then
      match e.id
      case Some(currentId) =>
        if currentId != "" then
          var s' := WithActiveSection(s, currentId);
          match Find(Registry, currentId)
          case Some(found) => WithNavTheme(s', found.theme)
          case None => s'
        else s
      case None => s
    else s
  }

  /** The effect of a whole batch: the entries applied one after another, in batch order. */
  function Apply(s: UiState, entries: seq<Entry>): UiState
    decreases |entries|
  {
    if entries == [] then s
    else Step(Apply(s, entries[..|entries| - 1]), entries[|entries| - 1])
  }

  /** Index `k` holds the last qualifying entry of the batch. */
  ghost predicate LastQualifying(entries: seq<Entry>, k: int)
  {
    0 <= k < |entries| && Qualifies(entries[k])
    && forall j :: k < j < |entries| ==> !Qualifies(entries[j])
  }

  /** Index `k` holds the last qualifying entry of the batch whose id is registered. */
  ghost predicate LastRegistered(entries: seq<Entry>, k: int)
  {
    0 <= k < |entries| && Registered(entries[k])
    && forall j :: k < j < |entries| ==> !Registered(entries[j])
  }

  /** Entries that are not intersecting, or carry no usable id, leave the store as it is. */
  lemma StepSkips(s: UiState, e: Entry)
    ensures !e.isIntersecting ==> Step(s, e) == s
    ensures e.id == None || e.id == Some("") ==> Step(s, e) == s
  {
  }

  /**
   * A qualifying entry makes its id the active section; the theme becomes the
   * registry's theme for that id when the id is registered and stays otherwise.
   */
  lemma StepQualifying(s: UiState, e: Entry)
    requires Qualifies(e)
    ensures Step(s, e).activeSection == e.id.value
    ensures Step(s, e).isMobileNavOpen == s.isMobileNavOpen
    ensures ThemeOf(e.id.value) == Some(Step(s, e).navTheme) || (ThemeOf(e.id.value) == None && Step(s, e).navTheme == s.navTheme)
  {
  }

  /** One entry sets the registry theme of its id when it is registered and keeps the theme otherwise. */
  lemma StepNavTheme(s: UiState, e: Entry)
    ensures Registered(e) ==> ThemeOf(e.id.value) == Some(Step(s, e).navTheme)
    ensures !Registered(e) ==> Step(s, e).navTheme == s.navTheme
  {
  }

  /** The callback never touches the mobile menu flag. */
  lemma {:induction false} ApplyKeepsMenu(s: UiState, entries: seq<Entry>)
    ensures Apply(s, entries).isMobileNavOpen == s.isMobileNavOpen
    decreases |entries|
  {
    if entries != [] {
      ApplyKeepsMenu(s, entries[..|entries| - 1]);
    }
  }

  /**
   * After a batch the active section is the id of the last qualifying entry;
   * a batch with no qualifying entry leaves the whole store unchanged.
   */
  lemma {:induction false} ApplyActiveSection(s: UiState, entries: seq<Entry>)
    ensures (forall k :: 0 <= k < |entries| ==> !Qualifies(entries[k])) ==> Apply(s, entries) == s
    ensures forall k :: LastQualifying(entries, k) ==> Apply(s, entries).activeSection == entries[k].id.value
    decreases |entries|
  {
    if entries != [] {
      var n := |entries| - 1;
      var init := entries[..n];
      ApplyActiveSection(s, init);
      forall k | LastQualifying(entries, k)
        ensures Apply(s, entries).activeSection == entries[k].id.value
      {
        if k < n {
          assert !Qualifies(entries[n]);
          assert LastQualifying(init, k);
        }
      }
    }
  }

  /** A batch with no registered qualifying entry leaves the theme unchanged. */
  lemma {:induction false} ApplyNavThemeUnchanged(s: UiState, entries: seq<Entry>)
    requires forall k :: 0 <= k < |entries| ==> !Registered(entries[k])
    ensures Apply(s, entries).navTheme == s.navTheme
    decreases |entries|
  {
    if entries != [] {
      var n := |entries| - 1;
      ApplyNavThemeUnchanged(s, entries[..n]);
      StepNavTheme(Apply(s, entries[..n]), entries[n]);
    }
  }

  /**
   * After a batch the theme is the registry theme of the last qualifying entry
   * whose id is registered.
   */
  lemma {:induction false} ApplyNavTheme(s: UiState, entries: seq<Entry>, k: int)
    requires LastRegistered(entries, k)
    ensures ThemeOf(entries[k].id.value) == Some(Apply(s, entries).navTheme)
    decreases |entries|
  {
    var n := |entries| - 1;
    var init := entries[..n];
    StepNavTheme(Apply(s, init), entries[n]);
    if k < n {
      assert LastRegistered(init, k);
      ApplyNavTheme(s, init, k);
    }
  }

  /**
   * Whenever the last qualifying entry of a batch is registered, the batch
   * leaves the navbar theme equal to the registry theme of the active section.
   */
  lemma ApplyConsistent(s: UiState, entries: seq<Entry>, k: int)
    requires LastQualifying(entries, k) && Registered(entries[k])
    ensures ThemeOf(Apply(s, entries).activeSection) == Some(Apply(s, entries).navTheme)
  {
    ApplyActiveSection(s, entries);
    assert LastRegistered(entries, k);
    ApplyNavTheme(s, entries, k);
  }

  /** Two batches delivered one after the other act as their concatenation. */
  lemma {:induction false} ApplyConcat(s: UiState, a: seq<Entry>, b: seq<Entry>)
    ensures Apply(s, a + b) == Apply(Apply(s, a), b)
    decreases |b|
  {
    if b == [] {
      assert a + b == a;
    } else {
      var n := |b| - 1;
      assert (a + b)[..|a + b| - 1] == a + b[..n];
      ApplyConcat(s, a, b[..n]);
    }
  }

  /** The section "about" entering view switches the navbar to about's dark theme. */
  lemma AboutEntersView()
    ensures Apply(Initial, [Entry(true, Some("about"))]) == UiState(false, "about", Dark)
  {
    ThemeOfTable();
    assert [Entry(true, Some("about"))][..0] == [];
  }

  /** The intersection callback, updating the store entry by entry. */
  method HandleEntries(store: AppStore, entries: seq<Entry>)
    modifies store
    ensures store.State() == Apply(old(store.State()), entries)
  {
    for i := 0 to |entries|
      invariant store.State() == Apply(old(store.State()), entries[..i])
    {
      var entry := entries[i];
      if entry.isIntersecting {
        var currentId := entry.id;
        if currentId.Some? && currentId.value != "" {
          store.SetActiveSection(currentId.value);
          var found := Find(Registry, currentId.value);
          if found.Some? {
            store.SetNavTheme(found.value.theme);
          }
        }
      }
      assert entries[..i + 1][..i] == entries[..i];
    }
    assert entries[..|entries|] == entries;
  }

  /** The ids of `ids` whose element is present in the document, in order. */
  function PresentIds(ids: seq<string>, present: set<string>): (r: seq<string>)
    ensures |r| <= |ids|
    ensures forall x :: x in r <==> x in ids && x in present
    decreases |ids|
  {
    if ids == [] then []
    else
      var last := ids[|ids| - 1];
      assert ids == ids[..|ids| - 1] + [last];
      PresentIds(ids[..|ids| - 1], present) + (if last in present then [last] else [])
  }

  /**
   * `r` is `ids` with some elements dropped: the kept elements sit at strictly
   * increasing positions of `ids`.
   */
  ghost predicate SubsequenceOf(r: seq<string>, ids: seq<string>)
  {
    exists pos: seq<int> ::
      |pos| == |r|
      && (forall i :: 0 <= i < |pos| ==> 0 <= pos[i] < |ids| && ids[pos[i]] == r[i])
      && (forall i, j :: 0 <= i < j < |pos| ==> pos[i] < pos[j])
  }

  /** The positions in `ids` of the ids `PresentIds` keeps, strictly increasing. */
  ghost function KeptPositions(ids: seq<string>, present: set<string>): (pos: seq<int>)
    ensures |pos| == |PresentIds(ids, present)|
    ensures forall i :: 0 <= i < |pos| ==> 0 <= pos[i] < |ids| && ids[pos[i]] == PresentIds(ids, present)[i]
    ensures forall i, j :: 0 <= i < j < |pos| ==> pos[i] < pos[j]
    decreases |ids|
  {
    if ids == [] then []
    else
      var n := |ids| - 1;
      var pos0 := KeptPositions(ids[..n], present);
      assert PresentIds(ids, present) == PresentIds(ids[..n], present) + (if ids[n] in present then [ids[n]] else []);
      if ids[n] in present then pos0 + [n] else pos0
  }

  /**
   * The ids kept keep their relative order in `ids`, so observation follows
   * registry order; when `ids` holds no duplicate, neither does the result.
   */
  lemma PresentIdsInOrder(ids: seq<string>, present: set<string>)
    ensures SubsequenceOf(PresentIds(ids, present), ids)
    ensures NoDuplicates(ids) ==> NoDuplicates(PresentIds(ids, present))
  {
    var r := PresentIds(ids, present);
    var pos := KeptPositions(ids, present);
    assert |pos| == |r|;
    if NoDuplicates(ids) {
      forall i, j | 0 <= i < j < |r| ensures r[i] != r[j] {
        assert ids[pos[i]] == r[i] && ids[pos[j]] == r[j] && pos[i] < pos[j];
      }
    }
  }

  /** When every section has an element, every registry id is observed, in registry order. */
  lemma {:induction false} PresentIdsAll(ids: seq<string>, present: set<string>)
    requires forall x :: x in ids ==> x in present
    ensures PresentIds(ids, present) == ids
    decreases |ids|
  {
    if ids != [] {
      var n := |ids| - 1;
      PresentIdsAll(ids[..n], present);
      assert ids == ids[..n] + [ids[n]];
    }
  }

  /**
   * The intersection observer, reduced to the set of ids whose elements it
   * currently observes. Observing twice, or unobserving an element that is
   * not observed, has no further effect. Two ghost logs record the ids passed
   * to `observe` and to `unobserve`, in call order.
   */
  class Observer {
    var targets: set<string>
    ghost var observeCalls: seq<string>
    ghost var unobserveCalls: seq<string>

    constructor ()
      ensures targets == {} && observeCalls == [] && unobserveCalls == []
    {
      targets := {};
      observeCalls, unobserveCalls := [], [];
    }

    method Observe(id: string)
      modifies this
      ensures targets == old(targets) + {id}
      ensures observeCalls == old(observeCalls) + [id] && unobserveCalls == old(unobserveCalls)
    {
      targets := targets + {id};
      observeCalls := observeCalls + [id];
    }

    method Unobserve(id: string)
      modifies this
      ensures targets == old(targets) - {id}
      ensures unobserveCalls == old(unobserveCalls) + [id] && observeCalls == old(observeCalls)
    {
      targets := targets - {id};
      unobserveCalls := unobserveCalls + [id];
    }
  }

  /**
   * Set-up: observe the element of every registry id that has one, in registry
   * order; ids without an element are skipped. Returns the ids observed.
   */
  method ObserveSections(observer: Observer, present: set<string>) returns (observed: seq<string>)
    modifies observer
    ensures observed == PresentIds(SectionIds(), present)
    ensures observer.observeCalls == old(observer.observeCalls) + observed
    ensures observer.unobserveCalls == old(observer.unobserveCalls)
    ensures observer.targets == old(observer.targets) + (set x | x in SectionIds() && x in present)
  {
    var sectionIds := SectionIds();
    observed := [];
    for i := 0 to |sectionIds|
      invariant observed == PresentIds(sectionIds[..i], present)
      invariant observer.observeCalls == old(observer.observeCalls) + observed
      invariant observer.unobserveCalls == old(observer.unobserveCalls)
      invariant observer.targets == old(observer.targets) + (set x | x in observed)
    {
      assert sectionIds[..i + 1][..i] == sectionIds[..i];
      var id := sectionIds[i];
      if id in present {
        observer.Observe(id);
        observed := observed + [id];
      }
    }
    assert sectionIds[..|sectionIds|] == sectionIds;
  }

  /**
   * Teardown: unobserve the element of every registry id that has one, the
   * same ids the set-up observed, in the same order. Returns the ids unobserved.
   */
  method UnobserveSections(observer: Observer, present: set<string>) returns (unobserved: seq<string>)
    modifies observer
    ensures unobserved == PresentIds(SectionIds(), present)
    ensures observer.unobserveCalls == old(observer.unobserveCalls) + unobserved
    ensures observer.observeCalls == old(observer.observeCalls)
    ensures observer.targets == old(observer.targets) - (set x | x in SectionIds() && x in present)
  {
    var sectionIds := SectionIds();
    unobserved := [];
    for i := 0 to |sectionIds|
      invariant unobserved == PresentIds(sectionIds[..i], present)
      invariant observer.unobserveCalls == old(observer.unobserveCalls) + unobserved
      invariant observer.observeCalls == old(observer.observeCalls)
      invariant observer.targets == old(observer.targets) - (set x | x in unobserved)
    {
      assert sectionIds[..i + 1][..i] == sectionIds[..i];
      var id := sectionIds[i];
      if id in present {
        observer.Unobserve(id);
        unobserved := unobserved + [id];
      }
    }
    assert sectionIds[..|sectionIds|] == sectionIds;
  }

  /**
   * A fresh observer that is set up and then torn down against the same
   * document observes nothing afterwards; both loops called the observer
   * with the present registry ids, in registry order.
   */
  method SetUpAndTearDown(present: set<string>) returns (observer: Observer)
    ensures observer.targets == {}
    ensures observer.observeCalls == observer.unobserveCalls == PresentIds(SectionIds(), present)
  {
    observer := new Observer();
    var observed := ObserveSections(observer, present);
    var unobserved := UnobserveSections(observer, present);
  }
}
