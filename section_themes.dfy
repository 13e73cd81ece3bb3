/**
 * The section/theme registry: a fixed, ordered list that pairs every
 * section id of the page with the colour scheme of its background.
 */
module SectionThemes {
  import opened Wrappers

  /** The navbar theme, `'dark' | 'light'` in the TypeScript store and registry. */
  datatype Theme = Dark | Light

  /** The string literal each theme stands for in the TypeScript code. */
  function ThemeName(t: Theme): (name: string)
    ensures name == "dark" || name == "light"
    ensures name == "dark" <==> t == Dark
  {
    match t
    case Dark => "dark"
    case Light => "light"
  }

  /** One registry entry: a section id and the theme of its background. */
  datatype SectionTheme = SectionTheme(id: string, theme: Theme)

  /** The registry constant; it has no mutators. */
  const Registry: seq<SectionTheme> := [
    SectionTheme("home", Light),
    SectionTheme("about", Dark),
    SectionTheme("projects", Light),
    SectionTheme("skills", Dark),
    SectionTheme("contact", Light)
  ]

  /** The ids of a list of entries, in order (`sectionThemes.map((st) => st.id)`). */
  function Ids(rs: seq<SectionTheme>): (ids: seq<string>)
    ensures |ids| == |rs|
    ensures forall i :: 0 <= i < |rs| ==> ids[i] == rs[i].id
  {
    if rs == [] then [] else [rs[0].id] + Ids(rs[1..])
  }

  /** The ids of the registry, in registry order. */
  function SectionIds(): seq<string>
  {
    Ids(Registry)
  }

  /** The ids of a sequence, each appearing once. */
  ghost predicate NoDuplicates(ids: seq<string>)
  {
    forall i, j :: 0 <= i < j < |ids| ==> ids[i] != ids[j]
  }

  /** No two entries of `rs` share an id. */
  ghost predicate DistinctIds(rs: seq<SectionTheme>)
  {
    NoDuplicates(Ids(rs))
  }

  /**
   * The first entry whose id is `id`, as `Array.prototype.find` returns it:
   * the result is an entry of `rs` carrying that id, no earlier entry
   * carries it, and there is no result exactly when no entry carries it.
   */
  function Find(rs: seq<SectionTheme>, id: string): (r: Option<SectionTheme>)
    ensures r.Some? ==> exists k :: 0 <= k < |rs| && rs[k] == r.value && r.value.id == id
                                    && forall j :: 0 <= j < k ==> rs[j].id != id
    ensures r.None? <==> forall k :: 0 <= k < |rs| ==> rs[k].id != id
  {
    if rs == [] then None
    else if rs[0].id == id then Some(rs[0])
    else
      var r := Find(rs[1..], id);
      assert r.Some? ==> exists k :: 0 <= k < |rs[1..]| && rs[1..][k] == r.value && r.value.id == id
                                     && forall j :: 0 <= j < k ==> rs[1..][j].id != id;
      if r.Some? then
        var k :| 0 <= k < |rs[1..]| && rs[1..][k] == r.value && r.value.id == id
                 && forall j :: 0 <= j < k ==> rs[1..][j].id != id;
        assert rs[k + 1] == r.value;
        assert forall j :: 0 <= j < k + 1 ==> rs[j].id != id by {
          forall j | 0 <= j < k + 1 ensures rs[j].id != id {
            if j > 0 { assert rs[j] == rs[1..][j - 1]; }
          }
        }
        r
      else
        assert forall k :: 0 <= k < |rs| ==> rs[k].id != id by {
          forall k | 0 <= k < |rs| ensures rs[k].id != id {
            if k > 0 { assert rs[k] == rs[1..][k - 1]; }
          }
        }
        r
  }

  /** The theme the registry gives a section id, if the id is registered. */
  function ThemeOf(id: string): Option<Theme>
  {
    match Find(Registry, id)
    case Some(st) => Some(st.theme)
    case None => None
  }

  /** With pairwise distinct ids, looking up the id of the k-th entry yields that entry. */
  lemma {:induction false} FindDistinct(rs: seq<SectionTheme>, k: nat)
    requires DistinctIds(rs)
    requires k < |rs|
    ensures Find(rs, rs[k].id) == Some(rs[k])
  {
    var r := Find(rs, rs[k].id);
    assert r.Some?;
    var m :| 0 <= m < |rs| && rs[m] == r.value && r.value.id == rs[k].id
             && forall j :: 0 <= j < m ==> rs[j].id != rs[k].id;
    assert m == k;
  }

  /** The registry holds five entries: home, about, projects, skills, contact, in that order. */
  lemma RegistryShape()
    ensures |Registry| == 5
    ensures SectionIds() == ["home", "about", "projects", "skills", "contact"]
  {
  }

  /** Registry ids are pairwise distinct. */
  lemma RegistryIdsDistinct()
    ensures DistinctIds(Registry)
    ensures NoDuplicates(SectionIds())
  {
  }

  /** Themes alternate light, dark, light, dark, light in registry order. */
  lemma RegistryThemesAlternate()
    ensures forall i :: 0 <= i < |Registry| ==> Registry[i].theme == (if i % 2 == 0 then Light else Dark)
  {
  }

  /** Every registered id finds its own entry, and only registered ids find anything. */
  lemma ThemeOfRegistry(id: string)
    ensures ThemeOf(id).Some? <==> id in SectionIds()
    ensures forall k :: 0 <= k < |Registry| && Registry[k].id == id ==> ThemeOf(id) == Some(Registry[k].theme)
  {
    RegistryIdsDistinct();
    forall k | 0 <= k < |Registry| && Registry[k].id == id
      ensures ThemeOf(id) == Some(Registry[k].theme)
    {
      FindDistinct(Registry, k);
    }
    if id in SectionIds() {
      var k :| 0 <= k < |SectionIds()| && SectionIds()[k] == id;
      FindDistinct(Registry, k);
    }
  }

  /** The lookup table the registry amounts to. */
  lemma ThemeOfTable()
    ensures ThemeOf("home") == Some(Light)
    ensures ThemeOf("about") == Some(Dark)
    ensures ThemeOf("projects") == Some(Light)
    ensures ThemeOf("skills") == Some(Dark)
    ensures ThemeOf("contact") == Some(Light)
  {
    ThemeOfRegistry("home");
    ThemeOfRegistry("about");
    ThemeOfRegistry("projects");
    ThemeOfRegistry("skills");
    ThemeOfRegistry("contact");
  }
}
