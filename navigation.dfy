/**
  The navigation logic of the calculus sidebar (components/app-siderbar.tsx):
  the constant menu tables, label lookup, the active-item test, and the
  breadcrumb trail, heading and back link derived from the active path.
*/
module Navigation {
  import opened Wrappers
  import opened Url

  /** One exercise of the menu: the URL segment and the label shown. */
  datatype CalculusItem = CalculusItem(path: string, display: string)

  /** One menu group: its key (also its URL segment) and its exercises, in order. */
  datatype Section = Section(name: string, items: seq<CalculusItem>)

  /** `calculusData`, in declaration order (the order `Object.entries` yields). */
  const CalculusData: seq<Section> := [
    Section("CAUCHY-EULER", [
      CalculusItem("a", "EJERCICIO A)"),
      CalculusItem("b", "EJERCICIO B)"),
      CalculusItem("c", "EJERCICIO C)"),
      CalculusItem("d", "EJERCICIO D)"),
      CalculusItem("e", "EJERCICIO E)")
    ]),
    Section("ORDEN-SUPERIOR-1", [
      CalculusItem("a", "EJERCICIO A)"),
      CalculusItem("b", "EJERCICIO B)"),
      CalculusItem("c", "EJERCICIO C)"),
      CalculusItem("d", "EJERCICIO D)")
    ])
  ]

  /** `displayNames`: labels that take precedence over the menu tables. */
  const DisplayNames: map<string, string> := map[
    "calculoDiferencial" := "Hola",
    "calculoIntegral" := "Cálculo Integral"
  ]

  /** The heading shown while no exercise is active. */
  const DefaultHeading: string := "JavaScript para Gráficar Ecuaciones Diferenciales"

  /** The label and target of the first breadcrumb. */
  const HomeLabel: string := "Inicio"

  /** `(section, path)` names an exercise of the menu. */
  predicate IsMenuItem(section: string, path: string) {
    exists i, j :: 0 <= i < |CalculusData| && 0 <= j < |CalculusData[i].items| &&
      CalculusData[i].name == section && CalculusData[i].items[j].path == path
  }

  /** `items.find(item => item.path === path)`: the first item with that path. */
  function Find(items: seq<CalculusItem>, path: string): (r: Option<CalculusItem>)
    ensures r.None? <==> forall j :: 0 <= j < |items| ==> items[j].path != path
    ensures forall j :: (0 <= j < |items| && items[j].path == path &&
      (forall k :: 0 <= k < j ==> items[k].path != path)) ==> r == Some(items[j])
  {
    if items == [] then None
    else if items[0].path == path then Some(items[0])
    else Find(items[1..], path)
  }

  /** The first item with that path, scanning sections in order; its label. */
  function LookupSections(sections: seq<Section>, path: string): (r: Option<string>)
    ensures r.None? <==> forall i, j :: 0 <= i < |sections| && 0 <= j < |sections[i].items| ==>
      sections[i].items[j].path != path
  {
    if sections == [] then None
    else match Find(sections[0].items, path)
      case Some(item) => Some(item.display)
      case None =>
        var r := LookupSections(sections[1..], path);
        assert forall i :: 1 <= i < |sections| ==> sections[i] == sections[1..][i - 1];
        r
  }

  /** `(i, j)` is the first item with that path, sections and items in order. */
  predicate IsFirstMatch(sections: seq<Section>, path: string, i: int, j: int) {
    && 0 <= i < |sections| && 0 <= j < |sections[i].items|
    && sections[i].items[j].path == path
    && (forall i', j' :: 0 <= i' < i && 0 <= j' < |sections[i'].items| ==> sections[i'].items[j'].path != path)
    && (forall j' :: 0 <= j' < j ==> sections[i].items[j'].path != path)
  }

  /** The scan returns the label of the first matching item. */
  lemma {:induction false} LookupFirstMatch(sections: seq<Section>, path: string, i: int, j: int)
    requires IsFirstMatch(sections, path, i, j)
    ensures LookupSections(sections, path) == Some(sections[i].items[j].display)
  {
    if i > 0 {
      assert Find(sections[0].items, path).None?;
      var rest := sections[1..];
      assert rest[i - 1] == sections[i];
      forall i', j' | 0 <= i' < i - 1 && 0 <= j' < |rest[i'].items|
        ensures rest[i'].items[j'].path != path
      {
        assert rest[i'] == sections[i' + 1];
      }
      LookupFirstMatch(rest, path, i - 1, j);
    }
  }

  /**
    The label `getDisplayName` gives: the `displayNames` entry when there is a
    non-empty one (the source tests the entry's truthiness), otherwise the
    label of the first menu item with that path, otherwise the input itself.
  */
  function DisplayName(path: string): string {
    if path in DisplayNames && DisplayNames[path] != "" then DisplayNames[path]
    else match LookupSections(CalculusData, path)
      case Some(display) => display
      case None => path
  }

  /** `getDisplayName`: a table lookup, then a section-by-section search that stops at the first hit. */
  method GetDisplayName(path: string) returns (name: string)
    ensures name == DisplayName(path)
  {
    if path in DisplayNames && DisplayNames[path] != "" {
      return DisplayNames[path];
    }
    var i := 0;
    while i < |CalculusData|
      invariant 0 <= i <= |CalculusData|
      invariant LookupSections(CalculusData, path) == LookupSections(CalculusData[i..], path)
    {
      var item := Find(CalculusData[i].items, path);
      if item.Some? {
        return item.value.display;
      }
      assert CalculusData[i..][1..] == CalculusData[i + 1..];
      i := i + 1;
    }
    return path;
  }

  /** The three precedence levels of `getDisplayName`. */
  lemma DisplayNamePrecedence(path: string)
    ensures path in DisplayNames ==> DisplayName(path) == DisplayNames[path]
    ensures path !in DisplayNames &&
      (forall i, j :: 0 <= i < |CalculusData| && 0 <= j < |CalculusData[i].items| ==>
        CalculusData[i].items[j].path != path)
      ==> DisplayName(path) == path
  {
  }

  /** Outside `displayNames`, the first matching menu item, in declaration order, gives the label. */
  lemma DisplayNameFirstMatch(path: string, i: int, j: int)
    requires path !in DisplayNames
    requires IsFirstMatch(CalculusData, path, i, j)
    ensures DisplayName(path) == CalculusData[i].items[j].display
  {
    LookupFirstMatch(CalculusData, path, i, j);
  }

  /** "a" names an exercise in both sections; the label comes from CAUCHY-EULER, the first. */
  lemma DisplayNameFirstSection()
    ensures DisplayName("a") == CalculusData[0].items[0].display == "EJERCICIO A)"
  {
    LookupFirstMatch(CalculusData, "a", 0, 0);
  }

  /** The `displayNames` entries are the labels of their keys. */
  lemma DisplayNameTableEntries()
    ensures DisplayName("calculoDiferencial") == "Hola"
    ensures DisplayName("calculoIntegral") == "Cálculo Integral"
  {
  }

  /** An example: "x", found in no table, is its own label. */
  lemma DisplayNameUnknown()
    ensures DisplayName("x") == "x"
  {
  }

  /** The tables agree: every exercise's path resolves to its own label, whichever section it is in. */
  lemma MenuLabelsAgree(i: int, j: int)
    requires 0 <= i < |CalculusData| && 0 <= j < |CalculusData[i].items|
    ensures DisplayName(CalculusData[i].items[j].path) == CalculusData[i].items[j].display
  {
    var ce := CalculusData[0].items;
    assert forall k :: 0 <= k < |ce| ==> ce[k].path == [('a' as int + k) as char];
    assert IsFirstMatch(CalculusData, CalculusData[i].items[j].path, 0, j);
    LookupFirstMatch(CalculusData, CalculusData[i].items[j].path, 0, j);
  }

  /** Every section key labels its group as itself. */
  lemma SectionLabelsAreKeys(i: int)
    requires 0 <= i < |CalculusData|
    ensures DisplayName(CalculusData[i].name) == CalculusData[i].name
  {
  }

  /** Section keys are distinct, and so are the paths inside one section. */
  lemma MenuKeysUnique()
    ensures forall i, i' :: 0 <= i < i' < |CalculusData| ==> CalculusData[i].name != CalculusData[i'].name
    ensures forall i, j, j' :: 0 <= i < |CalculusData| && 0 <= j < j' < |CalculusData[i].items| ==>
      CalculusData[i].items[j].path != CalculusData[i].items[j'].path
  {
    forall i, j, j' | 0 <= i < |CalculusData| && 0 <= j < j' < |CalculusData[i].items|
      ensures CalculusData[i].items[j].path != CalculusData[i].items[j'].path
    {
      var items := CalculusData[i].items;
      assert forall k :: 0 <= k < |items| ==> items[k].path == [('a' as int + k) as char];
      assert items[j].path[0] != items[j'].path[0];
    }
  }

  // ---- Active item ---------------------------------------------------------

  /**
    The active test as the source writes it (`activePath[1] === path`): only
    the exercise segment is compared, never the section; reading past the end
    of a shorter path gives `undefined`, which equals no string.
  */
  predicate IsActive(activePath: seq<string>, path: string) {
    |activePath| > 1 && activePath[1] == path
  }

  /**
    As written, the test marks an item active in a section other than the one
    clicked: after clicking CAUCHY-EULER / a, ORDEN-SUPERIOR-1 / a is active too.
  */
  lemma IsActiveIgnoresSection()
    ensures var clicked := [CalculusData[0].name, CalculusData[0].items[0].path];
      && IsActive(clicked, CalculusData[0].items[0].path)
      && IsActive(clicked, CalculusData[1].items[0].path)
      && CalculusData[1].name != clicked[0]
  {
  }

  /**
    As written, the highlighted entries of one section are at most one: the
    paths inside a section are distinct, so `activePath[1]` matches at most
    one of them. Across sections every entry with that path is highlighted.
  */
  lemma AtMostOneActivePerSection(activePath: seq<string>, i: int, j: int, j': int)
    requires 0 <= i < |CalculusData| && 0 <= j < |CalculusData[i].items| && 0 <= j' < |CalculusData[i].items|
    requires IsActive(activePath, CalculusData[i].items[j].path)
    requires IsActive(activePath, CalculusData[i].items[j'].path)
    ensures j == j'
  {
    MenuKeysUnique();
  }

  /** The active test with the section compared as well. */
  predicate IsActiveItem(activePath: seq<string>, section: string, path: string) {
    |activePath| > 1 && activePath[0] == section && activePath[1] == path
  }

  /** With the section compared, at most one menu entry is active. */
  lemma AtMostOneActive(activePath: seq<string>, i: int, j: int, i': int, j': int)
    requires 0 <= i < |CalculusData| && 0 <= j < |CalculusData[i].items|
    requires 0 <= i' < |CalculusData| && 0 <= j' < |CalculusData[i'].items|
    requires IsActiveItem(activePath, CalculusData[i].name, CalculusData[i].items[j].path)
    requires IsActiveItem(activePath, CalculusData[i'].name, CalculusData[i'].items[j'].path)
    ensures i == i' && j == j'
  {
    MenuKeysUnique();
  }

  // ---- Rendered navigation -------------------------------------------------

  /** One rendered menu entry: its link, its label, whether it is highlighted. */
  datatype MenuEntry = MenuEntry(href: string, display: string, active: bool)

  /** One rendered menu group: its label and its entries. */
  datatype MenuGroup = MenuGroup(text: string, entries: seq<MenuEntry>)

  /**
    The entry rendered for one exercise of a section: it links to the URL of
    the section and the exercise's path, shows the exercise's label, and is
    highlighted by the test as written, whenever the second segment of the
    active path is the exercise's path, whatever the section.
  */
  function MenuEntryFor(activePath: seq<string>, section: string, item: CalculusItem): (e: MenuEntry)
    ensures e.href == GenerateUrl([section, item.path]) && ParseUrl(e.href) == Some([section, item.path])
    ensures e.display == item.display
    ensures e.active <==> |activePath| > 1 && activePath[1] == item.path
  {
    ParseGenerateUrl([section, item.path]);
    MenuEntry(GenerateUrl([section, item.path]), item.display, IsActive(activePath, item.path))
  }

  /** The entry as evidently intended: highlighted only when both the section and the path match. */
  function MenuEntryForIntended(activePath: seq<string>, section: string, item: CalculusItem): (e: MenuEntry)
    ensures e.href == MenuEntryFor(activePath, section, item).href
    ensures e.display == item.display
    ensures e.active <==> |activePath| >= 2 && activePath[..2] == [section, item.path]
  {
    MenuEntry(GenerateUrl([section, item.path]), item.display, IsActiveItem(activePath, section, item.path))
  }

  /**
    The group rendered for one section: labelled by the label lookup of its
    key, then one entry per exercise, in order, each linking to the URL of
    the section and the exercise and highlighted by the test as written.
  */
  function MenuGroupFor(activePath: seq<string>, section: Section): (g: MenuGroup)
    ensures g.text == DisplayName(section.name)
    ensures |g.entries| == |section.items|
    ensures forall j :: 0 <= j < |g.entries| ==>
      && g.entries[j].href == GenerateUrl([section.name, section.items[j].path])
      && ParseUrl(g.entries[j].href) == Some([section.name, section.items[j].path])
      && g.entries[j].display == section.items[j].display
      && (g.entries[j].active <==> |activePath| > 1 && activePath[1] == section.items[j].path)
  {
    MenuGroup(DisplayName(section.name),
      seq(|section.items|, j requires 0 <= j < |section.items| =>
        MenuEntryFor(activePath, section.name, section.items[j])))
  }

  /** The menu: one group per section, in order, each labelled with its section key. */
  function Menu(activePath: seq<string>): (groups: seq<MenuGroup>)
    ensures |groups| == |CalculusData|
    ensures forall i :: 0 <= i < |groups| ==> groups[i] == MenuGroupFor(activePath, CalculusData[i])
    ensures forall i :: 0 <= i < |groups| ==> groups[i].text == CalculusData[i].name
  {
    forall i | 0 <= i < |CalculusData| { SectionLabelsAreKeys(i); }
    seq(|CalculusData|, i requires 0 <= i < |CalculusData| => MenuGroupFor(activePath, CalculusData[i]))
  }

  /** One breadcrumb: a link to an ancestor, or the current page as plain text. */
  datatype Crumb = Link(href: string, text: string) | Current(text: string)

  /** The crumb for segment `k`: plain text for the last segment, else a link to the path up to it. */
  function SegmentCrumb(activePath: seq<string>, k: int): (c: Crumb)
    requires 0 <= k < |activePath|
    ensures c.text == DisplayName(activePath[k])
    ensures c.Current? <==> k == |activePath| - 1
    ensures c.Link? ==> ParseUrl(c.href) == Some(activePath[..k + 1])
  {
    if k == |activePath| - 1 then Current(DisplayName(activePath[k]))
    else
      ParseGenerateUrl(activePath[..k + 1]);
      Link(GenerateUrl(activePath[..k + 1]), DisplayName(activePath[k]))
  }

  /**
    The breadcrumb trail: "Inicio" linking to `/`, then one crumb per
    segment of the active path, labelled by `getDisplayName`; every crumb
    but the last links to the URL of the path up to and including it.
  */
  function Breadcrumbs(activePath: seq<string>): (crumbs: seq<Crumb>)
    ensures |crumbs| == |activePath| + 1
    ensures crumbs[0] == Link("/", HomeLabel)
  {
    [Link("/", HomeLabel)] +
    seq(|activePath|, k requires 0 <= k < |activePath| => SegmentCrumb(activePath, k))
  }

  /** Crumb `k` carries the label of segment `k - 1`; only the crumb of the last segment is plain text. */
  lemma {:induction false} CrumbLabel(activePath: seq<string>, k: int)
    requires 1 <= k <= |activePath|
    ensures Breadcrumbs(activePath)[k].text == DisplayName(activePath[k - 1])
    ensures Breadcrumbs(activePath)[k].Current? <==> k == |activePath|
  {
    var crumb := SegmentCrumb(activePath, k - 1);
    assert Breadcrumbs(activePath)[k] == crumb;
    if k == |activePath| {
      assert crumb == Current(DisplayName(activePath[k - 1]));
    } else {
      assert crumb == Link(GenerateUrl(activePath[..k]), DisplayName(activePath[k - 1]));
    }
  }

  /** The crumb at position `k`, before the last, links to the URL of the first `k` segments. */
  lemma {:induction false} CrumbTarget(activePath: seq<string>, k: int)
    requires 0 <= k < |activePath|
    ensures Breadcrumbs(activePath)[k].Link?
    ensures Breadcrumbs(activePath)[k].href == GenerateUrl(activePath[..k])
  {
    var crumbs := Breadcrumbs(activePath);
    if k == 0 {
      assert activePath[..0] == [];
    } else {
      assert crumbs[k] == SegmentCrumb(activePath, k - 1);
      assert k - 1 != |activePath| - 1;
    }
  }

  /**
    Every link of the trail leads to an ancestor of the current page: the
    crumb at position `k` links to a prefix of the current page's URL that
    ends at a segment boundary and reads back as the first `k` segments.
  */
  lemma {:induction false} BreadcrumbLinksAreAncestors(activePath: seq<string>, k: int)
    requires 0 <= k < |activePath|
    ensures Breadcrumbs(activePath)[k].Link?
    ensures Breadcrumbs(activePath)[k].href <= GenerateUrl(activePath)
    ensures k >= 1 ==>
      |Breadcrumbs(activePath)[k].href| < |GenerateUrl(activePath)| &&
      GenerateUrl(activePath)[|Breadcrumbs(activePath)[k].href|] == '/'
    ensures k >= 1 ==> ParseUrl(Breadcrumbs(activePath)[k].href) == Some(activePath[..k])
  {
    CrumbTarget(activePath, k);
    GenerateUrlPrefix(activePath, k);
    if k >= 1 {
      ParseGenerateUrl(activePath[..k]);
    }
  }

  /**
    Along the trail each link target is a prefix of the next, strictly from
    the first exercise-level crumb on. ("Inicio" links to `/`, which equals
    the next target only when the first segment is empty.)
  */
  lemma {:induction false} BreadcrumbLinksNest(activePath: seq<string>, k: int, k': int)
    requires 0 <= k < k' < |activePath|
    ensures Breadcrumbs(activePath)[k].href <= Breadcrumbs(activePath)[k'].href
    ensures k >= 1 ==> Breadcrumbs(activePath)[k].href < Breadcrumbs(activePath)[k'].href
  {
    var target := activePath[..k'];
    CrumbTarget(activePath, k);
    CrumbTarget(activePath, k');
    assert activePath[..k] == target[..k];
    GenerateUrlPrefix(target, k);
  }

  /** The page heading: the label of the last segment, or the default title. */
  function Heading(activePath: seq<string>): string {
    if |activePath| > 0 then DisplayName(activePath[|activePath| - 1]) else DefaultHeading
  }

  /** The heading repeats the label of the last crumb, the current page. */
  lemma HeadingIsLastCrumb(activePath: seq<string>)
    ensures |activePath| > 0 ==>
      Heading(activePath) == Breadcrumbs(activePath)[|activePath|].text &&
      Breadcrumbs(activePath)[|activePath|].Current?
    ensures |activePath| == 0 ==> Heading(activePath) == DefaultHeading
  {
    if |activePath| > 0 {
      CrumbLabel(activePath, |activePath|);
    }
  }

  /** The "Volver" link: shown only on a non-empty path, to the URL of the path minus its last segment. */
  function BackHref(activePath: seq<string>): (r: Option<string>)
    ensures r.Some? <==> |activePath| > 0
  {
    if |activePath| > 0 then Some(GenerateUrl(activePath[..|activePath| - 1])) else None
  }

  /**
    The back link goes where the crumb just before the current one goes:
    to the parent of the current page, and to `/` from a one-segment path.
  */
  lemma {:induction false} BackLinkIsPreviousCrumb(activePath: seq<string>)
    requires |activePath| > 0
    ensures Breadcrumbs(activePath)[|activePath| - 1].Link?
    ensures BackHref(activePath) == Some(Breadcrumbs(activePath)[|activePath| - 1].href)
    ensures BackHref(activePath).value <= GenerateUrl(activePath)
    ensures |activePath| == 1 ==> BackHref(activePath) == Some("/")
    ensures |activePath| >= 2 ==> ParseUrl(BackHref(activePath).value) == Some(activePath[..|activePath| - 1])
  {
    var n := |activePath|;
    var parent := activePath[..n - 1];
    CrumbTarget(activePath, n - 1);
    GenerateUrlPrefix(activePath, n - 1);
    if n == 1 {
      assert parent == [];
    } else {
      ParseGenerateUrl(parent);
    }
  }
}
