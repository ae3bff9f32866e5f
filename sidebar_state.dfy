/**
  The state of the `CalculusSidebar` component (components/app-siderbar.tsx):
  the active path, whether the slide-in panel is open on small screens, and
  whether the component has mounted. Each event handler becomes a method.
*/
module SidebarState {
  import opened Wrappers
  import opened Url
  import opened Navigation
  import UriComponent

  /** Everything the shell shows once mounted. */
  datatype Screen = Screen(
    menu: seq<MenuGroup>,
    panelOpen: bool,
    crumbs: seq<Crumb>,
    heading: string,
    back: Option<string>)

  /** The shell rendered for a given active path and panel state. */
  function Render(activePath: seq<string>, isSidebarOpen: bool): (s: Screen)
    ensures s.panelOpen == isSidebarOpen
    ensures |s.crumbs| == |activePath| + 1 && s.crumbs[|activePath|].text == (
      if activePath == [] then HomeLabel else s.heading)
    ensures s.back.Some? <==> activePath != []
  {
    HeadingIsLastCrumb(activePath);
    Screen(Menu(activePath), isSidebarOpen, Breadcrumbs(activePath), Heading(activePath), BackHref(activePath))
  }

  /** Section keys are written in unreserved characters, so their URL is `/` followed by the key. */
  lemma SectionUrl(i: int)
    requires 0 <= i < |CalculusData|
    ensures GenerateUrl([CalculusData[i].name]) == "/" + CalculusData[i].name
  {
    var name := CalculusData[i].name;
    assert forall k :: 0 <= k < |name| ==> UriComponent.IsUnreserved(name[k]);
    UriComponent.EncodeUnreserved(name);
  }

  /**
    The trail, heading and back link for a two-segment path, given the labels
    the two segments resolve to and the URL of the first.
  */
  lemma TwoSegmentTrail(section: string, path: string, display: string)
    requires DisplayName(section) == section && DisplayName(path) == display
    requires GenerateUrl([section]) == "/" + section
    ensures Heading([section, path]) == display
    ensures Breadcrumbs([section, path]) == [Link("/", HomeLabel), Link("/" + section, section), Current(display)]
    ensures BackHref([section, path]) == Some("/" + section)
  {
    var ap := [section, path];
    assert ap[..1] == [section];
    var crumbs := Breadcrumbs(ap);
    assert crumbs[1] == SegmentCrumb(ap, 0) == Link(GenerateUrl(ap[..1]), DisplayName(section));
    assert crumbs[2] == SegmentCrumb(ap, 1) == Current(DisplayName(path));
  }

  /**
    After a click on any exercise, the screen shows that exercise's label as
    heading, the trail "Inicio" / section / exercise with links to `/` and to
    `/section`, and a back link to `/section`.
  */
  lemma ClickedItemTrail(i: int, j: int)
    requires 0 <= i < |CalculusData| && 0 <= j < |CalculusData[i].items|
    ensures var section := CalculusData[i].name;
      var item := CalculusData[i].items[j];
      var s := Render([section, item.path], false);
      && s.heading == item.display
      && s.crumbs == [Link("/", HomeLabel), Link("/" + section, section), Current(item.display)]
      && s.back == Some("/" + section)
  {
    MenuLabelsAgree(i, j);
    SectionLabelsAreKeys(i);
    SectionUrl(i);
    TwoSegmentTrail(CalculusData[i].name, CalculusData[i].items[j].path, CalculusData[i].items[j].display);
  }

  /**
    On a two-segment path, an entry of any group is highlighted exactly when
    its path is the second segment: the group's own key is never compared.
  */
  lemma TwoSegmentHighlight(section: string, path: string, group: Section, j: int)
    requires 0 <= j < |group.items|
    ensures MenuGroupFor([section, path], group).entries[j].active <==> group.items[j].path == path
  {
  }

  /**
    After a click on any exercise, the highlighted menu entries are those
    whose path is the clicked exercise's path, in every section; one per
    section at most.
  */
  lemma ClickedItemHighlight(i: int, j: int, i': int, j': int)
    requires 0 <= i < |CalculusData| && 0 <= j < |CalculusData[i].items|
    requires 0 <= i' < |CalculusData| && 0 <= j' < |CalculusData[i'].items|
    ensures var ap := [CalculusData[i].name, CalculusData[i].items[j].path];
      Render(ap, false).menu[i'].entries[j'].active <==> CalculusData[i'].items[j'].path == CalculusData[i].items[j].path
    ensures var ap := [CalculusData[i].name, CalculusData[i].items[j].path];
      i' == i && Render(ap, false).menu[i'].entries[j'].active ==> j' == j
  {
    var section, path := CalculusData[i].name, CalculusData[i].items[j].path;
    assert Render([section, path], false).menu[i'] == MenuGroupFor([section, path], CalculusData[i']);
    TwoSegmentHighlight(section, path, CalculusData[i'], j');
    if i' == i && CalculusData[i'].items[j'].path == path {
      AtMostOneActivePerSection([section, path], i, j, j');
    }
  }

  /** With the intended test, after a click on any exercise exactly that entry is highlighted. */
  lemma ClickedItemHighlightIntended(i: int, j: int, i': int, j': int)
    requires 0 <= i < |CalculusData| && 0 <= j < |CalculusData[i].items|
    requires 0 <= i' < |CalculusData| && 0 <= j' < |CalculusData[i'].items|
    ensures var ap := [CalculusData[i].name, CalculusData[i].items[j].path];
      MenuEntryForIntended(ap, CalculusData[i'].name, CalculusData[i'].items[j']).active <==> i' == i && j' == j
  {
    var ap := [CalculusData[i].name, CalculusData[i].items[j].path];
    assert ap[..2] == ap;
    if MenuEntryForIntended(ap, CalculusData[i'].name, CalculusData[i'].items[j']).active {
      AtMostOneActive(ap, i, j, i', j');
    }
  }

  class CalculusSidebar {
    var activePath: seq<string>
    var mounted: bool
    var isSidebarOpen: bool

    /**
      What the handlers keep true: the active path is empty or names an
      exercise of the menu, and neither it nor the open panel can have been
      set before mounting (nothing is rendered, so nothing can be clicked).
    */
    ghost predicate Valid()
      reads this
    {
      && (activePath == [] || (|activePath| == 2 && IsMenuItem(activePath[0], activePath[1])))
      && (activePath != [] ==> mounted)
      && (isSidebarOpen ==> mounted)
    }

    /** The three `useState` initial values. */
    constructor ()
      ensures Valid()
      ensures activePath == [] && !mounted && !isSidebarOpen
    {
      activePath := [];
      mounted := false;
      isSidebarOpen := false;
    }

    /** The mount effect. */
    method Mount()
      requires Valid()
      modifies this
      ensures Valid()
      ensures mounted
      ensures activePath == old(activePath) && isSidebarOpen == old(isSidebarOpen)
    {
      mounted := true;
    }

    /** A click on a menu entry: the entry's own handler, then closing the panel. */
    method ClickMenuItem(section: string, path: string)
      requires Valid() && mounted
      requires IsMenuItem(section, path)
      modifies this
      ensures Valid()
      ensures activePath == [section, path] && !isSidebarOpen
      ensures mounted
    {
      activePath := [section, path];
      isSidebarOpen := false;
    }

    /** The menu button of the header. */
    method OpenSidebar()
      requires Valid() && mounted
      modifies this
      ensures Valid()
      ensures isSidebarOpen
      ensures activePath == old(activePath) && mounted
    {
      isSidebarOpen := true;
    }

    /** The X button of the slide-in panel. */
    method CloseSidebar()
      requires Valid() && mounted
      modifies this
      ensures Valid()
      ensures !isSidebarOpen
      ensures activePath == old(activePath) && mounted
    {
      isSidebarOpen := false;
    }

    /** What the component renders: nothing until mounted, then the shell. */
    function View(): (r: Option<Screen>)
      reads this
      ensures r.Some? <==> mounted
      ensures r.Some? ==> (r.value.panelOpen == isSidebarOpen &&
        (r.value.back.Some? <==> activePath != []))
    {
      if mounted then Some(Render(activePath, isSidebarOpen)) else None
    }
  }

  /**
    What any sidebar the handlers can reach shows once an exercise is active:
    the invariant makes the active path an exercise of the menu, so the
    heading is that exercise's label and the back link leads to its section.
  */
  lemma ValidView(sidebar: CalculusSidebar)
    requires sidebar.Valid() && sidebar.mounted && sidebar.activePath != []
    ensures exists i, j ::
      && 0 <= i < |CalculusData| && 0 <= j < |CalculusData[i].items|
      && sidebar.activePath == [CalculusData[i].name, CalculusData[i].items[j].path]
      && sidebar.View().Some?
      && sidebar.View().value.heading == CalculusData[i].items[j].display
      && sidebar.View().value.back == Some("/" + CalculusData[i].name)
  {
    var i, j :| 0 <= i < |CalculusData| && 0 <= j < |CalculusData[i].items| &&
      CalculusData[i].name == sidebar.activePath[0] && CalculusData[i].items[j].path == sidebar.activePath[1];
    var ap := sidebar.activePath;
    assert ap == [CalculusData[i].name, CalculusData[i].items[j].path];
    ClickedItemTrail(i, j);
    var shown := Render(ap, sidebar.isSidebarOpen);
    assert sidebar.View() == Some(shown);
    assert shown.heading == Heading(ap) == Render(ap, false).heading;
    assert shown.back == BackHref(ap) == Render(ap, false).back;
  }

  /**
    A session: mount, open the panel, pick an exercise, close the panel. The
    handlers compose: the exercise is active, its label is the heading, the
    panel is closed and the back link leads to its section.
  */
  method ClickSession(i: int, j: int) returns (sidebar: CalculusSidebar)
    requires 0 <= i < |CalculusData| && 0 <= j < |CalculusData[i].items|
    ensures sidebar.Valid()
    ensures sidebar.activePath == [CalculusData[i].name, CalculusData[i].items[j].path]
    ensures sidebar.mounted && !sidebar.isSidebarOpen
    ensures sidebar.View().Some? && sidebar.View().value.heading == CalculusData[i].items[j].display
    ensures sidebar.View().value.back == Some("/" + CalculusData[i].name)
  {
    sidebar := new CalculusSidebar();
    sidebar.Mount();
    sidebar.OpenSidebar();
    var section, item := CalculusData[i].name, CalculusData[i].items[j];
    sidebar.ClickMenuItem(section, item.path);
    sidebar.CloseSidebar();
    ClickedItemTrail(i, j);
  }
}
