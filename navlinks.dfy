/**
 * Active nav link highlighting, `initActiveNavLink` and its `update`
 * listener: the last section scrolled past decides which links are active.
 */
module NavLinks {
  import opened Wrappers

  /** A `section[id]` element: its id and its integer `offsetTop`. */
  datatype Section = Section(id: string, offsetTop: int)

  const NavHeight: int := 80

  /** `window.scrollY >= section.offsetTop - navHeight - 40`. */
  predicate Reached(section: Section, scrollY: int) {
    scrollY >= section.offsetTop - NavHeight - 40
  }

  /** Index of the last section, in document order, that `scrollY` has
      reached, or -1 when none has. */
  function LastReached(sections: seq<Section>, scrollY: int): (k: int)
    ensures -1 <= k < |sections|
    ensures k >= 0 ==> Reached(sections[k], scrollY)
    ensures forall j :: k < j < |sections| ==> !Reached(sections[j], scrollY)
  {
    if sections == [] then -1
    else if Reached(sections[|sections| - 1], scrollY) then |sections| - 1
    else LastReached(sections[..|sections| - 1], scrollY)
  }

  /** The id of the section `update` selects, or `''` when none is reached. */
  function SelectedId(sections: seq<Section>, scrollY: int): string {
    var k := LastReached(sections, scrollY);
    if k < 0 then "" else sections[k].id
  }

  /** The first loop of `update`: each reached section overwrites `current`. */
  method CurrentSection(sections: seq<Section>, scrollY: int) returns (current: string)
    ensures current == SelectedId(sections, scrollY)
  {
    current := "";
    var i := 0;
    while i < |sections|
      invariant 0 <= i <= |sections|
      invariant current == SelectedId(sections[..i], scrollY)
    {
      if Reached(sections[i], scrollY) {
        current := sections[i].id;
      }
      assert sections[..i + 1][..i] == sections[..i];
      i := i + 1;
    }
    assert sections[..i] == sections;
  }

  /** A link becomes active when its href is `'#' + current`, or when it is a
      home link (`index.html` or `./`) and `current` is `home` or empty. */
  predicate LinkActive(href: string, current: string) {
    || href == "#" + current
    || ((href == "index.html" || href == "./") && (current == "home" || current == ""))
  }

  /** Before any section is reached, exactly the home links and a bare `#`
      are active. */
  lemma NothingReachedHighlightsHome(sections: seq<Section>, scrollY: int, href: string)
    requires forall i :: 0 <= i < |sections| ==> !Reached(sections[i], scrollY)
    ensures LinkActive(href, SelectedId(sections, scrollY)) <==> href in {"#", "index.html", "./"}
  {
    assert SelectedId(sections, scrollY) == "";
    assert "#" + "" == "#";
  }

  /** A link `#id` is active exactly when the section selected has id `id`. */
  lemma SectionLinkActive(sections: seq<Section>, scrollY: int, id: string)
    ensures LinkActive("#" + id, SelectedId(sections, scrollY)) <==> id == SelectedId(sections, scrollY)
  {
    var current := SelectedId(sections, scrollY);
    assert ("#" + id)[0] == '#';
    assert "index.html"[0] != '#' && "./"[0] != '#';
    if "#" + id == "#" + current {
      assert id == ("#" + id)[1..] == ("#" + current)[1..] == current;
    }
  }

  /** The ids of the sections, which `querySelectorAll` fixes once. */
  function Ids(sections: seq<Section>): (ids: seq<string>)
    ensures |ids| == |sections| && forall i :: 0 <= i < |ids| ==> ids[i] == sections[i].id
  {
    seq(|sections|, i requires 0 <= i < |sections| => sections[i].id)
  }

  /** The sections' `offsetTop` values in one layout. */
  function Tops(sections: seq<Section>): (tops: seq<int>)
    ensures |tops| == |sections| && forall i :: 0 <= i < |tops| ==> tops[i] == sections[i].offsetTop
  {
    seq(|sections|, i requires 0 <= i < |sections| => sections[i].offsetTop)
  }

  /** The sections with ids `ids` laid out at `tops`. */
  function Layout(ids: seq<string>, tops: seq<int>): (sections: seq<Section>)
    requires |ids| == |tops|
    ensures Ids(sections) == ids && Tops(sections) == tops
  {
    seq(|ids|, i requires 0 <= i < |ids| => Section(ids[i], tops[i]))
  }

  /** Splitting sections into ids and positions and laying them out again
      gives the same sections. */
  lemma LayoutOfSections(sections: seq<Section>)
    ensures Layout(Ids(sections), Tops(sections)) == sections
  {
  }

  /** The same scroll position selects another section once a section's
      `offsetTop` has changed, e.g. after an image above it has loaded. */
  lemma LayoutChangeMovesSelection()
    ensures SelectedId(Layout(["home", "about"], [0, 1000]), 0) == "home"
    ensures SelectedId(Layout(["home", "about"], [0, 100]), 0) == "about"
  {
  }

  class NavHighlighter {
    /** The `section[id]` elements' ids, in document order. */
    const ids: seq<string>
    /** `link.getAttribute('href') || ''` for each `.nav-link`. */
    const hrefs: seq<string>
    /** Whether each `.nav-link` has the class `active`. */
    const active: array<bool>

    ghost predicate Valid()
      reads this
    {
      |ids| > 0 && active.Length == |hrefs|
    }

    constructor (ids: seq<string>, hrefs: seq<string>)
      requires |ids| > 0
      ensures Valid() && this.ids == ids && this.hrefs == hrefs && fresh(active)
    {
      this.ids := ids;
      this.hrefs := hrefs;
      active := new bool[|hrefs|];
    }

    /** `update()`: every link's `active` class is recomputed from the
        section selected at `scrollY`, with each section's `offsetTop` read
        afresh: `tops` is the layout at the time of this call. */
    method Update(tops: seq<int>, scrollY: int)
      requires Valid() && |tops| == |ids|
      modifies active
      ensures forall i :: 0 <= i < active.Length ==>
        active[i] == LinkActive(hrefs[i], SelectedId(Layout(ids, tops), scrollY))
    {
      var current := CurrentSection(Layout(ids, tops), scrollY);
      var i := 0;
      while i < active.Length
        invariant 0 <= i <= active.Length
        invariant forall j :: 0 <= j < i ==> active[j] == LinkActive(hrefs[j], current)
      {
        active[i] := false;
        if hrefs[i] == "#" + current {
          active[i] := true;
        }
        if (hrefs[i] == "index.html" || hrefs[i] == "./") && (current == "home" || current == "") {
          active[i] := true;
        }
        i := i + 1;
      }
    }
  }

  /** `initActiveNavLink`: a page without `section[id]` elements binds nothing
      and keeps its hard-coded active link; otherwise `update` runs once. */
  method InitActiveNavLink(sections: seq<Section>, hrefs: seq<string>, scrollY: int) returns (r: Option<NavHighlighter>)
    ensures r.None? <==> sections == []
    ensures r.Some? ==> fresh(r.value) && fresh(r.value.active) && r.value.Valid()
    ensures r.Some? ==> r.value.hrefs == hrefs && r.value.ids == Ids(sections)
    ensures r.Some? ==> forall i :: 0 <= i < r.value.active.Length ==>
      r.value.active[i] == LinkActive(hrefs[i], SelectedId(sections, scrollY))
  {
    if |sections| == 0 {
      return None;
    }
    var h := new NavHighlighter(Ids(sections), hrefs);
    LayoutOfSections(sections);
    h.Update(Tops(sections), scrollY);
    return Some(h);
  }
}
