/**
 * Scroll-driven navigation without the DOM: which `section[id]` is active for a
 * scroll offset, how the in-page links are highlighted for it, and where a
 * click on an in-page link scrolls to. All geometry is in whole pixels.
 */
module Navigation {
  import opened Options

  /** A `section[id]`: its `id` attribute and its vertical extent. */
  datatype Section = Section(id: string, offsetTop: int, offsetHeight: int)

  /** An `a[href^="#"]` with its two colour classes, `text-primary-600` and `text-gray-700`. */
  datatype NavLink = NavLink(href: string, primary: bool, gray: bool)

  /** An element the document can find by `getElementById`, with its `offsetTop`. */
  datatype Anchor = Anchor(id: string, offsetTop: int)

  /** The look-ahead added below the navigation bar when probing for the active section. */
  const Lookahead := 100

  /** The gap kept above a smooth-scroll target, below the navigation bar. */
  const ScrollMargin := 20

  /** The probe position `scrollY + navbarHeight + 100`. */
  function Probe(scrollY: int, navbarHeight: int): (p: int)
  {
    scrollY + navbarHeight + Lookahead
  }

  /** The probe falls in the section's extent: inclusive start, exclusive end. */
  predicate Covers(s: Section, probe: int): (b: bool)
    ensures b ==> s.offsetHeight > 0
  {
    s.offsetTop <= probe < s.offsetTop + s.offsetHeight
  }

  /** The position of the last section in document order that covers `probe`. */
  function LastMatch(sections: seq<Section>, probe: int): (r: Option<nat>)
    ensures r.None? <==> forall i :: 0 <= i < |sections| ==> !Covers(sections[i], probe)
    ensures r.Some? ==> r.value < |sections| && Covers(sections[r.value], probe)
    ensures r.Some? ==> forall j :: r.value < j < |sections| ==> !Covers(sections[j], probe)
    decreases |sections|
  {
    if sections == [] then None
    else if Covers(sections[|sections| - 1], probe) then Some(|sections| - 1)
    else LastMatch(sections[..|sections| - 1], probe)
  }

  /**
   * The `currentSection` that the scan of `updateActiveNav` ends with: the id
   * of the last covering section, or `''` if none covers the probe.
   */
  function ActiveSection(sections: seq<Section>, probe: int): (r: string)
    ensures (forall i :: 0 <= i < |sections| ==> !Covers(sections[i], probe)) ==> r == ""
    ensures forall k :: 0 <= k < |sections| && Covers(sections[k], probe)
                        && (forall j :: k < j < |sections| ==> !Covers(sections[j], probe))
                        ==> r == sections[k].id
  {
    match LastMatch(sections, probe)
    case None => ""
    case Some(k) => sections[k].id
  }

  /** The first loop of `updateActiveNav`: a scan that never stops early. */
  method ScanActiveSection(sections: seq<Section>, probe: int) returns (current: string)
    ensures current == ActiveSection(sections, probe)
  {
    current := "";
    var i := 0;
    while i < |sections|
      invariant 0 <= i <= |sections|
      invariant current == ActiveSection(sections[..i], probe)
    {
      assert sections[..i + 1][..i] == sections[..i];
      if Covers(sections[i], probe) {
        current := sections[i].id;
      }
      i := i + 1;
    }
    assert sections[..|sections|] == sections;
  }

  /** `href.substring(1)`: the fragment after the leading `#`. */
  function Fragment(href: string): (f: string)
    ensures |f| == if |href| == 0 then 0 else |href| - 1
    ensures forall i :: 0 <= i < |f| ==> f[i] == href[i + 1]
  {
    if |href| == 0 then "" else href[1..]
  }

  /**
   * The two `classList.toggle(name, force)` calls for one link: it keeps its
   * href and has exactly one of the two colour classes, the primary one
   * exactly when its fragment names the active section.
   */
  function Highlight(link: NavLink, current: string): (r: NavLink)
    ensures r.href == link.href
    ensures r.primary <==> Fragment(link.href) == current
    ensures r.gray == !r.primary
  {
    link.(primary := Fragment(link.href) == current, gray := Fragment(link.href) != current)
  }

  /** The second loop of `updateActiveNav`, over every in-page link. */
  method HighlightLinks(links: array<NavLink>, current: string)
    modifies links
    ensures forall i :: 0 <= i < links.Length ==> links[i] == Highlight(old(links[i]), current)
    ensures forall i :: 0 <= i < links.Length ==>
              links[i].href == old(links[i].href)
              && links[i].primary == (Fragment(links[i].href) == current)
              && links[i].gray == !links[i].primary
  {
    var i := 0;
    while i < links.Length
      invariant 0 <= i <= links.Length
      invariant forall k :: 0 <= k < i ==> links[k] == Highlight(old(links[k]), current)
      invariant forall k :: i <= k < links.Length ==> links[k] == old(links[k])
    {
      links[i] := Highlight(links[i], current);
      i := i + 1;
    }
  }

  /**
   * `updateActiveNav`: the scan for the active section at the probe, then the
   * highlighting of every link against it. The active id is returned.
   */
  method UpdateActiveNav(sections: seq<Section>, links: array<NavLink>, scrollY: int, navbarHeight: int)
    returns (current: string)
    modifies links
    ensures current == ActiveSection(sections, Probe(scrollY, navbarHeight))
    ensures forall i :: 0 <= i < links.Length ==> links[i] == Highlight(old(links[i]), current)
  {
    var probe := Probe(scrollY, navbarHeight);
    current := ScanActiveSection(sections, probe);
    HighlightLinks(links, current);
  }

  /** A bare `#` link is highlighted when no section covers the probe. */
  lemma BareHashHighlightedWhenNothingActive(sections: seq<Section>, probe: int, link: NavLink)
    requires link.href == "#"
    requires forall i :: 0 <= i < |sections| ==> !Covers(sections[i], probe)
    ensures Highlight(link, ActiveSection(sections, probe)).primary
  {
  }

  /**
   * The first element with the given id, as `getElementById` finds it; the
   * empty id finds nothing.
   */
  function ElementById(anchors: seq<Anchor>, id: string): (r: Option<nat>)
    ensures r.None? <==> id == "" || forall i :: 0 <= i < |anchors| ==> anchors[i].id != id
    ensures r.Some? ==> r.value < |anchors| && anchors[r.value].id == id
    ensures r.Some? ==> forall j :: 0 <= j < r.value ==> anchors[j].id != id
    decreases |anchors|
  {
    if id == "" || anchors == [] then None
    else if anchors[0].id == id then Some(0)
    else match ElementById(anchors[1..], id)
      case None => None
      case Some(k) => Some(k + 1)
  }

  /**
   * The smooth-scroll click handler: the `top` passed to `window.scrollTo`, or
   * `None` when the fragment names no element and nothing scrolls.
   */
  function ScrollTarget(href: string, anchors: seq<Anchor>, navbarHeight: int): (r: Option<int>)
    ensures r.None? <==> Fragment(href) == "" || forall i :: 0 <= i < |anchors| ==> anchors[i].id != Fragment(href)
    ensures r.Some? ==> exists k :: 0 <= k < |anchors| && anchors[k].id == Fragment(href)
                          && (forall j :: 0 <= j < k ==> anchors[j].id != Fragment(href))
                          && r.value == anchors[k].offsetTop - navbarHeight - 20
  {
    match ElementById(anchors, Fragment(href))
    case None => None
    case Some(k) => Some(anchors[k].offsetTop - navbarHeight - ScrollMargin)
  }

  /**
   * A section spanning [0, 800) with a 64-pixel navigation bar: at scroll
   * offset 700 the probe is 864 and nothing is active; a section spanning
   * [0, 1000) is active there and its link is highlighted.
   */
  lemma ProbeExample()
    ensures Probe(700, 64) == 864
    ensures ActiveSection([Section("home", 0, 800)], Probe(700, 64)) == ""
    ensures ActiveSection([Section("home", 0, 1000)], Probe(700, 64)) == "home"
    ensures Highlight(NavLink("#home", false, true), ActiveSection([Section("home", 0, 1000)], Probe(700, 64))).primary
  {
  }
}
