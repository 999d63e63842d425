/**
 * The MediaViewer overlay guard of modules/nsfw-blur.top.js. While the viewer is
 * open its wrapper is blurred by default and unblurred only when the file it shows
 * is known and not in the sensitive set; a pointer press on marked content or on a
 * link to a sensitive file raises the page-wide pre-blur before the viewer opens.
 * Updates are throttled to one animation frame at a time.
 *
 * The functions state what each step does to the class lists; the class
 * `OverlaySync` carries the script's state and performs the steps on a `Document`.
 */
module Overlay {
  import opened Wrappers
  import opened Text
  import opened JsValues
  import opened Dom

  const LOADED := "nsfwblur-top-loaded"
  const PREBLUR := "nsfw-mmv-preblur"
  const WRAP_BLUR := "nsfw-mmv-blur"
  const FILEPAGE_BLUR := "nsfw-filepage-blur"
  const BLUR := "nsfw-blur"

  /** `.mw-mmv-wrapper`. */
  const WRAPPER_SEL: seq<Selector> := [Simple(ClassSel("mw-mmv-wrapper"))]

  /** The list of places where the viewer's versions and skins put the link to the file page. */
  const FILELINK_SEL: seq<Selector> := [
    Simple(Compound(Some("a"), ["mw-mmv-description-page-button"], [])),
    Simple(Compound(Some("a"), ["mw-mmv-repo"], [])),
    Simple(Compound(Some("a"), ["mw-mmv-filepage"], [])),
    Descendant(ClassSel("mw-mmv-title"), TagSel("a")),
    Descendant(ClassSel("mw-mmv-title-contain"), TagSel("a")),
    Simple(Compound(Some("a"), [], [AttrContains("href", "title=File:")])),
    Simple(Compound(Some("a"), [], [AttrContains("href", "/wiki/File:")])),
    Simple(Compound(Some("a"), [], [AttrContains("href", "File:")]))
  ]

  /** `.nsfw-blur a[href], a.nsfw-blur[href], img.nsfw-blur`: the markers the server and the inline script set. */
  const MARKER_SEL: seq<Selector> := [
    Descendant(ClassSel(BLUR), Compound(Some("a"), [], [HasAttr("href")])),
    Simple(Compound(Some("a"), [BLUR], [HasAttr("href")])),
    Simple(Compound(Some("img"), [BLUR], []))
  ]

  /** `.nsfw-blur, img.nsfw-blur, a.nsfw-blur`. */
  const MARKED_SEL: seq<Selector> := [
    Simple(ClassSel(BLUR)),
    Simple(Compound(Some("img"), [BLUR], [])),
    Simple(Compound(Some("a"), [BLUR], []))
  ]

  /** `a[href]`. */
  const LINK_SEL: seq<Selector> := [Simple(Compound(Some("a"), [], [HasAttr("href")]))]

  /** The mw.Title and mw.Uri oracles. */
  datatype Oracles = Oracles(newFromText: string -> Option<string>, parseUri: string -> Option<Uri>)

  /** `<html>` is node 0; `body` is the `<body>` element when there is one. */
  predicate Page(nodes: seq<Node>, body: Option<nat>)
  {
    |nodes| > 0 && (body.Some? ==> body.value < |nodes|)
  }

  /** setPreblur's target: `document.body || document.documentElement`. */
  function PreblurNode(body: Option<nat>): nat
  {
    if body.Some? then body.value else 0
  }

  /** The `href` property of an element, read as its attribute: the empty string where it is absent. */
  function HrefProperty(n: Node): string
  {
    if n.tag == "a" && "href" in n.attrs then n.attrs["href"] else ""
  }

  /* ---------------- Titles ---------------- */

  /** `/\/wiki\/(.+)$/` matches at `i`: the rest of the path is non-empty and has no line terminator. */
  predicate WikiTailAt(path: string, i: nat)
  {
    LitAt(path, i, "/wiki/", false) && i + 6 < |path| &&
    forall k :: i + 6 <= k < |path| ==> !IsLineTerminator(path[k])
  }

  /** Group 1 of the leftmost match of `/\/wiki\/(.+)$/`. */
  function WikiTail(path: string): (r: Option<string>)
    ensures r.None? <==> forall i :: 0 <= i < |path| ==> !WikiTailAt(path, i)
    ensures r.Some? ==> |r.value| + 6 <= |path| && WikiTailAt(path, |path| - |r.value| - 6) &&
                        r.value == path[|path| - |r.value|..] &&
                        forall i :: 0 <= i < |path| - |r.value| - 6 ==> !WikiTailAt(path, i)
  {
    var ok := (i: nat) => WikiTailAt(path, i);
    match FirstIndex(0, |path|, ok)
    case None =>
      assert forall i :: 0 <= i < |path| ==> !WikiTailAt(path, i) by {
        forall i | 0 <= i < |path| ensures !WikiTailAt(path, i) { assert !ok(i); }
      }
      None
    case Some(i) =>
      forall j | 0 <= j < i ensures !WikiTailAt(path, j) { assert !ok(j); }
      Some(path[i + 6..])
  }

  /**
   * titleFromHref: a falsy href or one mw.Uri rejects names nothing; a query `title`
   * decides on its own; otherwise the decoded tail of a `/wiki/` path, where a
   * decoding error names nothing.
   */
  function TitleFromHref(o: Oracles, href: string): (r: Option<string>)
    ensures href == "" || o.parseUri(href).None? ==> r.None?
  {
    if href == "" then None
    else match o.parseUri(href)
      case None => None
      case Some(uri) =>
        if Present(uri.queryTitle) then NormalizeTitle(o.newFromText, uri.queryTitle.value)
        else if uri.path == "" then None
        else match WikiTail(uri.path)
          case None => None
          case Some(x) =>
            match DecodeUriComponent(x)
            case None => None
            case Some(d) => NormalizeTitle(o.newFromText, d)
  }

  /** A URI with a query `title` names that title, whatever its path. */
  lemma QueryTitleDecides(o: Oracles, href: string, t: string, path: string)
    requires href != "" && o.parseUri(href) == Some(Uri(Some(t), path)) && t != ""
    ensures TitleFromHref(o, href) == o.newFromText(t)
  {
  }

  /** `/wiki/X` names X decoded; an escape that cannot be decoded names nothing. */
  lemma WikiPathTitle(o: Oracles, href: string, q: Option<string>, x: string)
    requires href != "" && o.parseUri(href) == Some(Uri(q, "/wiki/" + x)) && !Present(q)
    requires x != "" && forall k :: 0 <= k < |x| ==> !IsLineTerminator(x[k])
    ensures '%' !in x ==> TitleFromHref(o, href) == o.newFromText(x)
    ensures DecodeUriComponent(x).None? ==> TitleFromHref(o, href).None?
  {
    var path := "/wiki/" + x;
    assert path[6..] == x;
    assert forall k :: 6 <= k < |path| ==> path[k] == x[k - 6];
    assert WikiTailAt(path, 0);
    assert WikiTail(path) == Some(x);
  }

  /** titleFromHash: the first `File:` run of the decoded hash (kept raw when it cannot be decoded). */
  function TitleFromHash(o: Oracles, hash: string): (r: Option<string>)
    ensures (forall i :: 0 <= i < |DecodeSafe(hash)| ==> !RunMatchAt(DecodeSafe(hash), i, "File:", false, {'#', '?', '&'}))
            ==> r.None?
  {
    match SearchRun(DecodeSafe(hash), "File:", false, 0, {'#', '?', '&'})
    case None => None
    case Some(m) => NormalizeTitle(o.newFromText, m)
  }

  /**
   * A hash whose first `F` starts `File:` at `i`, with no `%`, and with no `#`, `?` or `&`
   * after it, names the file from `i` to the end (`#/media/File:Foo.jpg`).
   */
  lemma HashTitle(o: Oracles, h: string, i: nat)
    requires '%' !in h && i + 5 < |h| && LitAt(h, i, "File:", false)
    requires forall j :: 0 <= j < i ==> h[j] != 'F'
    requires forall k :: i + 5 <= k < |h| ==> h[k] !in {'#', '?', '&'}
    ensures TitleFromHash(o, h) == o.newFromText(h[i..])
  {
    var stops := {'#', '?', '&'};
    assert DecodeSafe(h) == h;
    forall j | 0 <= j < i ensures !RunMatchAt(h, j, "File:", false, stops) {
      assert h[j + 0] != "File:"[0];
    }
    SearchRunFinds(h, "File:", false, 0, stops, i, |h|);
    assert h[i..|h|] == h[i..];
    var m := SearchRun(DecodeSafe(h), "File:", false, 0, stops);
    assert m == Some(h[i..]);
    assert h[i..] != "";
  }

  /** currentMediaViewerFileTitle: the viewer's file link first, the hash router as the fallback. */
  function CurrentTitle(o: Oracles, nodes: seq<Node>, cls: seq<set<string>>, wrapper: nat, hash: string)
    : (r: Option<string>)
    requires Fits(nodes, cls) && wrapper < |nodes|
    ensures !Present(r) ==> r == TitleFromHash(o, hash)
  {
    var link := QueryFirst(nodes, cls, Some(wrapper), FILELINK_SEL);
    var t := if link.Some? then TitleFromHref(o, HrefProperty(nodes[link.value])) else None;
    if Present(t) then t else TitleFromHash(o, hash)
  }

  /** The viewer's link decides whenever it names a title; the hash is consulted only otherwise. */
  lemma LinkBeforeHash(o: Oracles, nodes: seq<Node>, cls: seq<set<string>>, wrapper: nat, hash: string)
    requires Fits(nodes, cls) && wrapper < |nodes|
    ensures var link := QueryFirst(nodes, cls, Some(wrapper), FILELINK_SEL);
            link.Some? && Present(TitleFromHref(o, HrefProperty(nodes[link.value]))) ==>
              CurrentTitle(o, nodes, cls, wrapper, hash) == TitleFromHref(o, HrefProperty(nodes[link.value]))
    ensures var link := QueryFirst(nodes, cls, Some(wrapper), FILELINK_SEL);
            link.None? || !Present(TitleFromHref(o, HrefProperty(nodes[link.value]))) ==>
              CurrentTitle(o, nodes, cls, wrapper, hash) == TitleFromHash(o, hash)
  {
  }

  /** Toggling the pre-blur class does not change the link the viewer's title comes from. */
  lemma CurrentTitleIgnoresPreblur(o: Oracles, nodes: seq<Node>, c1: seq<set<string>>, c2: seq<set<string>>,
                                   wrapper: nat, hash: string)
    requires Fits(nodes, c1) && Fits(nodes, c2) && wrapper < |nodes| && SameExcept(c1, c2, PREBLUR)
    ensures CurrentTitle(o, nodes, c1, wrapper, hash) == CurrentTitle(o, nodes, c2, wrapper, hash)
  {
    assert Avoids(FILELINK_SEL, PREBLUR);
    QueryFromAvoids(nodes, c1, c2, Some(wrapper), FILELINK_SEL, PREBLUR, 0);
  }

  /* ---------------- buildNSFWSet ---------------- */

  /** The present titles that `f` gives for the entries of `xs`. */
  function TitlesOf<X>(f: X -> Option<string>, xs: seq<X>): (r: set<string>)
    ensures forall t :: t in r <==> t != "" && exists i :: 0 <= i < |xs| && f(xs[i]) == Some(t)
  {
    set i | 0 <= i < |xs| && Present(f(xs[i])) :: f(xs[i]).value
  }

  lemma TitlesOfSnoc<X>(f: X -> Option<string>, xs: seq<X>, i: nat)
    requires i < |xs|
    ensures TitlesOf(f, xs[..i + 1]) == TitlesOf(f, xs[..i]) + if Present(f(xs[i])) then {f(xs[i]).value} else {}
  {
    var l := TitlesOf(f, xs[..i + 1]);
    var r := TitlesOf(f, xs[..i]) + if Present(f(xs[i])) then {f(xs[i]).value} else {};
    forall t ensures t in l <==> t in r {
      if t in l {
        var j :| 0 <= j < i + 1 && f(xs[..i + 1][j]) == Some(t);
        if j < i {
          assert xs[..i][j] == xs[j];
        }
      }
      if t in TitlesOf(f, xs[..i]) {
        var j :| 0 <= j < i && f(xs[..i][j]) == Some(t);
        assert xs[..i + 1][j] == xs[j];
      }
    }
  }

  /** `xs.forEach(x => { var t = f(x); if (t) set.add(t); })` on a set holding `s0`. */
  method AddTitles<X>(s0: set<string>, f: X -> Option<string>, xs: seq<X>) returns (s: set<string>)
    ensures s == s0 + TitlesOf(f, xs)
  {
    s := s0;
    for i := 0 to |xs|
      invariant s == s0 + TitlesOf(f, xs[..i])
    {
      TitlesOfSnoc(f, xs, i);
      var t := f(xs[i]);
      if Present(t) {
        s := s + {t.value};
      }
    }
    assert xs[..|xs|] == xs;
  }

  /** A configured title, normalised. */
  function ConfigTitleFn(o: Oracles): string -> Option<string>
  {
    t => NormalizeTitle(o.newFromText, t)
  }

  /** The link a marker element stands for: its own href, else that of its closest `a[href]`. */
  function MarkerHref(nodes: seq<Node>, cls: seq<set<string>>, el: nat): string
    requires Fits(nodes, cls) && el < |nodes|
  {
    var own := HrefProperty(nodes[el]);
    if own != "" then own
    else match Closest(nodes, cls, el, LINK_SEL)
      case None => ""
      case Some(a) => HrefProperty(nodes[a])
  }

  /** The title a marker element names. */
  function MarkerTitle(o: Oracles, nodes: seq<Node>, cls: seq<set<string>>, el: nat): Option<string>
  {
    if Fits(nodes, cls) && el < |nodes| then TitleFromHref(o, MarkerHref(nodes, cls, el)) else None
  }

  function MarkerTitleFn(o: Oracles, nodes: seq<Node>, cls: seq<set<string>>): nat -> Option<string>
  {
    (el: nat) => MarkerTitle(o, nodes, cls, el)
  }

  /** On a sensitive file page, the page's own title with underscores read as spaces. */
  function PageTitle(o: Oracles, nodes: seq<Node>, cls: seq<set<string>>, body: Option<nat>, pageName: Option<string>)
    : (r: Option<string>)
    requires Fits(nodes, cls) && Page(nodes, body)
    ensures r.Some? ==> body.Some? && FILEPAGE_BLUR in cls[body.value] && pageName.Some? && pageName.value != ""
    ensures body.Some? && FILEPAGE_BLUR in cls[body.value] && pageName.Some? && pageName.value != "" ==>
              r == o.newFromText(ReplaceChar(pageName.value, '_', ' '))
  {
    if body.Some? && FILEPAGE_BLUR in cls[body.value] && pageName.Some? && pageName.value != ""
    then NormalizeTitle(o.newFromText, ReplaceChar(pageName.value, '_', ' '))
    else None
  }

  /** buildNSFWSet: configured titles, titles of marked links and images, and the sensitive file page itself. */
  function NsfwSetOf(o: Oracles, nodes: seq<Node>, cls: seq<set<string>>, body: Option<nat>,
                     filesOnPage: Option<seq<string>>, pageName: Option<string>): (r: set<string>)
    requires Fits(nodes, cls) && Page(nodes, body)
    ensures "" !in r
  {
    var config := if filesOnPage.Some? then TitlesOf(ConfigTitleFn(o), filesOnPage.value) else {};
    var page := PageTitle(o, nodes, cls, body, pageName);
    config + TitlesOf(MarkerTitleFn(o, nodes, cls), QueryAll(nodes, cls, None, MARKER_SEL)) +
    (if Present(page) then {page.value} else {})
  }

  /** A configured entry contributes exactly the present title it normalises to. */
  lemma ConfigTitles(o: Oracles, list: seq<string>, t: string)
    ensures t in TitlesOf(ConfigTitleFn(o), list) <==>
              t != "" && exists x :: x in list && NormalizeTitle(o.newFromText, x) == Some(t)
  {
    var f := ConfigTitleFn(o);
    if t != "" && exists x :: x in list && NormalizeTitle(o.newFromText, x) == Some(t) {
      var x :| x in list && NormalizeTitle(o.newFromText, x) == Some(t);
      var i :| 0 <= i < |list| && list[i] == x;
      assert f(list[i]) == Some(t);
    }
  }

  /** The marker query contributes exactly the titles the matching elements of the document name. */
  lemma MarkerTitles(o: Oracles, nodes: seq<Node>, cls: seq<set<string>>, t: string)
    requires Fits(nodes, cls)
    ensures t in TitlesOf(MarkerTitleFn(o, nodes, cls), QueryAll(nodes, cls, None, MARKER_SEL)) <==>
              t != "" && exists el :: 0 <= el < |nodes| && MatchesAny(nodes, cls, el, MARKER_SEL) &&
                                     MarkerTitle(o, nodes, cls, el) == Some(t)
  {
    var markers := QueryAll(nodes, cls, None, MARKER_SEL);
    var g := MarkerTitleFn(o, nodes, cls);
    if t != "" && exists el :: 0 <= el < |nodes| && MatchesAny(nodes, cls, el, MARKER_SEL) &&
                              MarkerTitle(o, nodes, cls, el) == Some(t) {
      var el :| 0 <= el < |nodes| && MatchesAny(nodes, cls, el, MARKER_SEL) && MarkerTitle(o, nodes, cls, el) == Some(t);
      assert InScope(nodes, None, el);
      var i :| 0 <= i < |markers| && markers[i] == el;
      assert g(markers[i]) == Some(t);
    }
    if t in TitlesOf(g, markers) {
      var i :| 0 <= i < |markers| && g(markers[i]) == Some(t);
      assert MatchesAny(nodes, cls, markers[i], MARKER_SEL);
    }
  }

  /**
   * A title is in the set exactly when a configured entry normalises to it, an element
   * of the document matching the marker selectors names it, or it is the title of the
   * sensitive file page being shown.
   */
  lemma NsfwSetMembers(o: Oracles, nodes: seq<Node>, cls: seq<set<string>>, body: Option<nat>,
                       filesOnPage: Option<seq<string>>, pageName: Option<string>, t: string)
    requires Fits(nodes, cls) && Page(nodes, body)
    ensures t in NsfwSetOf(o, nodes, cls, body, filesOnPage, pageName) <==>
              t != "" &&
              ((filesOnPage.Some? && exists x :: x in filesOnPage.value && NormalizeTitle(o.newFromText, x) == Some(t)) ||
               (exists el :: 0 <= el < |nodes| && MatchesAny(nodes, cls, el, MARKER_SEL) &&
                             MarkerTitle(o, nodes, cls, el) == Some(t)) ||
               PageTitle(o, nodes, cls, body, pageName) == Some(t))
  {
    if filesOnPage.Some? {
      ConfigTitles(o, filesOnPage.value, t);
    }
    MarkerTitles(o, nodes, cls, t);
  }

  /* ---------------- update ---------------- */

  /**
   * update(): with no viewer open, drop the pre-blur; with one open, raise the pre-blur,
   * then blur the wrapper unless the file shown is known and not sensitive, and keep
   * the pre-blur exactly when the wrapper is blurred.
   */
  function Updated(o: Oracles, nodes: seq<Node>, cls: seq<set<string>>, body: Option<nat>,
                   nsfwSet: set<string>, hash: string): (r: seq<set<string>>)
    requires Fits(nodes, cls) && Page(nodes, body)
    ensures Fits(nodes, r)
  {
    var pre := PreblurNode(body);
    match QueryFirst(nodes, cls, None, WRAPPER_SEL)
    case None => ToggleClass(cls, pre, PREBLUR, false)
    case Some(w) =>
      var c1 := ToggleClass(cls, pre, PREBLUR, true);
      var title := CurrentTitle(o, nodes, c1, w, hash);
      if !Present(title) then ToggleClass(c1, w, WRAP_BLUR, true)
      else
        var nsfw := title.value in nsfwSet;
        ToggleClass(ToggleClass(c1, w, WRAP_BLUR, nsfw), pre, PREBLUR, nsfw)
  }

  /** The viewer is treated as showing sensitive content unless its file is known and not in the set. */
  predicate DefaultDeny(title: Option<string>, nsfwSet: set<string>)
  {
    !Present(title) || title.value in nsfwSet
  }

  lemma ToggleTwice(cls: seq<set<string>>, i: nat, name: string, a: bool, b: bool)
    requires i < |cls|
    ensures ToggleClass(ToggleClass(cls, i, name, a), i, name, b) == ToggleClass(cls, i, name, b)
  {
    var l := ToggleClass(ToggleClass(cls, i, name, a), i, name, b);
    var r := ToggleClass(cls, i, name, b);
    assert l[i] == r[i] by {
      assert l[i] - {name} == r[i] - {name};
    }
  }

  lemma ToggleCommutes(cls: seq<set<string>>, i: nat, n1: string, a: bool, j: nat, n2: string, b: bool)
    requires i < |cls| && j < |cls| && n1 != n2
    ensures ToggleClass(ToggleClass(cls, i, n1, a), j, n2, b) == ToggleClass(ToggleClass(cls, j, n2, b), i, n1, a)
  {
    var l := ToggleClass(ToggleClass(cls, i, n1, a), j, n2, b);
    var r := ToggleClass(ToggleClass(cls, j, n2, b), i, n1, a);
    forall k | 0 <= k < |cls| ensures l[k] == r[k] {
      if k == i || k == j {
        forall x ensures x in l[k] <==> x in r[k] {
          if x != n1 && x != n2 {
            assert x in l[k] <==> x in cls[k];
            assert x in r[k] <==> x in cls[k];
          }
        }
      }
    }
  }

  /**
   * update() sets exactly two classes: the wrapper's blur and the pre-blur, both to the
   * default-deny verdict on the file the viewer shows; nothing else changes. With no
   * viewer open only the pre-blur is cleared.
   */
  lemma UpdateSetsVerdict(o: Oracles, nodes: seq<Node>, cls: seq<set<string>>, body: Option<nat>,
                          nsfwSet: set<string>, hash: string)
    requires Fits(nodes, cls) && Page(nodes, body)
    ensures var pre := PreblurNode(body);
            var r := Updated(o, nodes, cls, body, nsfwSet, hash);
            match QueryFirst(nodes, cls, None, WRAPPER_SEL)
            case None => r == ToggleClass(cls, pre, PREBLUR, false)
            case Some(w) =>
              var deny := DefaultDeny(CurrentTitle(o, nodes, cls, w, hash), nsfwSet);
              r == ToggleClass(ToggleClass(cls, w, WRAP_BLUR, deny), pre, PREBLUR, deny)
  {
    var pre := PreblurNode(body);
    match QueryFirst(nodes, cls, None, WRAPPER_SEL)
    case None =>
    case Some(w) =>
      var c1 := ToggleClass(cls, pre, PREBLUR, true);
      CurrentTitleIgnoresPreblur(o, nodes, c1, cls, w, hash);
      var deny := DefaultDeny(CurrentTitle(o, nodes, cls, w, hash), nsfwSet);
      ToggleCommutes(cls, pre, PREBLUR, true, w, WRAP_BLUR, deny);
      ToggleTwice(ToggleClass(cls, w, WRAP_BLUR, deny), pre, PREBLUR, true, deny);
  }

  /** Default deny: while the viewer is open the wrapper is unblurred only for a known, non-sensitive file. */
  lemma UpdateDefaultDeny(o: Oracles, nodes: seq<Node>, cls: seq<set<string>>, body: Option<nat>,
                          nsfwSet: set<string>, hash: string, w: nat)
    requires Fits(nodes, cls) && Page(nodes, body) && QueryFirst(nodes, cls, None, WRAPPER_SEL) == Some(w)
    ensures var r := Updated(o, nodes, cls, body, nsfwSet, hash);
            var title := CurrentTitle(o, nodes, cls, w, hash);
            (WRAP_BLUR !in r[w] <==> Present(title) && title.value !in nsfwSet) &&
            (PREBLUR !in r[PreblurNode(body)] <==> Present(title) && title.value !in nsfwSet)
  {
    UpdateSetsVerdict(o, nodes, cls, body, nsfwSet, hash);
  }

  /* ---------------- preblurIfNSFW ---------------- */

  /** `img.nsfw-blur` and `a.nsfw-blur` add nothing to `.nsfw-blur`: the list matches the elements with the class. */
  lemma MarkedIsBlurClass(nodes: seq<Node>, cls: seq<set<string>>, i: nat)
    requires Fits(nodes, cls) && i < |nodes|
    ensures MatchesAny(nodes, cls, i, MARKED_SEL) <==> nodes[i].isElement && BLUR in cls[i]
  {
    if nodes[i].isElement && BLUR in cls[i] {
      assert Matches(nodes, cls, i, MARKED_SEL[0]);
    }
    if MatchesAny(nodes, cls, i, MARKED_SEL) {
      var k :| 0 <= k < |MARKED_SEL| && Matches(nodes, cls, i, MARKED_SEL[k]);
      assert MARKED_SEL[k].c.classNames[0] == BLUR;
    }
  }

  /**
   * preblurIfNSFW(event target): an element inside marked content raises the pre-blur;
   * otherwise its closest link does when it names a sensitive file.
   */
  function PointerDown(o: Oracles, nodes: seq<Node>, cls: seq<set<string>>, body: Option<nat>,
                       nsfwSet: set<string>, target: Option<nat>): (r: seq<set<string>>)
    requires Fits(nodes, cls) && Page(nodes, body) && (target.Some? ==> target.value < |nodes|)
    ensures Fits(nodes, r)
  {
    var pre := PreblurNode(body);
    if target.None? || !nodes[target.value].isElement then cls
    else if Closest(nodes, cls, target.value, MARKED_SEL).Some? then ToggleClass(cls, pre, PREBLUR, true)
    else match Closest(nodes, cls, target.value, LINK_SEL)
      case None => cls
      case Some(a) =>
        var t := TitleFromHref(o, HrefProperty(nodes[a]));
        if Present(t) && t.value in nsfwSet then ToggleClass(cls, pre, PREBLUR, true) else cls
  }

  /** The pressed element's closest `a[href]` names a title of the sensitive set. */
  predicate LinkNamesSensitive(o: Oracles, nodes: seq<Node>, cls: seq<set<string>>, nsfwSet: set<string>,
                               target: Option<nat>)
    requires Fits(nodes, cls) && (target.Some? ==> target.value < |nodes|)
  {
    target.Some? && nodes[target.value].isElement &&
    match Closest(nodes, cls, target.value, LINK_SEL)
    case None => false
    case Some(a) =>
      var t := TitleFromHref(o, HrefProperty(nodes[a]));
      Present(t) && t.value in nsfwSet
  }

  /** Node `i`, or one of its ancestors, is an element that carries `nsfw-blur`. */
  predicate InsideMarked(nodes: seq<Node>, cls: seq<set<string>>, i: nat)
    requires Fits(nodes, cls) && i < |nodes|
  {
    exists a: nat :: a < |nodes| && (a == i || IsAncestor(nodes, a, i)) && nodes[a].isElement && BLUR in cls[a]
  }

  /** `closest` with the marked selectors finds a node exactly when the node is inside a marked element. */
  lemma InsideMarkedIsFound(nodes: seq<Node>, cls: seq<set<string>>, i: nat)
    requires Fits(nodes, cls) && i < |nodes|
    ensures Closest(nodes, cls, i, MARKED_SEL).Some? <==> InsideMarked(nodes, cls, i)
  {
    var r := Closest(nodes, cls, i, MARKED_SEL);
    if r.Some? {
      MarkedIsBlurClass(nodes, cls, r.value);
    }
    if InsideMarked(nodes, cls, i) {
      var a: nat :| a < |nodes| && (a == i || IsAncestor(nodes, a, i)) && nodes[a].isElement && BLUR in cls[a];
      MarkedIsBlurClass(nodes, cls, a);
    }
  }

  /**
   * A pointer press never clears the pre-blur and changes no other class. Pressing an
   * element that carries `nsfw-blur` or lies inside one, or under a link that names a
   * sensitive file, always raises it, and nothing else does.
   */
  lemma PointerNeverClears(o: Oracles, nodes: seq<Node>, cls: seq<set<string>>, body: Option<nat>,
                           nsfwSet: set<string>, target: Option<nat>)
    requires Fits(nodes, cls) && Page(nodes, body) && (target.Some? ==> target.value < |nodes|)
    ensures var r := PointerDown(o, nodes, cls, body, nsfwSet, target);
            var pre := PreblurNode(body);
            (forall j :: 0 <= j < |cls| && j != pre ==> r[j] == cls[j]) &&
            r[pre] - {PREBLUR} == cls[pre] - {PREBLUR} &&
            (PREBLUR in cls[pre] ==> PREBLUR in r[pre])
    ensures target.Some? && nodes[target.value].isElement && BLUR in cls[target.value] ==>
              PREBLUR in PointerDown(o, nodes, cls, body, nsfwSet, target)[PreblurNode(body)]
    ensures target.Some? && nodes[target.value].isElement && InsideMarked(nodes, cls, target.value) ==>
              PREBLUR in PointerDown(o, nodes, cls, body, nsfwSet, target)[PreblurNode(body)]
    ensures LinkNamesSensitive(o, nodes, cls, nsfwSet, target) ==>
              PREBLUR in PointerDown(o, nodes, cls, body, nsfwSet, target)[PreblurNode(body)]
    ensures PREBLUR in PointerDown(o, nodes, cls, body, nsfwSet, target)[PreblurNode(body)] ==>
              PREBLUR in cls[PreblurNode(body)] || LinkNamesSensitive(o, nodes, cls, nsfwSet, target) ||
              (target.Some? && nodes[target.value].isElement && InsideMarked(nodes, cls, target.value))
  {
    if target.Some? && nodes[target.value].isElement && BLUR in cls[target.value] {
      MarkedIsBlurClass(nodes, cls, target.value);
    }
    if target.Some? {
      InsideMarkedIsFound(nodes, cls, target.value);
    }
  }

  /* ---------------- The script's state ---------------- */

  /** The state of nsfw-blur.top.js: the sensitive set and the animation-frame throttle. */
  class OverlaySync {
    const doc: Document
    const oracles: Oracles
    const body: Option<nat>
    const filesOnPage: Option<seq<string>>
    const pageName: Option<string>
    var nsfwSet: set<string>
    var scheduled: bool
    /** Animation-frame callbacks requested and not yet run. */
    var pendingFrames: nat

    /** At most one frame is ever pending, and `scheduled` says whether one is. */
    predicate Valid()
      reads this, doc
    {
      doc.Valid() && Page(doc.nodes, body) && pendingFrames <= 1 && (scheduled <==> pendingFrames == 1)
    }

    constructor(doc: Document, oracles: Oracles, body: Option<nat>, filesOnPage: Option<seq<string>>,
                pageName: Option<string>)
      requires doc.Valid() && Page(doc.nodes, body)
      ensures Valid() && !scheduled && pendingFrames == 0
      ensures this.doc == doc && this.oracles == oracles && this.body == body
      ensures this.filesOnPage == filesOnPage && this.pageName == pageName
      ensures nsfwSet == NsfwSetOf(oracles, doc.nodes, doc.classes, body, filesOnPage, pageName)
    {
      this.doc := doc;
      this.oracles := oracles;
      this.body := body;
      this.filesOnPage := filesOnPage;
      this.pageName := pageName;
      scheduled := false;
      pendingFrames := 0;
      new;
      nsfwSet := BuildNSFWSet();
    }

    /** buildNSFWSet, entry by entry. */
    method BuildNSFWSet() returns (s: set<string>)
      requires Valid()
      ensures s == NsfwSetOf(oracles, doc.nodes, doc.classes, body, filesOnPage, pageName)
    {
      s := {};
      if filesOnPage.Some? {
        s := AddTitles(s, ConfigTitleFn(oracles), filesOnPage.value);
      }
      var markers := QueryAll(doc.nodes, doc.classes, None, MARKER_SEL);
      s := AddTitles(s, MarkerTitleFn(oracles, doc.nodes, doc.classes), markers);
      var page := PageTitle(oracles, doc.nodes, doc.classes, body, pageName);
      if Present(page) {
        s := s + {page.value};
      }
    }

    /** scheduleUpdate (the MutationObserver and `hashchange` handler): request a frame unless one is pending. */
    method ScheduleUpdate()
      requires Valid()
      modifies this
      ensures Valid() && scheduled && pendingFrames == 1
      ensures old(scheduled) ==> pendingFrames == old(pendingFrames)
      ensures nsfwSet == old(nsfwSet)
    {
      if scheduled {
        return;
      }
      scheduled := true;
      pendingFrames := pendingFrames + 1;
    }

    /** update() against the current location hash. */
    method Update(hash: string)
      requires Valid()
      modifies doc
      ensures Valid() && doc.classes == Updated(oracles, doc.nodes, old(doc.classes), body, nsfwSet, hash)
    {
      var pre := PreblurNode(body);
      var wrapper := QueryFirst(doc.nodes, doc.classes, None, WRAPPER_SEL);
      if wrapper.None? {
        doc.classes := ToggleClass(doc.classes, pre, PREBLUR, false);
        return;
      }
      var w := wrapper.value;
      doc.classes := ToggleClass(doc.classes, pre, PREBLUR, true);
      var title := CurrentTitle(oracles, doc.nodes, doc.classes, w, hash);
      if !Present(title) {
        doc.classes := ToggleClass(doc.classes, w, WRAP_BLUR, true);
        return;
      }
      var isNsfw := title.value in nsfwSet;
      doc.classes := ToggleClass(doc.classes, w, WRAP_BLUR, isNsfw);
      doc.classes := ToggleClass(doc.classes, pre, PREBLUR, isNsfw);
    }

    /** The requested animation frame: clear the flag, then update. */
    method OnFrame(hash: string)
      requires Valid() && pendingFrames > 0
      modifies this, doc
      ensures Valid() && !scheduled && pendingFrames == 0 && nsfwSet == old(nsfwSet)
      ensures doc.classes == Updated(oracles, doc.nodes, old(doc.classes), body, nsfwSet, hash)
    {
      pendingFrames := pendingFrames - 1;
      scheduled := false;
      Update(hash);
    }

    /** The capturing `pointerdown`, `mousedown` and `touchstart` handler. */
    method OnPointerDown(target: Option<nat>)
      requires Valid() && (target.Some? ==> target.value < |doc.nodes|)
      modifies doc
      ensures Valid() && doc.classes == PointerDown(oracles, doc.nodes, old(doc.classes), body, nsfwSet, target)
    {
      if target.None? || !doc.nodes[target.value].isElement {
        return;
      }
      var pre := PreblurNode(body);
      if Closest(doc.nodes, doc.classes, target.value, MARKED_SEL).Some? {
        doc.classes := ToggleClass(doc.classes, pre, PREBLUR, true);
        return;
      }
      var a := Closest(doc.nodes, doc.classes, target.value, LINK_SEL);
      if a.None? {
        return;
      }
      var t := TitleFromHref(oracles, HrefProperty(doc.nodes[a.value]));
      if Present(t) && t.value in nsfwSet {
        doc.classes := ToggleClass(doc.classes, pre, PREBLUR, true);
      }
    }

    /** The `wikipage.content` hook: rebuild the set, then schedule an update. */
    method OnContent()
      requires Valid()
      modifies this
      ensures Valid() && scheduled && pendingFrames == 1
      ensures nsfwSet == NsfwSetOf(oracles, doc.nodes, doc.classes, body, filesOnPage, pageName)
    {
      nsfwSet := BuildNSFWSet();
      ScheduleUpdate();
    }
  }

  /**
   * The script's start: `<html>` gets the marker class; for a user who unblurs nothing
   * else happens, otherwise the set is built and a first update is scheduled.
   */
  method Start(doc: Document, unblur: JsValue, oracles: Oracles, body: Option<nat>,
               filesOnPage: Option<seq<string>>, pageName: Option<string>)
    returns (sync: Option<OverlaySync>)
    requires doc.Valid() && Page(doc.nodes, body)
    modifies doc
    ensures doc.Valid() && doc.classes == AddClass(old(doc.classes), 0, LOADED)
    ensures sync.None? <==> IsTruthy(unblur)
    ensures sync.Some? ==>
              fresh(sync.value) && sync.value.Valid() && sync.value.doc == doc && sync.value.scheduled &&
              sync.value.nsfwSet == NsfwSetOf(oracles, doc.nodes, doc.classes, body, filesOnPage, pageName)
  {
    doc.classes := AddClass(doc.classes, 0, LOADED);
    if IsTruthy(unblur) {
      return None;
    }
    var s := new OverlaySync(doc, oracles, body, filesOnPage, pageName);
    s.ScheduleUpdate();
    return Some(s);
  }
}
