/**
 * The inline blur controller of modules/nsfw-blur.js. It resolves the file title
 * an image shows, and for an image in the sensitive set it adds `nsfw-blur` to the
 * image and to the ancestors the stylesheet keys on. It scans a subtree, spreads
 * the class from marked links to their images, and handles nodes that a
 * MutationObserver reports as added.
 *
 * The functions state what each operation does to the class lists. The class
 * `BlurController` performs the operations in place on a `Document`, and each of
 * its methods is proved against the matching function.
 */
module InlineBlur {
  import opened Wrappers
  import opened Text
  import opened JsValues
  import opened Dom

  const BLUR := "nsfw-blur"
  const UNBLUR := "nsfw-unblur"
  const FILE_ELEMENT := "mw-file-element"

  /** `a[href]`, `a`, `td`, `.mw-file-element`, `img` and `a.nsfw-blur > img`. */
  const LINK_SEL: seq<Selector> := [Simple(Compound(Some("a"), [], [HasAttr("href")]))]
  const ANCHOR_SEL: seq<Selector> := [Simple(TagSel("a"))]
  const CELL_SEL: seq<Selector> := [Simple(TagSel("td"))]
  const FILE_ELEMENT_SEL: seq<Selector> := [Simple(ClassSel(FILE_ELEMENT))]
  const IMG_SEL: seq<Selector> := [Simple(TagSel("img"))]
  const ANCHOR_IMG_SEL: seq<Selector> := [Child(Compound(Some("a"), [BLUR], []), TagSel("img"))]

  /**
   * What the script works with besides the DOM: the normalised sensitive titles, and
   * the mw.Title and mw.Uri oracles.
   */
  datatype Env = Env(nsfwSet: set<string>, newFromText: string -> Option<string>, parseUri: string -> Option<Uri>)

  /** The truthy, normalised titles of the wgNSFWFilesOnPage list. */
  function NsfwSetOf(list: seq<string>, newFromText: string -> Option<string>): (r: set<string>)
    ensures forall t :: t in r <==> exists x :: x in list && NormalizeTitle(newFromText, x) == Some(t) && t != ""
  {
    set x | x in list && Present(NormalizeTitle(newFromText, x)) :: NormalizeTitle(newFromText, x).value
  }

  /* ---------------- resolveFileTitleFromImg ---------------- */

  /** `/^Special:FilePath\/(.+)$/i`: the target after the prefix, if non-empty and on one line. */
  function FilePathTarget(t: string): (r: Option<string>)
    ensures r.Some? <==> StartsWithIgnoringCase(t, "Special:FilePath/") && |t| > 17 &&
                         forall k :: 17 <= k < |t| ==> !IsLineTerminator(t[k])
    ensures r.Some? ==> r.value == t[17..] && r.value != []
  {
    if StartsWithIgnoringCase(t, "Special:FilePath/") && |t| > 17 &&
       forall k :: 17 <= k < |t| ==> !IsLineTerminator(t[k])
    then Some(t[17..])
    else None
  }

  /** The title an enclosing link's URI names: the query `title` first, then the path patterns. */
  function TitleFromLinkUri(env: Env, uri: Uri): Option<string>
  {
    var stops := {'?', '#'};
    if Present(uri.queryTitle) then
      match FilePathTarget(uri.queryTitle.value)
      case Some(x) => NormalizeTitle(env.newFromText, "File:" + DecodeSafe(x))
      case None => NormalizeTitle(env.newFromText, uri.queryTitle.value)
    else if uri.path == "" then None
    else match SearchRun(uri.path, "/wiki/File:", true, 6, stops)
      case Some(x) => NormalizeTitle(env.newFromText, DecodeSafe(x))
      case None =>
        match SearchRun(uri.path, "/wiki/Special:FilePath/", true, 23, stops)
        case Some(x) => NormalizeTitle(env.newFromText, "File:" + DecodeSafe(x))
        case None =>
          match SearchRun(uri.path, "/w/Special:FilePath/", true, 20, stops)
          case Some(x) => NormalizeTitle(env.newFromText, "File:" + DecodeSafe(x))
          case None => None
  }

  /** The attribute's value when it is a non-empty string that starts with `File:` in any case. */
  predicate FileAttr(a: Option<string>)
  {
    Present(a) && StartsWithIgnoringCase(a.value, "File:")
  }

  /**
   * resolveFileTitleFromImg: the first source that applies wins; data-file-name,
   * then data-title, then resource, then the enclosing `a[href]`.
   */
  function ResolveFileTitle(env: Env, nodes: seq<Node>, cls: seq<set<string>>, img: nat): Option<string>
    requires Fits(nodes, cls) && img < |nodes|
  {
    var df := GetAttribute(nodes[img], "data-file-name");
    var dt := GetAttribute(nodes[img], "data-title");
    var resource := GetAttribute(nodes[img], "resource");
    if Present(df) then NormalizeTitle(env.newFromText, "File:" + df.value)
    else if FileAttr(dt) then NormalizeTitle(env.newFromText, dt.value)
    else if FileAttr(resource) then NormalizeTitle(env.newFromText, resource.value)
    else match Closest(nodes, cls, img, LINK_SEL)
      case None => None
      case Some(a) =>
        var href := GetAttribute(nodes[a], "href");
        if !Present(href) then None
        else match env.parseUri(href.value)
          case None => None
          case Some(uri) => TitleFromLinkUri(env, uri)
  }

  /** The attribute sources are tried in order, and a later one counts only when the earlier ones do not. */
  lemma ResolverPriority(env: Env, nodes: seq<Node>, cls: seq<set<string>>, img: nat)
    requires Fits(nodes, cls) && img < |nodes|
    ensures var n := nodes[img];
            var df := GetAttribute(n, "data-file-name");
            var dt := GetAttribute(n, "data-title");
            var res := GetAttribute(n, "resource");
            var r := ResolveFileTitle(env, nodes, cls, img);
            (Present(df) ==> r == NormalizeTitle(env.newFromText, "File:" + df.value)) &&
            (!Present(df) && FileAttr(dt) ==> r == NormalizeTitle(env.newFromText, dt.value)) &&
            (!Present(df) && !FileAttr(dt) && FileAttr(res) ==> r == NormalizeTitle(env.newFromText, res.value)) &&
            (!Present(df) && !FileAttr(dt) && !FileAttr(res) && Closest(nodes, cls, img, LINK_SEL).None? ==> r.None?)
  {
  }

  /**
   * With no usable attribute, the closest `a[href]` decides: its parsed href names the
   * title, and an empty href or one `mw.Uri` rejects names nothing.
   */
  lemma LinkResolves(env: Env, nodes: seq<Node>, cls: seq<set<string>>, img: nat, a: nat)
    requires Fits(nodes, cls) && img < |nodes|
    requires !Present(GetAttribute(nodes[img], "data-file-name"))
    requires !FileAttr(GetAttribute(nodes[img], "data-title")) && !FileAttr(GetAttribute(nodes[img], "resource"))
    requires Closest(nodes, cls, img, LINK_SEL) == Some(a)
    ensures var href := GetAttribute(nodes[a], "href");
            var r := ResolveFileTitle(env, nodes, cls, img);
            (!Present(href) ==> r.None?) &&
            (Present(href) && env.parseUri(href.value).None? ==> r.None?) &&
            (Present(href) && env.parseUri(href.value).Some? ==> r == TitleFromLinkUri(env, env.parseUri(href.value).value))
  {
  }

  /** The class lists play no part in resolving a title. */
  lemma ResolveIgnoresClasses(env: Env, nodes: seq<Node>, c1: seq<set<string>>, c2: seq<set<string>>, img: nat)
    requires Fits(nodes, c1) && Fits(nodes, c2) && img < |nodes|
    ensures ResolveFileTitle(env, nodes, c1, img) == ResolveFileTitle(env, nodes, c2, img)
  {
    ClosestClassFree(nodes, c1, c2, img, LINK_SEL);
  }

  /** A query `title` decides on its own: two URIs with the same query title name the same file. */
  lemma QueryTitleWins(env: Env, u1: Uri, u2: Uri)
    requires Present(u1.queryTitle) && u1.queryTitle == u2.queryTitle
    ensures TitleFromLinkUri(env, u1) == TitleFromLinkUri(env, u2)
  {
  }

  /** `title=Special:FilePath/X` names `File:` followed by the decoded X. */
  lemma FilePathQueryNamesFile(env: Env, x: string, path: string)
    requires x != [] && forall k :: 0 <= k < |x| ==> !IsLineTerminator(x[k])
    ensures TitleFromLinkUri(env, Uri(Some("Special:FilePath/" + x), path)) ==
            NormalizeTitle(env.newFromText, "File:" + DecodeSafe(x))
  {
    var t := "Special:FilePath/" + x;
    assert t[17..] == x;
    assert forall k :: 17 <= k < |t| ==> t[k] == x[k - 17];
  }

  /** Without a query title, `/wiki/File:X` names the decoded `File:X`; the prefix matches in any case. */
  lemma WikiFileLink(env: Env, q: Option<string>, p: string, x: string)
    requires !Present(q) && |p| == 11 && StartsWithIgnoringCase(p, "/wiki/File:")
    requires x != [] && forall k :: 0 <= k < |x| ==> x[k] != '?' && x[k] != '#'
    ensures TitleFromLinkUri(env, Uri(q, p + x)) == NormalizeTitle(env.newFromText, DecodeSafe(p[6..] + x))
  {
    SearchRunAtStart(p, x, "/wiki/File:", true, 6, {'?', '#'});
  }

  /** The article-path scenario: `<a href="/wiki/File:X">` names `File:X`. */
  lemma WikiFileExactCase(env: Env, x: string)
    requires x != [] && forall k :: 0 <= k < |x| ==> x[k] != '?' && x[k] != '#'
    ensures TitleFromLinkUri(env, Uri(None, "/wiki/File:" + x)) == NormalizeTitle(env.newFromText, DecodeSafe("File:" + x))
  {
    WikiFileLink(env, None, "/wiki/File:", x);
  }

  /** A lower-case `/wiki/file:X` path matches too, and the capture keeps its own case. */
  lemma WikiFileLowerCase(env: Env, x: string)
    requires x != [] && forall k :: 0 <= k < |x| ==> x[k] != '?' && x[k] != '#'
    ensures TitleFromLinkUri(env, Uri(None, "/wiki/file:" + x)) == NormalizeTitle(env.newFromText, DecodeSafe("file:" + x))
  {
    var p := "/wiki/file:";
    assert StartsWithIgnoringCase(p, "/wiki/File:") by {
      forall k | 0 <= k < 11 ensures SameIgnoringCase(p[k], "/wiki/File:"[k]) {
      }
    }
    WikiFileLink(env, None, p, x);
  }

  /**
   * `/wiki/Special:FilePath/X`, in any case, names `File:` plus X decoded, when the path
   * holds no `/wiki/File:` run, which is tried first.
   */
  lemma WikiFilePathLink(env: Env, q: Option<string>, p: string, x: string)
    requires !Present(q) && |p| == 23 && StartsWithIgnoringCase(p, "/wiki/Special:FilePath/")
    requires x != [] && forall k :: 0 <= k < |x| ==> x[k] != '?' && x[k] != '#'
    requires SearchRun(p + x, "/wiki/File:", true, 6, {'?', '#'}).None?
    ensures TitleFromLinkUri(env, Uri(q, p + x)) == NormalizeTitle(env.newFromText, "File:" + DecodeSafe(x))
  {
    SearchRunAtStart(p, x, "/wiki/Special:FilePath/", true, 23, {'?', '#'});
    assert p[23..] + x == x;
  }

  /**
   * `/w/Special:FilePath/X`, in any case, names `File:` plus X decoded, when neither
   * `/wiki/` pattern, tried before it, matches.
   */
  lemma ShortFilePathLink(env: Env, q: Option<string>, p: string, x: string)
    requires !Present(q) && |p| == 20 && StartsWithIgnoringCase(p, "/w/Special:FilePath/")
    requires x != [] && forall k :: 0 <= k < |x| ==> x[k] != '?' && x[k] != '#'
    requires SearchRun(p + x, "/wiki/File:", true, 6, {'?', '#'}).None?
    requires SearchRun(p + x, "/wiki/Special:FilePath/", true, 23, {'?', '#'}).None?
    ensures TitleFromLinkUri(env, Uri(q, p + x)) == NormalizeTitle(env.newFromText, "File:" + DecodeSafe(x))
  {
    SearchRunAtStart(p, x, "/w/Special:FilePath/", true, 20, {'?', '#'});
    assert p[20..] + x == x;
  }

  /** The prefix is matched in any letter case: `special:filepath/X` names `File:` plus X decoded too. */
  lemma FilePathAnyCase(env: Env, p: string, x: string, path: string)
    requires StartsWithIgnoringCase(p, "Special:FilePath/") && |p| == 17
    requires x != [] && forall k :: 0 <= k < |x| ==> !IsLineTerminator(x[k])
    ensures TitleFromLinkUri(env, Uri(Some(p + x), path)) == NormalizeTitle(env.newFromText, "File:" + DecodeSafe(x))
  {
    var t := p + x;
    assert t[17..] == x;
    assert forall k :: 0 <= k < 17 ==> t[k] == p[k];
    assert forall k :: 17 <= k < |t| ==> t[k] == x[k - 17];
    assert FilePathTarget(t) == Some(x);
  }

  /** A query `title` that is not a `Special:FilePath/` target is normalised as it is. */
  lemma QueryTitleAsIs(env: Env, uri: Uri)
    requires Present(uri.queryTitle) && FilePathTarget(uri.queryTitle.value).None?
    ensures TitleFromLinkUri(env, uri) == NormalizeTitle(env.newFromText, uri.queryTitle.value)
  {
  }

  /* ---------------- markImageIfNSFW, propagateBlurToAnchorImages, scan ---------------- */

  /** The image's title resolves to a member of the sensitive set. */
  predicate Hit(env: Env, nodes: seq<Node>, cls: seq<set<string>>, img: nat)
    requires Fits(nodes, cls) && img < |nodes|
  {
    var t := ResolveFileTitle(env, nodes, cls, img);
    Present(t) && t.value in env.nsfwSet
  }

  /** Add `nsfw-blur` to the node closest() found, if any. */
  function MarkFound(cls: seq<set<string>>, found: Option<nat>): (r: seq<set<string>>)
    ensures |r| == |cls|
    ensures forall j :: 0 <= j < |cls| ==> r[j] == if found == Some(j) then cls[j] + {BLUR} else cls[j]
  {
    if found.Some? && found.value < |cls| then AddClass(cls, found.value, BLUR) else cls
  }

  /** The marking step of markImageIfNSFW: the image, then its closest `a`, `td` and `.mw-file-element`. */
  function MarkUp(nodes: seq<Node>, cls: seq<set<string>>, img: nat): (r: seq<set<string>>)
    requires Fits(nodes, cls) && img < |nodes|
    ensures Fits(nodes, r) && Grows(cls, r)
  {
    var c1 := AddClass(cls, img, BLUR);
    var c2 := MarkFound(c1, Closest(nodes, c1, img, ANCHOR_SEL));
    var c3 := MarkFound(c2, Closest(nodes, c2, img, CELL_SEL));
    MarkFound(c3, Closest(nodes, c3, img, FILE_ELEMENT_SEL))
  }

  /** markImageIfNSFW(img) on the class lists `cls`. */
  function Mark(env: Env, nodes: seq<Node>, cls: seq<set<string>>, img: nat): (r: seq<set<string>>)
    requires Fits(nodes, cls) && img < |nodes|
    ensures Fits(nodes, r) && Grows(cls, r)
  {
    if BLUR in cls[img] || !Hit(env, nodes, cls, img) then cls else MarkUp(nodes, cls, img)
  }

  /** Adding `nsfw-blur` does not change which nodes `.mw-file-element` matches. */
  lemma FileElementUnaffected(nodes: seq<Node>, c1: seq<set<string>>, c2: seq<set<string>>, img: nat)
    requires Fits(nodes, c1) && Fits(nodes, c2) && img < |nodes|
    requires forall j :: 0 <= j < |nodes| ==> c2[j] == c1[j] || c2[j] == c1[j] + {BLUR}
    ensures Closest(nodes, c1, img, FILE_ELEMENT_SEL) == Closest(nodes, c2, img, FILE_ELEMENT_SEL)
  {
    forall j | 0 <= j <= img
      ensures MatchesAny(nodes, c1, j, FILE_ELEMENT_SEL) == MatchesAny(nodes, c2, j, FILE_ELEMENT_SEL)
    {
      assert FILE_ELEMENT in c2[j] <==> FILE_ELEMENT in c1[j];
      assert Matches(nodes, c1, j, FILE_ELEMENT_SEL[0]) == Matches(nodes, c2, j, FILE_ELEMENT_SEL[0]);
    }
    ClosestAgree(nodes, c1, c2, img, FILE_ELEMENT_SEL);
  }

  /** Node `j` is the image itself or the closest `a`, `td` or `.mw-file-element` of it. */
  predicate Touched(nodes: seq<Node>, cls: seq<set<string>>, img: nat, j: nat)
    requires Fits(nodes, cls) && img < |nodes|
  {
    j == img || Closest(nodes, cls, img, ANCHOR_SEL) == Some(j) || Closest(nodes, cls, img, CELL_SEL) == Some(j) ||
    Closest(nodes, cls, img, FILE_ELEMENT_SEL) == Some(j)
  }

  /** Each step adds `nsfw-blur` and nothing else, and only to the nodes a predicate selects. */
  predicate BlurredWhere(cls: seq<set<string>>, r: seq<set<string>>, sel: nat -> bool)
  {
    |r| == |cls| && forall j: nat :: j < |cls| ==> r[j] == if sel(j) then cls[j] + {BLUR} else cls[j]
  }

  /**
   * A marked image changes nothing when it already carries `nsfw-blur` or does not
   * resolve to a sensitive title; otherwise exactly the image, its closest `a`, its
   * closest `td` and its closest `.mw-file-element` gain `nsfw-blur`.
   */
  lemma MarkTouchesExactly(env: Env, nodes: seq<Node>, cls: seq<set<string>>, img: nat)
    requires Fits(nodes, cls) && img < |nodes|
    ensures BLUR in cls[img] || !Hit(env, nodes, cls, img) ==> Mark(env, nodes, cls, img) == cls
    ensures BLUR !in cls[img] && Hit(env, nodes, cls, img) ==>
              forall j :: 0 <= j < |cls| ==>
                Mark(env, nodes, cls, img)[j] == if Touched(nodes, cls, img, j) then cls[j] + {BLUR} else cls[j]
  {
    MarkUpTouches(nodes, cls, img);
  }

  /** One more closest() hit keeps the class lists blurred exactly where the widened predicate holds. */
  lemma MarkFoundWidens(cls: seq<set<string>>, c: seq<set<string>>, sel: nat -> bool, found: Option<nat>)
    requires BlurredWhere(cls, c, sel)
    ensures BlurredWhere(cls, MarkFound(c, found), (j: nat) => sel(j) || found == Some(j))
  {
    var r := MarkFound(c, found);
    forall j: nat | j < |cls|
      ensures r[j] == if sel(j) || found == Some(j) then cls[j] + {BLUR} else cls[j]
    {
      assert cls[j] + {BLUR} + {BLUR} == cls[j] + {BLUR};
    }
  }

  /** The marking step adds `nsfw-blur` to the image and to the three closest ancestors found in `cls`. */
  lemma MarkUpTouches(nodes: seq<Node>, cls: seq<set<string>>, img: nat)
    requires Fits(nodes, cls) && img < |nodes|
    ensures forall j :: 0 <= j < |cls| ==>
              MarkUp(nodes, cls, img)[j] == if Touched(nodes, cls, img, j) then cls[j] + {BLUR} else cls[j]
  {
    var a := Closest(nodes, cls, img, ANCHOR_SEL);
    var td := Closest(nodes, cls, img, CELL_SEL);
    var fe := Closest(nodes, cls, img, FILE_ELEMENT_SEL);
    var s1 := (j: nat) => j == img;
    var s2 := (j: nat) => s1(j) || a == Some(j);
    var s3 := (j: nat) => s2(j) || td == Some(j);
    var s4 := (j: nat) => s3(j) || fe == Some(j);
    var c1 := AddClass(cls, img, BLUR);
    assert BlurredWhere(cls, c1, s1);
    ClosestClassFree(nodes, cls, c1, img, ANCHOR_SEL);
    MarkFoundWidens(cls, c1, s1, a);
    var c2 := MarkFound(c1, a);
    ClosestClassFree(nodes, cls, c2, img, CELL_SEL);
    MarkFoundWidens(cls, c2, s2, td);
    var c3 := MarkFound(c2, td);
    FileElementUnaffected(nodes, cls, c3, img);
    MarkFoundWidens(cls, c3, s3, fe);
    assert MarkUp(nodes, cls, img) == MarkFound(c3, fe);
    forall j | 0 <= j < |cls| ensures s4(j) == Touched(nodes, cls, img, j) {}
  }

  /** markImageIfNSFW over `imgs`, one after another. */
  function MarkAll(env: Env, nodes: seq<Node>, cls: seq<set<string>>, imgs: seq<nat>): (r: seq<set<string>>)
    requires Fits(nodes, cls) && forall j :: 0 <= j < |imgs| ==> imgs[j] < |nodes|
    ensures Fits(nodes, r) && Grows(cls, r)
  {
    if imgs == [] then cls
    else
      var before := MarkAll(env, nodes, cls, imgs[..|imgs| - 1]);
      GrowsTransitive(cls, before, Mark(env, nodes, before, imgs[|imgs| - 1]));
      Mark(env, nodes, before, imgs[|imgs| - 1])
  }

  lemma MarkAllSnoc(env: Env, nodes: seq<Node>, cls: seq<set<string>>, imgs: seq<nat>, j: nat)
    requires Fits(nodes, cls) && j < |imgs| && forall k :: 0 <= k < |imgs| ==> imgs[k] < |nodes|
    ensures MarkAll(env, nodes, cls, imgs[..j + 1]) == Mark(env, nodes, MarkAll(env, nodes, cls, imgs[..j]), imgs[j])
  {
    assert imgs[..j + 1][..j] == imgs[..j];
  }

  /** `name` added to the class list of every node of `ids`. */
  function AddToAll(cls: seq<set<string>>, ids: seq<nat>, name: string): (r: seq<set<string>>)
    ensures |r| == |cls|
    ensures forall i :: 0 <= i < |cls| ==> r[i] == if i in ids then cls[i] + {name} else cls[i]
  {
    seq(|cls|, i requires 0 <= i < |cls| => if i in ids then cls[i] + {name} else cls[i])
  }

  lemma AddToAllSnoc(cls: seq<set<string>>, ids: seq<nat>, j: nat, name: string)
    requires j < |ids| && ids[j] < |cls|
    ensures AddToAll(cls, ids[..j + 1], name) == AddClass(AddToAll(cls, ids[..j], name), ids[j], name)
  {
    assert forall i :: i in ids[..j + 1] <==> i in ids[..j] || i == ids[j] by {
      assert ids[..j + 1] == ids[..j] + [ids[j]];
    }
  }

  /** propagateBlurToAnchorImages(root): every image directly inside an `a.nsfw-blur` gets the class. */
  function Propagate(nodes: seq<Node>, cls: seq<set<string>>, root: Option<nat>): (r: seq<set<string>>)
    requires Fits(nodes, cls)
    ensures Fits(nodes, r) && Grows(cls, r)
  {
    AddToAll(cls, QueryAll(nodes, cls, root, ANCHOR_IMG_SEL), BLUR)
  }

  /** The images under `root`, in document order. */
  function Images(nodes: seq<Node>, cls: seq<set<string>>, root: Option<nat>): (r: seq<nat>)
    requires Fits(nodes, cls)
    ensures forall j :: 0 <= j < |r| ==> r[j] < |nodes|
  {
    QueryAll(nodes, cls, root, IMG_SEL)
  }

  /** scan(root): mark every image under `root`, then propagate from the marked links. */
  function Scanned(env: Env, nodes: seq<Node>, cls: seq<set<string>>, root: Option<nat>): (r: seq<set<string>>)
    requires Fits(nodes, cls)
    ensures Fits(nodes, r) && Grows(cls, r)
  {
    var marked := MarkAll(env, nodes, cls, Images(nodes, cls, root));
    GrowsTransitive(cls, marked, Propagate(nodes, marked, root));
    Propagate(nodes, marked, root)
  }

  /** After marking `imgs`, each of them carries `nsfw-blur` or does not resolve to a sensitive title. */
  lemma {:induction false} MarkAllCovers(env: Env, nodes: seq<Node>, cls: seq<set<string>>, imgs: seq<nat>)
    requires Fits(nodes, cls) && forall j :: 0 <= j < |imgs| ==> imgs[j] < |nodes|
    ensures forall j :: 0 <= j < |imgs| ==>
              BLUR in MarkAll(env, nodes, cls, imgs)[imgs[j]] || !Hit(env, nodes, cls, imgs[j])
  {
    if imgs != [] {
      var init := imgs[..|imgs| - 1];
      var x := imgs[|imgs| - 1];
      MarkAllCovers(env, nodes, cls, init);
      var before := MarkAll(env, nodes, cls, init);
      ResolveIgnoresClasses(env, nodes, cls, before, x);
      forall j | 0 <= j < |imgs|
        ensures BLUR in MarkAll(env, nodes, cls, imgs)[imgs[j]] || !Hit(env, nodes, cls, imgs[j])
      {
        if j < |init| {
          assert imgs[j] == init[j];
          ResolveIgnoresClasses(env, nodes, cls, before, imgs[j]);
        }
      }
    }
  }

  /** Marking changes nothing once every image is marked or misses. */
  lemma {:induction false} MarkAllFixed(env: Env, nodes: seq<Node>, cls: seq<set<string>>, imgs: seq<nat>)
    requires Fits(nodes, cls) && forall j :: 0 <= j < |imgs| ==> imgs[j] < |nodes|
    requires forall j :: 0 <= j < |imgs| ==> BLUR in cls[imgs[j]] || !Hit(env, nodes, cls, imgs[j])
    ensures MarkAll(env, nodes, cls, imgs) == cls
  {
    if imgs != [] {
      var init := imgs[..|imgs| - 1];
      MarkAllFixed(env, nodes, cls, init);
    }
  }

  /** An image under an `a.nsfw-blur` after propagation was under one before it: links do not change. */
  lemma PropagateKeepsLinks(nodes: seq<Node>, cls: seq<set<string>>, root: Option<nat>, i: nat)
    requires Fits(nodes, cls) && i < |nodes|
    requires InScope(nodes, root, i) && MatchesAny(nodes, Propagate(nodes, cls, root), i, ANCHOR_IMG_SEL)
    ensures BLUR in Propagate(nodes, cls, root)[i]
  {
    var r := Propagate(nodes, cls, root);
    var targets := QueryAll(nodes, cls, root, ANCHOR_IMG_SEL);
    assert Matches(nodes, r, i, ANCHOR_IMG_SEL[0]);
    var p := nodes[i].parent;
    assert nodes[p].tag == "a";
    assert !Matches(nodes, cls, p, ANCHOR_IMG_SEL[0]);
    assert p !in targets;
    assert r[p] == cls[p];
    assert Matches(nodes, cls, i, ANCHOR_IMG_SEL[0]);
    assert i in targets;
  }

  /** After scan(root), every image under root that sits directly in an `a.nsfw-blur` carries the class. */
  lemma ScanPropagates(env: Env, nodes: seq<Node>, cls: seq<set<string>>, root: Option<nat>, i: nat)
    requires Fits(nodes, cls) && i < |nodes|
    requires InScope(nodes, root, i) && MatchesAny(nodes, Scanned(env, nodes, cls, root), i, ANCHOR_IMG_SEL)
    ensures BLUR in Scanned(env, nodes, cls, root)[i]
  {
    var marked := MarkAll(env, nodes, cls, Images(nodes, cls, root));
    PropagateKeepsLinks(nodes, marked, root, i);
  }

  /** Propagation changes nothing once every target already carries the class. */
  lemma PropagateFixed(nodes: seq<Node>, cls: seq<set<string>>, root: Option<nat>)
    requires Fits(nodes, cls)
    requires forall i :: 0 <= i < |nodes| && i in QueryAll(nodes, cls, root, ANCHOR_IMG_SEL) ==> BLUR in cls[i]
    ensures Propagate(nodes, cls, root) == cls
  {
    var r := Propagate(nodes, cls, root);
    forall i | 0 <= i < |cls| ensures r[i] == cls[i] {
      assert BLUR in cls[i] ==> cls[i] + {BLUR} == cls[i];
    }
  }

  /** A scan leaves every image of the subtree marked or missing, with the images unchanged. */
  lemma ScanCovers(env: Env, nodes: seq<Node>, cls: seq<set<string>>, root: Option<nat>)
    requires Fits(nodes, cls)
    ensures var s1 := Scanned(env, nodes, cls, root);
            Images(nodes, s1, root) == Images(nodes, cls, root) &&
            forall j :: 0 <= j < |Images(nodes, cls, root)| ==>
              var x := Images(nodes, cls, root)[j];
              BLUR in s1[x] || !Hit(env, nodes, s1, x)
  {
    var imgs := Images(nodes, cls, root);
    var marked := MarkAll(env, nodes, cls, imgs);
    var s1 := Scanned(env, nodes, cls, root);
    QueryFromClassFree(nodes, cls, s1, root, IMG_SEL, 0);
    MarkAllCovers(env, nodes, cls, imgs);
    forall j | 0 <= j < |imgs| ensures BLUR in s1[imgs[j]] || !Hit(env, nodes, s1, imgs[j]) {
      ResolveIgnoresClasses(env, nodes, cls, s1, imgs[j]);
      assert Grows(marked, s1);
    }
  }

  /** After a scan, every image in the subtree that sits directly in an `a.nsfw-blur` carries the class. */
  lemma ScanTargetsMarked(env: Env, nodes: seq<Node>, cls: seq<set<string>>, root: Option<nat>)
    requires Fits(nodes, cls)
    ensures var s1 := Scanned(env, nodes, cls, root);
            forall i :: 0 <= i < |nodes| && i in QueryAll(nodes, s1, root, ANCHOR_IMG_SEL) ==> BLUR in s1[i]
  {
    var s1 := Scanned(env, nodes, cls, root);
    forall i | 0 <= i < |nodes| && i in QueryAll(nodes, s1, root, ANCHOR_IMG_SEL) ensures BLUR in s1[i] {
      ScanPropagates(env, nodes, cls, root, i);
    }
  }

  /** Scanning the same subtree a second time adds nothing. */
  lemma ScanIdempotent(env: Env, nodes: seq<Node>, cls: seq<set<string>>, root: Option<nat>)
    requires Fits(nodes, cls)
    ensures Scanned(env, nodes, Scanned(env, nodes, cls, root), root) == Scanned(env, nodes, cls, root)
  {
    var s1 := Scanned(env, nodes, cls, root);
    ScanCovers(env, nodes, cls, root);
    MarkAllFixed(env, nodes, s1, Images(nodes, s1, root));
    ScanTargetsMarked(env, nodes, cls, root);
    PropagateFixed(nodes, s1, root);
  }

  /* ---------------- The MutationObserver callback ---------------- */

  /**
   * The observer callback over the added nodes of all records, in order: a node that
   * is not an element is skipped, an `img` is marked, any other element is scanned.
   */
  function OnAdded(env: Env, nodes: seq<Node>, cls: seq<set<string>>, added: seq<nat>): (r: seq<set<string>>)
    requires Fits(nodes, cls) && forall j :: 0 <= j < |added| ==> added[j] < |nodes|
    ensures Fits(nodes, r) && Grows(cls, r)
  {
    if added == [] then cls
    else
      var before := OnAdded(env, nodes, cls, added[..|added| - 1]);
      var node := added[|added| - 1];
      var after := if !nodes[node].isElement then before
                   else if nodes[node].tag == "img" then Mark(env, nodes, before, node)
                   else Scanned(env, nodes, before, Some(node));
      GrowsTransitive(cls, before, after);
      after
  }

  /** The controller of nsfw-blur.js over one document. */
  class BlurController {
    const env: Env
    const doc: Document

    predicate Valid()
      reads this, doc
    {
      doc.Valid()
    }

    /** The script's set-up: `nsfwSet` from the list the server published (absent: empty). */
    constructor(doc: Document, filesOnPage: seq<string>, newFromText: string -> Option<string>,
                parseUri: string -> Option<Uri>)
      requires doc.Valid()
      ensures Valid() && this.doc == doc
      ensures env == Env(NsfwSetOf(filesOnPage, newFromText), newFromText, parseUri)
    {
      this.doc := doc;
      env := Env(NsfwSetOf(filesOnPage, newFromText), newFromText, parseUri);
    }

    /** markImageIfNSFW(img). */
    method MarkImageIfNSFW(img: nat)
      requires Valid() && img < |doc.nodes|
      modifies doc
      ensures Valid() && doc.classes == Mark(env, doc.nodes, old(doc.classes), img)
    {
      if BLUR in doc.classes[img] {
        return;
      }
      var title := ResolveFileTitle(env, doc.nodes, doc.classes, img);
      if !Present(title) || title.value !in env.nsfwSet {
        return;
      }
      assert Hit(env, doc.nodes, doc.classes, img);
      ghost var c0 := doc.classes;
      doc.classes := AddClass(doc.classes, img, BLUR);
      ghost var c1 := doc.classes;
      var a := Closest(doc.nodes, doc.classes, img, ANCHOR_SEL);
      if a.Some? {
        doc.classes := AddClass(doc.classes, a.value, BLUR);
      }
      assert doc.classes == MarkFound(c1, a);
      ghost var c2 := doc.classes;
      var td := Closest(doc.nodes, doc.classes, img, CELL_SEL);
      if td.Some? {
        doc.classes := AddClass(doc.classes, td.value, BLUR);
      }
      assert doc.classes == MarkFound(c2, td);
      ghost var c3 := doc.classes;
      var fileEl := Closest(doc.nodes, doc.classes, img, FILE_ELEMENT_SEL);
      if fileEl.Some? {
        doc.classes := AddClass(doc.classes, fileEl.value, BLUR);
      }
      assert doc.classes == MarkFound(c3, fileEl);
      assert doc.classes == MarkUp(doc.nodes, c0, img);
    }

    /** propagateBlurToAnchorImages(root). */
    method PropagateBlurToAnchorImages(root: Option<nat>)
      requires Valid()
      modifies doc
      ensures Valid() && doc.classes == Propagate(doc.nodes, old(doc.classes), root)
    {
      var targets := QueryAll(doc.nodes, doc.classes, root, ANCHOR_IMG_SEL);
      ghost var c0 := doc.classes;
      for j := 0 to |targets|
        invariant Valid()
        invariant doc.classes == AddToAll(c0, targets[..j], BLUR)
      {
        AddToAllSnoc(c0, targets, j, BLUR);
        doc.classes := AddClass(doc.classes, targets[j], BLUR);
      }
      assert targets[..|targets|] == targets;
    }

    /** scan(root). */
    method Scan(root: Option<nat>)
      requires Valid()
      modifies doc
      ensures Valid() && doc.classes == Scanned(env, doc.nodes, old(doc.classes), root)
    {
      var imgs := QueryAll(doc.nodes, doc.classes, root, IMG_SEL);
      ghost var c0 := doc.classes;
      for j := 0 to |imgs|
        invariant Valid()
        invariant doc.classes == MarkAll(env, doc.nodes, c0, imgs[..j])
      {
        MarkAllSnoc(env, doc.nodes, c0, imgs, j);
        MarkImageIfNSFW(imgs[j]);
      }
      assert imgs[..|imgs|] == imgs;
      PropagateBlurToAnchorImages(root);
    }

    /** The MutationObserver callback, given the added nodes of its records in order. */
    method OnMutation(added: seq<nat>)
      requires Valid() && forall j :: 0 <= j < |added| ==> added[j] < |doc.nodes|
      modifies doc
      ensures Valid() && doc.classes == OnAdded(env, doc.nodes, old(doc.classes), added)
    {
      ghost var c0 := doc.classes;
      for j := 0 to |added|
        invariant Valid()
        invariant doc.classes == OnAdded(env, doc.nodes, c0, added[..j])
      {
        assert added[..j + 1][..j] == added[..j];
        var node := added[j];
        if !doc.nodes[node].isElement {
          continue;
        }
        if doc.nodes[node].tag == "img" {
          MarkImageIfNSFW(node);
        } else {
          Scan(Some(node));
        }
      }
      assert added[..|added|] == added;
    }

    /** The `wikipage.content` hook: scan the new content, or the whole document without one. */
    method OnContent(content: Option<nat>)
      requires Valid() && (content.Some? ==> content.value < |doc.nodes|)
      modifies doc
      ensures Valid() && doc.classes == Scanned(env, doc.nodes, old(doc.classes), content)
    {
      Scan(content);
    }
  }

  /**
   * The script's start: for a user who unblurs, `<html>` (node 0) gets `nsfw-unblur`
   * and nothing else happens; otherwise the controller is set up and scans the document.
   */
  method Start(doc: Document, unblur: JsValue, filesOnPage: seq<string>,
               newFromText: string -> Option<string>, parseUri: string -> Option<Uri>)
    returns (controller: Option<BlurController>)
    requires doc.Valid() && |doc.nodes| > 0
    modifies doc
    ensures doc.Valid()
    ensures IsTruthy(unblur) ==> controller.None? && doc.classes == AddClass(old(doc.classes), 0, UNBLUR)
    ensures !IsTruthy(unblur) ==>
              controller.Some? && controller.value.doc == doc &&
              controller.value.env.nsfwSet == NsfwSetOf(filesOnPage, newFromText) &&
              doc.classes == Scanned(controller.value.env, doc.nodes, old(doc.classes), None)
  {
    if IsTruthy(unblur) {
      doc.classes := AddClass(doc.classes, 0, UNBLUR);
      return None;
    }
    var c := new BlurController(doc, filesOnPage, newFromText, parseUri);
    c.Scan(None);
    return Some(c);
  }
}
