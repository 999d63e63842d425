/**
 * The server hooks of includes/Hooks.php that decide which files are blurred:
 * the per-request memo of isFileTitleMarkedNSFW, the scrape of DB keys out of
 * rendered HTML, the sensitive-file list attached to parser output and to the page,
 * the file-page body class, and the two thumbnail hooks that append the blur class.
 *
 * What the source asks of MediaWiki is an input here: `makeTitle` stands for
 * Title::makeTitleSafe(NS_FILE, key), `classify` for the marker and category lookups
 * that decide whether a file is sensitive, and the source lists (media links of the
 * parser output, imagelinks rows, regex captures) are sequences of strings.
 */
module ServerHooks {
  import opened Wrappers
  import opened Text
  import opened PhpText
  import opened PhpArrays
  import opened DbKey
  import opened Preferences

  const NS_FILE := 6
  const BLUR_CLASS := "nsfw-blur"
  const UNBLUR_CLASS := "nsfw-unblur"
  const FILEPAGE_BLUR_CLASS := "nsfw-filepage-blur"
  const WG_UNBLUR := "wgNSFWUnblur"
  const WG_FILES_ON_PAGE := "wgNSFWFilesOnPage"
  const WG_FILE_PAGE := "wgNSFWFilePage"

  /** The parts of a MediaWiki title the hooks read. */
  datatype Title = Title(ns: int, prefixedDbKey: string, prefixedText: string)

  /** The title of the page being rendered. */
  datatype PageTitle = PageTitle(title: Title, isSpecialPage: bool, isContentPage: bool)

  /* ---------------- Class appends of the two thumbnail hooks ---------------- */

  function ClassOf(attrs: map<string, string>, key: string): string
  {
    if key in attrs then attrs[key] else ""
  }

  lemma TrimLeftWithBlurClass(c: string)
    ensures TrimLeft(c + " " + BLUR_CLASS) == if TrimLeft(c) == [] then BLUR_CLASS else TrimLeft(c) + " " + BLUR_CLASS
  {
    var s := c + " " + BLUR_CLASS;
    var e := SpanEnd(c, 0, IsTrimChar);
    if e < |c| {
      SpanEndIs(s, 0, IsTrimChar, e);
      assert s[e..] == c[e..] + " " + BLUR_CLASS;
    } else {
      SpanEndIs(s, 0, IsTrimChar, |c| + 1);
      assert s[|c| + 1..] == BLUR_CLASS;
    }
  }

  /**
   * trim($class . ' nsfw-blur'): the blur class becomes the last class token, after
   * the existing classes with their leading whitespace dropped.
   */
  function AppendBlurClass(c: string): (r: string)
    ensures r == if TrimLeft(c) == [] then BLUR_CLASS else TrimLeft(c) + " " + BLUR_CLASS
  {
    TrimLeftWithBlurClass(c);
    var l := if TrimLeft(c) == [] then BLUR_CLASS else TrimLeft(c) + " " + BLUR_CLASS;
    assert l[|l| - 1] == 'r';
    TrimRightKeeps(l);
    Trim(c + " " + BLUR_CLASS)
  }

  /* ---------------- The memo of isFileTitleMarkedNSFW ---------------- */

  /** `m2` keeps every entry of `m1`. */
  predicate Extends(m1: map<string, bool>, m2: map<string, bool>)
  {
    forall k :: k in m1 ==> k in m2 && m2[k] == m1[k]
  }

  /** The verdict memoised for a file title. */
  predicate MarkedIn(m: map<string, bool>, t: Title)
  {
    t.ns == NS_FILE && t.prefixedDbKey in m && m[t.prefixedDbKey]
  }

  /**
   * One call of isFileTitleMarkedNSFW against memo `m`, when the lookups would
   * answer `verdict` now. Only File titles are classified; a key seen before is
   * answered from the memo, a new key stores the fresh verdict.
   */
  function MemoLookup(m: map<string, bool>, t: Title, verdict: bool): (r: (bool, map<string, bool>))
    ensures t.ns != NS_FILE ==> r == (false, m)
    ensures t.ns == NS_FILE ==> t.prefixedDbKey in r.1 && r.0 == r.1[t.prefixedDbKey]
    ensures t.ns == NS_FILE && t.prefixedDbKey in m ==> r == (m[t.prefixedDbKey], m)
    ensures t.ns == NS_FILE && t.prefixedDbKey !in m ==> r.0 == verdict
    ensures Extends(m, r.1) && r.1.Keys <= m.Keys + {t.prefixedDbKey}
    ensures r.0 <==> MarkedIn(r.1, t)
  {
    if t.ns != NS_FILE then (false, m)
    else if t.prefixedDbKey in m then (m[t.prefixedDbKey], m)
    else (verdict, m[t.prefixedDbKey := verdict])
  }

  /** Once a title has been answered, every later call gives the same answer. */
  lemma MemoAnswerIsStable(m: map<string, bool>, t: Title, v1: bool, v2: bool)
    ensures var (a, m1) := MemoLookup(m, t, v1);
            MemoLookup(m1, t, v2) == (a, m1)
  {
  }

  /** Every file title that `makeTitle` yields for `keys` has a memo entry. */
  predicate Covered(keys: seq<string>, makeTitle: string -> Option<Title>, m: map<string, bool>)
  {
    forall i :: 0 <= i < |keys| ==> FileKeyIn(makeTitle(keys[i]), m)
  }

  predicate FileKeyIn(t: Option<Title>, m: map<string, bool>)
  {
    t.Some? && t.value.ns == NS_FILE ==> t.value.prefixedDbKey in m
  }

  /** The file title for `keys[i]` exists and `k` is its key. */
  predicate FileTitleFor(keys: seq<string>, i: int, makeTitle: string -> Option<Title>, k: string)
  {
    0 <= i < |keys| && makeTitle(keys[i]).Some? && makeTitle(keys[i]).value.ns == NS_FILE &&
    makeTitle(keys[i]).value.prefixedDbKey == k
  }

  /** Every entry added since `m0` is the verdict for one of the titles of `keys`. */
  ghost predicate NewEntriesClassified(m0: map<string, bool>, m: map<string, bool>, keys: seq<string>,
                                 makeTitle: string -> Option<Title>, classify: Title -> bool)
  {
    forall k :: k in m && k !in m0 ==>
      exists i :: 0 <= i < |keys| && FileTitleFor(keys, i, makeTitle, k) && m[k] == classify(makeTitle(keys[i]).value)
  }

  /**
   * Every entry added since `m0` is the verdict for one of the titles of `keys`, or for
   * the file title `page`.
   */
  ghost predicate NewEntriesFrom(m0: map<string, bool>, m: map<string, bool>, keys: seq<string>,
                                 makeTitle: string -> Option<Title>, classify: Title -> bool, page: Option<Title>)
  {
    forall k :: k in m && k !in m0 ==>
      (exists i :: 0 <= i < |keys| && FileTitleFor(keys, i, makeTitle, k) && m[k] == classify(makeTitle(keys[i]).value)) ||
      (page.Some? && page.value.ns == NS_FILE && page.value.prefixedDbKey == k && m[k] == classify(page.value))
  }

  /**
   * The prefixed texts of the titles of `keys` that memo `m` marks, in key order:
   * what the `foreach ( $dbKeys as $dbKey )` loops collect.
   */
  function MarkedTexts(keys: seq<string>, makeTitle: string -> Option<Title>, m: map<string, bool>): seq<string>
  {
    if keys == [] then []
    else
      var rest := MarkedTexts(keys[..|keys| - 1], makeTitle, m);
      var t := makeTitle(keys[|keys| - 1]);
      if t.Some? && MarkedIn(m, t.value) then rest + [t.value.prefixedText] else rest
  }

  /** The collected texts are exactly those of the marked titles among `keys`. */
  lemma {:induction false} MarkedTextsMembers(keys: seq<string>, makeTitle: string -> Option<Title>,
                                              m: map<string, bool>, x: string)
    ensures x in MarkedTexts(keys, makeTitle, m) <==>
            exists i :: 0 <= i < |keys| && makeTitle(keys[i]).Some? && MarkedIn(m, makeTitle(keys[i]).value) &&
                        makeTitle(keys[i]).value.prefixedText == x
  {
    if keys != [] {
      var init := keys[..|keys| - 1];
      MarkedTextsMembers(init, makeTitle, m, x);
      if x in MarkedTexts(init, makeTitle, m) {
        var i :| 0 <= i < |init| && makeTitle(init[i]).Some? && MarkedIn(m, makeTitle(init[i]).value) &&
                 makeTitle(init[i]).value.prefixedText == x;
        assert keys[i] == init[i];
      }
      if exists i :: 0 <= i < |keys| && makeTitle(keys[i]).Some? && MarkedIn(m, makeTitle(keys[i]).value) &&
                     makeTitle(keys[i]).value.prefixedText == x {
        var i :| 0 <= i < |keys| && makeTitle(keys[i]).Some? && MarkedIn(m, makeTitle(keys[i]).value) &&
                 makeTitle(keys[i]).value.prefixedText == x;
        if i < |init| { assert init[i] == keys[i]; }
      }
    }
  }

  /** Entries added to the memo later do not change what earlier keys collected. */
  lemma {:induction false} MarkedTextsStable(keys: seq<string>, makeTitle: string -> Option<Title>,
                                             m1: map<string, bool>, m2: map<string, bool>)
    requires Covered(keys, makeTitle, m1) && Extends(m1, m2)
    ensures MarkedTexts(keys, makeTitle, m1) == MarkedTexts(keys, makeTitle, m2)
  {
    if keys != [] {
      var init := keys[..|keys| - 1];
      assert Covered(init, makeTitle, m1) by {
        forall i | 0 <= i < |init| ensures FileKeyIn(makeTitle(init[i]), m1) {
          assert init[i] == keys[i];
        }
      }
      MarkedTextsStable(init, makeTitle, m1, m2);
      assert FileKeyIn(makeTitle(keys[|keys| - 1]), m1);
    }
  }

  /* ---------------- Scraping DB keys out of HTML ---------------- */

  /** `f` applied to every element of `xs`, in order. */
  function MapAll(f: string -> string, xs: seq<string>): (r: seq<string>)
    ensures |r| == |xs|
    ensures forall i :: 0 <= i < |xs| ==> r[i] == f(xs[i])
  {
    seq(|xs|, i requires 0 <= i < |xs| => f(xs[i]))
  }

  /** Mapping one more element appends its image. */
  lemma MapAllSnoc(f: string -> string, xs: seq<string>, i: nat)
    requires i < |xs|
    ensures MapAll(f, xs[..i + 1]) == MapAll(f, xs[..i]) + [f(xs[i])]
  {
  }

  /** The normaliser applied to every capture, in order. */
  function NormalizeAll(names: seq<string>): (r: seq<string>)
    ensures |r| == |names|
    ensures forall i :: 0 <= i < |names| ==> r[i] == NormalizeDbKey(names[i])
  {
    MapAll(NormalizeDbKey, names)
  }

  /** The members of the de-duplicated truthy images of `names` under `f`. */
  lemma MappedKeysMembers(f: string -> string, names: seq<string>)
    ensures forall x :: x in Unique(FilterTruthy(MapAll(f, names))) <==>
              !IsFalsyString(x) && exists i :: 0 <= i < |names| && f(names[i]) == x
  {
    var n := MapAll(f, names);
    forall x ensures x in n <==> exists i :: 0 <= i < |names| && f(names[i]) == x {
      if x in n { var i :| 0 <= i < |n| && n[i] == x; }
    }
  }

  /**
   * array_values(array_unique(array_filter($keys))) over the normalised captures:
   * no duplicates, no falsy key, and exactly the truthy keys some capture yields.
   */
  function ScrapedKeys(names: seq<string>): (r: seq<string>)
    ensures Distinct(r)
    ensures forall x :: x in r <==> !IsFalsyString(x) && exists i :: 0 <= i < |names| && NormalizeDbKey(names[i]) == x
    ensures forall x :: x in r ==> !IsFalsyString(x) && '/' !in x && ' ' !in x
  {
    MappedKeysMembers(NormalizeDbKey, names);
    Unique(FilterTruthy(NormalizeAll(names)))
  }

  /**
   * extractImageDbKeysFromHtml. `captures` holds the names captured by the eight
   * patterns of the source, pattern by pattern and each in match order; for the
   * empty document there are none and the result is empty.
   */
  method ExtractImageDbKeysFromHtml(html: string, captures: seq<string>) returns (keys: seq<string>)
    ensures html == "" ==> keys == []
    ensures html != "" ==> keys == ScrapedKeys(captures)
  {
    if html == "" {
      return [];
    }
    keys := [];
    for i := 0 to |captures|
      invariant keys == MapAll(NormalizeDbKey, captures[..i])
    {
      MapAllSnoc(NormalizeDbKey, captures, i);
      keys := keys + [NormalizeDbKey(captures[i])];
    }
    assert captures[..|captures|] == captures;
    keys := Unique(FilterTruthy(keys));
  }

  /** What extractImageDbKeysFromHtml returns for `html` and its captures. */
  function HtmlKeys(html: string, captures: seq<string>): seq<string>
  {
    if html == "" then [] else ScrapedKeys(captures)
  }

  /* ---------------- The page lists ---------------- */

  /** The keys PHP leaves as strings when they are array keys: integer-like keys become ints. */
  function StringKeys(keys: seq<string>): (r: seq<string>)
    ensures forall x :: x in r <==> x in keys && !IsIntegerKey(x)
  {
    if keys == [] then []
    else (if IsIntegerKey(keys[0]) then [] else [keys[0]]) + StringKeys(keys[1..])
  }

  /** What injectNsfwFilesOnPageFromParserOutput gathers for one parser output. */
  datatype ParserSources = ParserSources(
    mediaKeys: seq<string>,   // the keys of the media link list (or of getImages())
    html: string,             // the raw parser HTML
    captures: seq<string>,    // what the scrape patterns capture in `html`
    imageLinks: seq<string>)  // the il_to column of the page's imagelinks rows

  /** The de-duplicated DB keys of a parser output: the three sources, falsy keys dropped. */
  function ParserDbKeys(src: ParserSources): (r: seq<string>)
    ensures Distinct(r)
    ensures forall x :: x in r <==> (!IsFalsyString(x) &&
              ((x in src.mediaKeys && !IsIntegerKey(x)) || x in HtmlKeys(src.html, src.captures) ||
               x in src.imageLinks))
  {
    var scraped := HtmlKeys(src.html, src.captures);
    Unique(FilterTruthy(StringKeys(src.mediaKeys) + scraped + FilterTruthy(src.imageLinks)))
  }

  /** A list the server emits carries the same members whatever order they came in. */
  lemma MergeIgnoresOrder(existing: seq<string>, fromHtml: seq<string>)
    ensures SortedUnique(existing + fromHtml) == SortedUnique(fromHtml + existing)
  {
    SortedUniqueDeterminedByMembers(existing + fromHtml, fromHtml + existing);
  }

  /** Merging a second time, or merging an already merged list, changes nothing. */
  lemma MergeIsIdempotent(existing: seq<string>, fromHtml: seq<string>)
    ensures SortedUnique(SortedUnique(existing) + fromHtml) == SortedUnique(existing + fromHtml)
    ensures SortedUnique(SortedUnique(existing + fromHtml)) == SortedUnique(existing + fromHtml)
  {
    SortedUniqueDeterminedByMembers(SortedUnique(existing) + fromHtml, existing + fromHtml);
    SortedUniqueDeterminedByMembers(SortedUnique(existing + fromHtml), existing + fromHtml);
  }

  /** A JavaScript config value the hooks write. */
  datatype ConfigValue = CBool(b: bool) | CList(items: seq<string>)

  /** The parts of OutputPage the page-display hook reads and changes. */
  class OutputPage {
    const title: Option<PageTitle>
    const user: User
    const html: string
    var jsConfigVars: map<string, ConfigValue>
    var bodyClasses: set<string>

    constructor(title: Option<PageTitle>, user: User, html: string, vars: map<string, ConfigValue>)
      ensures this.title == title && this.user == user && this.html == html
      ensures jsConfigVars == vars && bodyClasses == {}
    {
      this.title := title;
      this.user := user;
      this.html := html;
      jsConfigVars := vars;
      bodyClasses := {};
    }
  }

  /** The wgNSFWFilesOnPage list already set by the parser-output hooks, else []. */
  function ExistingList(vars: map<string, ConfigValue>): seq<string>
  {
    if WG_FILES_ON_PAGE in vars && vars[WG_FILES_ON_PAGE].CList? then vars[WG_FILES_ON_PAGE].items else []
  }

  predicate IsContentPage(title: Option<PageTitle>)
  {
    title.Some? && title.value.isContentPage
  }

  /** isFileTitleMarkedNSFW, with the static $memo as the field `memo`. */
  class Hooks {
    var memo: map<string, bool>

    constructor()
      ensures memo == map[]
    {
      memo := map[];
    }

    /**
     * isFileTitleMarkedNSFW: `classify(t)` is what the marker and category lookups
     * answer at the time of the call; the memo decides whenever it already knows t.
     */
    method IsFileTitleMarkedNSFW(t: Title, classify: Title -> bool) returns (marked: bool)
      modifies this
      ensures (marked, memo) == MemoLookup(old(memo), t, classify(t))
    {
      if t.ns != NS_FILE {
        return false;
      }
      var key := t.prefixedDbKey;
      if key in memo {
        return memo[key];
      }
      marked := classify(t);
      memo := memo[key := marked];
    }

    /** The `foreach ( $dbKeys as $dbKey )` loop: the prefixed texts of the marked files. */
    method CollectNsfwTitles(keys: seq<string>, makeTitle: string -> Option<Title>, classify: Title -> bool)
      returns (nsfw: seq<string>)
      modifies this
      ensures Extends(old(memo), memo)
      ensures Covered(keys, makeTitle, memo)
      ensures NewEntriesClassified(old(memo), memo, keys, makeTitle, classify)
      ensures nsfw == MarkedTexts(keys, makeTitle, memo)
    {
      nsfw := [];
      ghost var m0 := memo;
      for i := 0 to |keys|
        invariant Extends(m0, memo)
        invariant Covered(keys[..i], makeTitle, memo)
        invariant NewEntriesClassified(m0, memo, keys[..i], makeTitle, classify)
        invariant nsfw == MarkedTexts(keys[..i], makeTitle, memo)
      {
        ghost var before := memo;
        assert keys[..i + 1][..i] == keys[..i];
        var t := makeTitle(keys[i]);
        if t.Some? {
          var marked := IsFileTitleMarkedNSFW(t.value, classify);
          MarkedTextsStable(keys[..i], makeTitle, before, memo);
          if marked {
            nsfw := nsfw + [t.value.prefixedText];
          }
          CoveredStep(keys, i, makeTitle, before, memo);
          ClassifiedStep(m0, before, memo, keys, i, makeTitle, classify);
        } else {
          CoveredStep(keys, i, makeTitle, before, memo);
          ClassifiedStep(m0, before, memo, keys, i, makeTitle, classify);
        }
      }
      assert keys[..|keys|] == keys;
    }

    /**
     * injectNsfwFilesOnPageFromParserOutput: the wgNSFWFilesOnPage list it sets, or
     * None when it leaves the parser output alone (no title, or a special page).
     * A user who unblurs gets the empty list; anyone else the sorted, duplicate-free
     * prefixed texts of the marked files among the gathered keys.
     */
    method InjectNsfwFilesOnPageFromParserOutput(page: Option<PageTitle>, user: User, src: ParserSources,
                                                 makeTitle: string -> Option<Title>, classify: Title -> bool)
      returns (filesOnPage: Option<seq<string>>)
      modifies this
      ensures page.None? || page.value.isSpecialPage ==> filesOnPage.None? && memo == old(memo)
      ensures page.Some? && !page.value.isSpecialPage && UserWantsUnblur(user) ==>
                filesOnPage == Some([]) && memo == old(memo)
      ensures page.Some? && !page.value.isSpecialPage && !UserWantsUnblur(user) ==>
                Extends(old(memo), memo) &&
                Covered(ParserDbKeys(src), makeTitle, memo) &&
                filesOnPage == Some(SortedUnique(MarkedTexts(ParserDbKeys(src), makeTitle, memo))) &&
                NewEntriesClassified(old(memo), memo, ParserDbKeys(src), makeTitle, classify)
    {
      if page.None? || page.value.isSpecialPage {
        return None;
      }
      if UserWantsUnblur(user) {
        return Some([]);
      }
      var dbKeys := StringKeys(src.mediaKeys);
      var scraped: seq<string> := [];
      if src.html != "" {
        scraped := ExtractImageDbKeysFromHtml(src.html, src.captures);
        dbKeys := dbKeys + scraped;
      } else {
        assert dbKeys == dbKeys + scraped;
      }
      assert scraped == HtmlKeys(src.html, src.captures);
      dbKeys := dbKeys + FilterTruthy(src.imageLinks);
      dbKeys := Unique(FilterTruthy(dbKeys));
      assert dbKeys == ParserDbKeys(src);
      var nsfw := CollectNsfwTitles(dbKeys, makeTitle, classify);
      return Some(SortedUnique(nsfw));
    }

    /**
     * applyFilePageBlurClass: on a File page that is marked, for a user who does not
     * unblur, the body gets `nsfw-filepage-blur` and wgNSFWFilePage is set.
     */
    method ApplyFilePageBlurClass(out: OutputPage, userWantsUnblur: bool, classify: Title -> bool)
      modifies this, out
      ensures out.title.None? || out.title.value.title.ns != NS_FILE || userWantsUnblur ==>
                memo == old(memo) && out.bodyClasses == old(out.bodyClasses) &&
                out.jsConfigVars == old(out.jsConfigVars)
      ensures out.title.Some? && out.title.value.title.ns == NS_FILE && !userWantsUnblur ==>
                var t := out.title.value.title;
                memo == MemoLookup(old(memo), t, classify(t)).1 &&
                (if MarkedIn(memo, t)
                 then out.bodyClasses == old(out.bodyClasses) + {FILEPAGE_BLUR_CLASS} &&
                      out.jsConfigVars == old(out.jsConfigVars)[WG_FILE_PAGE := CBool(true)]
                 else out.bodyClasses == old(out.bodyClasses) && out.jsConfigVars == old(out.jsConfigVars))
    {
      if out.title.None? || out.title.value.title.ns != NS_FILE {
        return;
      }
      if userWantsUnblur {
        return;
      }
      var marked := IsFileTitleMarkedNSFW(out.title.value.title, classify);
      if marked {
        out.bodyClasses := out.bodyClasses + {FILEPAGE_BLUR_CLASS};
        out.jsConfigVars := out.jsConfigVars[WG_FILE_PAGE := CBool(true)];
      }
    }

    /**
     * onThumbnailBeforeProduceHTML: a link-attribute value that is not an array
     * (`None`) becomes the empty array first; then, unless the current user unblurs
     * or the thumbnail has no file title, a marked file gets the blur class appended
     * to the `class` of both the image and the link attributes.
     */
    method OnThumbnailBeforeProduceHTML(file: Option<Title>, user: Option<User>, attribs: map<string, string>,
                                        linkAttribs: Option<map<string, string>>, classify: Title -> bool)
      returns (attribsOut: map<string, string>, linkAttribsOut: map<string, string>)
      modifies this
      ensures var link := if linkAttribs.Some? then linkAttribs.value else map[];
              if (user.Some? && UserWantsUnblur(user.value)) || file.None? then
                memo == old(memo) && attribsOut == attribs && linkAttribsOut == link
              else
                memo == MemoLookup(old(memo), file.value, classify(file.value)).1 &&
                if MarkedIn(memo, file.value) then
                  attribsOut == attribs["class" := AppendBlurClass(ClassOf(attribs, "class"))] &&
                  linkAttribsOut == link["class" := AppendBlurClass(ClassOf(link, "class"))]
                else attribsOut == attribs && linkAttribsOut == link
    {
      attribsOut := attribs;
      linkAttribsOut := if linkAttribs.Some? then linkAttribs.value else map[];
      if user.Some? && UserWantsUnblur(user.value) {
        return;
      }
      if file.None? {
        return;
      }
      var marked := IsFileTitleMarkedNSFW(file.value, classify);
      if !marked {
        return;
      }
      attribsOut := attribsOut["class" := AppendBlurClass(ClassOf(attribsOut, "class"))];
      linkAttribsOut := linkAttribsOut["class" := AppendBlurClass(ClassOf(linkAttribsOut, "class"))];
    }

    /**
     * onImageBeforeProduceHTML: for a marked file the frame's `class` and `img-class`
     * and the handler's `class` each get the blur class appended; there is no
     * unblur check in this hook.
     */
    method OnImageBeforeProduceHTML(file: Option<Title>, frameParams: map<string, string>,
                                    handlerParams: map<string, string>, classify: Title -> bool)
      returns (frameOut: map<string, string>, handlerOut: map<string, string>)
      modifies this
      ensures file.None? ==> memo == old(memo) && frameOut == frameParams && handlerOut == handlerParams
      ensures file.Some? ==>
                memo == MemoLookup(old(memo), file.value, classify(file.value)).1 &&
                if MarkedIn(memo, file.value) then
                  frameOut == frameParams["class" := AppendBlurClass(ClassOf(frameParams, "class"))]
                                         ["img-class" := AppendBlurClass(ClassOf(frameParams, "img-class"))] &&
                  handlerOut == handlerParams["class" := AppendBlurClass(ClassOf(handlerParams, "class"))]
                else frameOut == frameParams && handlerOut == handlerParams
    {
      frameOut, handlerOut := frameParams, handlerParams;
      if file.None? {
        return;
      }
      var marked := IsFileTitleMarkedNSFW(file.value, classify);
      if !marked {
        return;
      }
      var frameClass := AppendBlurClass(ClassOf(frameParams, "class"));
      var imgClass := AppendBlurClass(ClassOf(frameParams, "img-class"));
      frameOut := frameOut["class" := frameClass]["img-class" := imgClass];
      handlerOut := handlerOut["class" := AppendBlurClass(ClassOf(handlerParams, "class"))];
    }

    /**
     * onBeforePageDisplay: publishes the unblur flag, and on content pages the merge
     * of the list the parser hooks set with the marked files scraped from the page
     * HTML (none for a user who unblurs), sorted and without duplicates.
     * `captures` are the scrape patterns' captures in the page HTML.
     */
    method OnBeforePageDisplay(out: OutputPage, captures: seq<string>,
                               makeTitle: string -> Option<Title>, classify: Title -> bool)
      modifies this, out
      ensures Extends(old(memo), memo)
      ensures UserWantsUnblur(out.user) ==> memo == old(memo)
      ensures !UserWantsUnblur(out.user) && IsContentPage(out.title) ==> Covered(HtmlKeys(out.html, captures), makeTitle, memo)
      ensures out.title.Some? && out.title.value.title.ns == NS_FILE && !UserWantsUnblur(out.user) ==>
                out.title.value.title.prefixedDbKey in memo
      ensures NewEntriesFrom(old(memo), memo,
                             if !UserWantsUnblur(out.user) && IsContentPage(out.title) then HtmlKeys(out.html, captures) else [],
                             makeTitle, classify,
                             if out.title.Some? && !UserWantsUnblur(out.user) then Some(out.title.value.title) else None)
      ensures WG_UNBLUR in out.jsConfigVars && out.jsConfigVars[WG_UNBLUR] == CBool(UserWantsUnblur(out.user))
      ensures UNBLUR_CLASS in out.bodyClasses <==> UNBLUR_CLASS in old(out.bodyClasses) || UserWantsUnblur(out.user)
      ensures IsContentPage(out.title) ==>
                WG_FILES_ON_PAGE in out.jsConfigVars && out.jsConfigVars[WG_FILES_ON_PAGE].CList? &&
                var list := out.jsConfigVars[WG_FILES_ON_PAGE].items;
                StrictlySorted(list) &&
                forall x :: x in list <==>
                  x in ExistingList(old(out.jsConfigVars)) ||
                  (!UserWantsUnblur(out.user) && x in MarkedTexts(HtmlKeys(out.html, captures), makeTitle, memo))
      ensures !IsContentPage(out.title) ==>
                (WG_FILES_ON_PAGE in out.jsConfigVars <==> WG_FILES_ON_PAGE in old(out.jsConfigVars)) &&
                (WG_FILES_ON_PAGE in out.jsConfigVars ==>
                   out.jsConfigVars[WG_FILES_ON_PAGE] == old(out.jsConfigVars)[WG_FILES_ON_PAGE])
      ensures FILEPAGE_BLUR_CLASS in out.bodyClasses <==>
                FILEPAGE_BLUR_CLASS in old(out.bodyClasses) ||
                (out.title.Some? && !UserWantsUnblur(out.user) && MarkedIn(memo, out.title.value.title))
      ensures forall c :: c != UNBLUR_CLASS && c != FILEPAGE_BLUR_CLASS ==>
                (c in out.bodyClasses <==> c in old(out.bodyClasses))
      ensures forall k :: k != WG_UNBLUR && k != WG_FILES_ON_PAGE && k != WG_FILE_PAGE ==>
                (k in out.jsConfigVars <==> k in old(out.jsConfigVars)) &&
                (k in out.jsConfigVars ==> out.jsConfigVars[k] == old(out.jsConfigVars)[k])
      ensures if out.title.Some? && !UserWantsUnblur(out.user) && MarkedIn(memo, out.title.value.title)
              then WG_FILE_PAGE in out.jsConfigVars && out.jsConfigVars[WG_FILE_PAGE] == CBool(true)
              else (WG_FILE_PAGE in out.jsConfigVars <==> WG_FILE_PAGE in old(out.jsConfigVars)) &&
                   (WG_FILE_PAGE in out.jsConfigVars ==> out.jsConfigVars[WG_FILE_PAGE] == old(out.jsConfigVars)[WG_FILE_PAGE])
    {
      var unblur := UserWantsUnblur(out.user);
      var isContent := IsContentPage(out.title);
      out.jsConfigVars := out.jsConfigVars[WG_UNBLUR := CBool(unblur)];
      if unblur {
        out.bodyClasses := out.bodyClasses + {UNBLUR_CLASS};
      }
      var existing := ExistingList(out.jsConfigVars);
      assert existing == ExistingList(old(out.jsConfigVars));
      var fromHtml := [];
      ghost var m0 := memo;
      ghost var page := if out.title.Some? && !unblur then Some(out.title.value.title) else None;
      if !unblur && isContent {
        var dbKeys := ExtractImageDbKeysFromHtml(out.html, captures);
        fromHtml := CollectNsfwTitles(dbKeys, makeTitle, classify);
        fromHtml := Unique(fromHtml);
        ghost var afterCollect := memo;
        ghost var keysUsed := dbKeys;
        ApplyFilePageBlurClass(out, unblur, classify);
        ghost var final := memo;
        MarkedTextsStable(keysUsed, makeTitle, afterCollect, final);
        PageLookupStep(m0, afterCollect, final, keysUsed, makeTitle, classify, page);
      } else {
        ApplyFilePageBlurClass(out, unblur, classify);
        PageLookupStep(m0, m0, memo, [], makeTitle, classify, page);
      }
      if isContent {
        out.jsConfigVars := out.jsConfigVars[WG_FILES_ON_PAGE := CList(SortedUnique(existing + fromHtml))];
      }
    }
  }

  /**
   * The page's own file title is looked up after the scraped keys: the keys stay
   * covered, and every new entry is the verdict for a key or for the page.
   */
  lemma PageLookupStep(m0: map<string, bool>, m1: map<string, bool>, m2: map<string, bool>, keys: seq<string>,
                       makeTitle: string -> Option<Title>, classify: Title -> bool, page: Option<Title>)
    requires NewEntriesClassified(m0, m1, keys, makeTitle, classify) && Covered(keys, makeTitle, m1)
    requires page.Some? && page.value.ns == NS_FILE ==> m2 == MemoLookup(m1, page.value, classify(page.value)).1
    requires !(page.Some? && page.value.ns == NS_FILE) ==> m2 == m1
    ensures Covered(keys, makeTitle, m2)
    ensures page.Some? && page.value.ns == NS_FILE ==> page.value.prefixedDbKey in m2
    ensures NewEntriesFrom(m0, m2, keys, makeTitle, classify, page)
  {
  }

  lemma CoveredStep(keys: seq<string>, i: int, makeTitle: string -> Option<Title>,
                    before: map<string, bool>, after: map<string, bool>)
    requires 0 <= i < |keys|
    requires Covered(keys[..i], makeTitle, before) && Extends(before, after)
    requires FileKeyIn(makeTitle(keys[i]), after)
    ensures Covered(keys[..i + 1], makeTitle, after)
  {
    var pre := keys[..i + 1];
    forall j | 0 <= j < |pre| ensures FileKeyIn(makeTitle(pre[j]), after) {
      if j < i { assert pre[j] == keys[..i][j]; }
    }
  }

  lemma ClassifiedStep(m0: map<string, bool>, before: map<string, bool>, after: map<string, bool>,
                       keys: seq<string>, i: int, makeTitle: string -> Option<Title>, classify: Title -> bool)
    requires 0 <= i < |keys|
    requires NewEntriesClassified(m0, before, keys[..i], makeTitle, classify) && Extends(before, after)
    requires forall k :: k in after && k !in before ==>
               FileTitleFor(keys, i, makeTitle, k) && after[k] == classify(makeTitle(keys[i]).value)
    ensures NewEntriesClassified(m0, after, keys[..i + 1], makeTitle, classify)
  {
    var pre := keys[..i + 1];
    forall k | k in after && k !in m0
      ensures exists j :: 0 <= j < |pre| && FileTitleFor(pre, j, makeTitle, k) &&
                          after[k] == classify(makeTitle(pre[j]).value)
    {
      if k in before {
        var j :| 0 <= j < i && FileTitleFor(keys[..i], j, makeTitle, k) &&
                 before[k] == classify(makeTitle(keys[..i][j]).value);
        assert pre[j] == keys[..i][j];
        assert FileTitleFor(pre, j, makeTitle, k);
      } else {
        assert pre[i] == keys[i];
        assert FileTitleFor(pre, i, makeTitle, k);
      }
    }
  }
}
