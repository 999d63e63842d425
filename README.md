# NSFW blur for MediaWiki, modelled in Dafny

This project models the parts of the NSFW-blur MediaWiki extension that decide
which files get blurred.

**Server side: the hooks in `includes/Hooks.php`.** They find the files a page shows:
- from the media links of the parser output;
- from the `imagelinks` rows;
- from a scrape of the rendered HTML.

Each file name is normalised to a database key and classified through a per-request
memo. The result is published as the sorted, de-duplicated `wgNSFWFilesOnPage` list.
The hooks also set the `nsfw-unblur` and `nsfw-filepage-blur` body classes and append
`nsfw-blur` to the thumbnails of sensitive files. They handle the birth-date and opt-in
preferences that decide who may turn the blur off.

**Client side: two scripts.**
- `modules/nsfw-blur.js` resolves the file title of every image and marks sensitive
  images with `nsfw-blur`. It also marks the image's closest `a`, `td` and
  `.mw-file-element`.
- `modules/nsfw-blur.top.js` keeps the media viewer blurred by default while it is
  open. It removes the blur only when the file shown is known to be safe.

The DOM is a sequence of nodes, each with a tag, attributes and a parent. The class
lists are a separate, mutable sequence of sets (`Dom.Document`). CSS selectors are the
compound selectors the scripts use, alone or under a descendant (`a b`) or child
(`a > b`) combinator. The scripts' mutable state becomes
two classes:
- `InlineBlur.BlurController` for the marker;
- `Overlay.OverlaySync` for the viewer overlay, with its update flag and pending
  animation frame.

Each method is specified against a function on the class lists (`Mark`, `Propagate`,
`Scanned`, `Updated`, `PointerDown`), and the properties are proved about those
functions.

The model abstracts these services into parameters:
- MediaWiki calls are parameters. `makeTitle` is `Title::makeTitleSafe(NS_FILE, …)`.
  `classify` is the marker and category lookup behind `isFileTitleMarkedNSFW`.
  `newFromText` is `mw.Title.newFromText(…).getPrefixedText()`. `parseUri` is
  `new mw.Uri(…)`.
- `strtotime` and the current time are inputs of the preference functions.
- The regex captures of the HTML scrape are an input sequence; what happens to them
  afterwards is modelled.

## Model

| member | source | states |
|---|---|---|
| DbKey.NormalizeDbKey | includes/Hooks.php:368-388 | A normalised key never contains `/` or a space. |
| DbKey.StripNamespace | includes/Hooks.php:373 | The result is a suffix of the input. The input is unchanged when it has no optional `:`, spaces and case-insensitive `File:` prefix. |
| DbKey.LastSegment | includes/Hooks.php:376-379 | The result never contains `/`. |
| DbKey.StripThumbPrefix | includes/Hooks.php:382 | The result is a suffix of the input. The input is unchanged unless it starts with digits followed by `px-`. |
| DbKey.FileNamePart | includes/Hooks.php:369-379 | The trimmed, decoded name without namespace or path never contains `/`. |
| DbKey.LastSegmentWithoutSlash | includes/Hooks.php:376-379 | A string without `/` is its own last segment. |
| DbKey.LastSegmentAfterSlash | includes/Hooks.php:376-379 | The text after the last `/` is the last segment, whatever comes before it. |
| DbKey.ThumbPrefixLength | includes/Hooks.php:382 | `<digits>px-<name>` has a thumb prefix exactly as long as the digits plus `px-`, and stripping it leaves `<name>`. |
| DbKey.NoNamespaceOnSlashOrDigit | includes/Hooks.php:373 | A string starting with `/` or a digit has no namespace prefix. |
| DbKey.NormalizeSteps | includes/Hooks.php:368-388 | For already-trimmed input without `%`, normalisation is: strip the namespace, take the last segment, strip the thumb prefix, turn spaces into `_`. |
| DbKey.StripFileNamespace | includes/Hooks.php:373 | `File:` + n loses exactly the prefix. |
| DbKey.StripLinkNamespace | includes/Hooks.php:373 | `:File:` + n loses exactly the prefix. |
| DbKey.NamespaceStrippedOnce | includes/Hooks.php:368-388 | `File:Foo.png` normalises to the key of `Foo.png`. |
| DbKey.LinkNamespaceStrippedOnce | includes/Hooks.php:368-388 | `:File:Foo.png` normalises to the key of `Foo.png`. |
| DbKey.ThumbPrefixStrippedOnce | includes/Hooks.php:368-388 | `320px-Foo.png` normalises to the key of `Foo.png`. |
| DbKey.DirectUrlKey | includes/Hooks.php:368-388 | A direct image URL `/<dirs>/Foo.png` normalises to the key of `Foo.png`. |
| DbKey.ThumbUrlKey | includes/Hooks.php:368-388 | A thumbnail URL segment `/<dirs>/320px-Foo.png` normalises to the key of `Foo.png`. |
| DbKey.EveryFormGivesTheSameKey | includes/Hooks.php:301-388 | The plain name, `File:` and `:File:` links, and direct and thumbnail URLs of one file all give the same key. |
| PhpText.Trim | includes/Hooks.php:369 | The result neither starts nor ends with a character `trim` removes. |
| PhpText.TrimLeft | includes/Hooks.php:369 | The result is the suffix left after removing exactly the leading trim characters. |
| PhpText.TrimRight | includes/Hooks.php:369 | The result is the prefix left after removing exactly the trailing trim characters. |
| PhpText.RawUrlDecode | includes/Hooks.php:370 | Decoding never lengthens a string, and a string without `%` is unchanged. |
| PhpArrays.Unique | includes/Hooks.php:364 | `array_unique` keeps exactly the members of the input, each once. |
| PhpArrays.FilterTruthy | includes/Hooks.php:364 | `array_filter` keeps exactly the members that are not falsy (`""` and `"0"`). |
| PhpArrays.Insert | includes/Hooks.php:90 | Inserting into a sorted list keeps it sorted and adds exactly one copy of the element. |
| PhpArrays.Sort | includes/Hooks.php:90 | `sort` returns a sorted permutation of its input. |
| PhpArrays.SortedUnique | includes/Hooks.php:89-90 | Unique then sort gives a strictly sorted list with exactly the input's members. |
| PhpArrays.DistinctPermutation | includes/Hooks.php:89-90 | A permutation of a duplicate-free list is duplicate-free. |
| PhpArrays.StrictlySortedDetermined | includes/Hooks.php:89-90 | Two strictly sorted lists with the same members are equal. |
| PhpArrays.SortedUniqueDeterminedByMembers | includes/Hooks.php:89-90 | The merged list depends only on the set of its inputs' members. |
| ServerHooks.TrimLeftWithBlurClass | includes/Hooks.php:278-279 | Left-trimming `c + " nsfw-blur"` drops the padding, and only keeps the separating space when `c` has text. |
| ServerHooks.AppendBlurClass | includes/Hooks.php:278-279 | `trim($class . ' nsfw-blur')` is the class left-trimmed plus ` nsfw-blur`, or just `nsfw-blur` when the class is blank. |
| ServerHooks.MemoLookup | includes/Hooks.php:693-752 | Non-file titles are never marked and are not cached. A cached verdict comes back as is, and a new one is the classifier's. The memo only grows, and the answer is its entry. |
| ServerHooks.MemoAnswerIsStable | includes/Hooks.php:693-752 | Once a title has been answered, every later lookup gives the same answer and leaves the memo alone. |
| ServerHooks.MarkedTextsMembers | includes/Hooks.php:220-230 | The collected texts are exactly the prefixed texts of the marked file titles among the keys. |
| ServerHooks.MarkedTextsStable | includes/Hooks.php:220-230 | Memo entries added after every key has its entry do not change what was collected. |
| ServerHooks.MapAll | includes/Hooks.php:310-361 | Every element is mapped, in order. |
| ServerHooks.NormalizeAll | includes/Hooks.php:310-361 | Each capture is replaced by its normalised key, in order. |
| ServerHooks.MappedKeysMembers | includes/Hooks.php:364 | The filtered unique images are exactly the truthy values some capture maps to. |
| ServerHooks.ScrapedKeys | includes/Hooks.php:301-366 | The scraped keys have no duplicates. They are exactly the truthy normalised captures, and none contains `/` or a space. |
| ServerHooks.ExtractImageDbKeysFromHtml | includes/Hooks.php:301-366 | Empty HTML gives no keys. Otherwise the result is the de-duplicated truthy normalised captures. |
| ServerHooks.StringKeys | includes/Hooks.php:161-175 | Keys PHP would turn into integers are dropped, and every other key is kept. |
| ServerHooks.ParserDbKeys | includes/Hooks.php:158-218 | The key list has no duplicates. It is exactly the truthy keys from the string media keys, the scraped HTML and `imagelinks`. |
| ServerHooks.MergeIgnoresOrder | includes/Hooks.php:88-95 | Merging the existing list with the scraped one gives the same list in either order. |
| ServerHooks.MergeIsIdempotent | includes/Hooks.php:88-95 | Merging again, or merging an already merged list, changes nothing. |
| ServerHooks.CoveredStep | includes/Hooks.php:222-230 | One more loop iteration keeps every key seen so far in the memo. |
| ServerHooks.MarkedTexts | includes/Hooks.php:75-83 | Defines the texts the key loops collect. `MarkedTextsMembers` states its members. |
| ServerHooks.ExistingList | includes/Hooks.php:60-65 | The list already published, or empty when there is none or it is not a list. |
| ServerHooks.PageLookupStep | includes/Hooks.php:101 | Looking up the page's file title after the keys keeps the keys covered, gives the page an entry, and adds only verdicts for the keys or the page. |
| ServerHooks.ClassifiedStep | includes/Hooks.php:222-230 | One more loop iteration adds only verdicts of the classifier for titles of the keys. |
| ServerHooks.OutputPage.constructor | includes/Hooks.php:39-45 | A page starts with its title, user and HTML, the given config vars and no body classes. |
| ServerHooks.Hooks.constructor | includes/Hooks.php:694 | The memo starts empty. |
| ServerHooks.Hooks.IsFileTitleMarkedNSFW | includes/Hooks.php:693-752 | The answer and the new memo are those of `MemoLookup` on the old memo and the classifier's verdict. |
| ServerHooks.Hooks.CollectNsfwTitles | includes/Hooks.php:220-230 | The memo grows, covers every key, and gains only classifier verdicts. The result is the marked texts of the keys under the final memo. |
| ServerHooks.Hooks.InjectNsfwFilesOnPageFromParserOutput | includes/Hooks.php:138-241 | No title or a special page gives no list. An unblurring user gets the empty list. Otherwise every parser key's file title gets a memo entry, and the list is the sorted unique marked texts of all parser keys. |
| ServerHooks.Hooks.ApplyFilePageBlurClass | includes/Hooks.php:756-770 | On a file page for a user who does not unblur, a marked file adds `nsfw-filepage-blur` and sets `wgNSFWFilePage`. Anything else leaves the page and memo untouched. |
| ServerHooks.Hooks.OnThumbnailBeforeProduceHTML | includes/Hooks.php:249-280 | For a marked file and a user who does not unblur, `nsfw-blur` is appended to the image and link classes. Otherwise both attribute maps come back unchanged. |
| ServerHooks.Hooks.OnImageBeforeProduceHTML | includes/Hooks.php:572-610 | For a marked file, `nsfw-blur` is appended to the frame `class` and `img-class` and to the handler `class`. With no file or an unmarked file nothing changes. |
| ServerHooks.Hooks.OnBeforePageDisplay | includes/Hooks.php:39-104 | `wgNSFWUnblur` and `nsfw-unblur` follow the preference. On content pages the list is strictly sorted and holds exactly the existing entries plus the marked scraped titles. Other pages keep their list. `nsfw-filepage-blur` is set, and `wgNSFWFilePage` becomes true, exactly for a marked file page. Every other body class and config variable is left as it was. The memo only grows, and stays as it was for a user who unblurs. Otherwise every scraped key of a content page and the file page's own title get an entry, and each new entry is the classifier's verdict for one of them. |
| Preferences.BirthDateOption | includes/Hooks.php:646-655 | The new option wins when it is non-empty, the legacy option is the fallback, and the result is absent exactly when both are empty or falsy. |
| Preferences.NormalizeBirthDateValue | includes/Hooks.php:657-665 | A date stays as it is and a year becomes `YYYY-01-01`. Anything the two anchored patterns reject is absent. |
| Preferences.YearWithTrailingNewline | includes/Hooks.php:657-665 | `$` accepts a year followed by a newline, and the result is then not a date. |
| Preferences.BirthDateDefault | includes/Hooks.php:667-673 | The default is the normalised stored value. It is empty exactly when nothing is stored or the stored value does not normalise. |
| Preferences.IsUserOldEnough | includes/Hooks.php:675-682 | Defines the age test. `OldEnoughNeedsDate`, `OldEnoughIsThreshold` and `UnparseableDateCountsAsEpoch` state it. |
| Preferences.OldEnoughNeedsDate | includes/Hooks.php:675-682 | Being old enough requires a stored birth date that normalises. |
| Preferences.OldEnoughIsThreshold | includes/Hooks.php:675-682 | With a parsed birth time, old enough means born at least 18 Julian years before now. |
| Preferences.UnparseableDateCountsAsEpoch | includes/Hooks.php:675-682 | A date `strtotime` rejects counts as the epoch. |
| Preferences.UserWantsUnblur | includes/Hooks.php:684-687 | Defines the unblur test. `UnblurNeedsRegistrationAndOptIn` states it. |
| Preferences.UnblurNeedsRegistrationAndOptIn | includes/Hooks.php:684-687 | A user unblurs exactly when registered and opted in with a value other than `""` or `"0"`. |
| Preferences.OnUserSaveOptions | includes/Hooks.php:633-640 | Only the unblur option can change. For a user who is not old enough it is forced to 0, and otherwise the options are untouched. |
| Preferences.SaveKeepsUnderAgeBlurred | includes/Hooks.php:633-640 | After saving, a user who is not old enough does not unblur. |
| Preferences.OnPageRenderingHash | includes/Hooks.php:617-627 | A user appends exactly the text `!nsfw:` and then the unblur digit to the hash. With no user the hash is unchanged. |
| Preferences.RenderingHashSeparatesUnblur | includes/Hooks.php:617-627 | Two users share a rendering hash exactly when they agree on unblurring. |
| Preferences.ValidateBirthDatePreference | includes/Hooks.php:776-784 | Empty and absent values pass. Other values pass exactly when they normalise, and are otherwise rejected with the invalid-date message. |
| Preferences.DatesAndYearsValidate | includes/Hooks.php:776-784 | Every date and every year passes validation. |
| Preferences.ValidateNsfwUnblurPreference | includes/Hooks.php:786-799 | Turning unblur on passes exactly for a user who is old enough, otherwise with the age message. Turning it off always passes. |
| JsValues.IsTruthy | modules/nsfw-blur.js:10 | Defines `isTruthy`. `IsTruthyIsStrict` states what it accepts. |
| JsValues.IsTruthyIsStrict | modules/nsfw-blur.js:10 | `isTruthy` accepts only `true`, `1`, `'1'` and `'true'`, which is stricter than JavaScript truthiness. |
| JsValues.NormalizeTitle | modules/nsfw-blur.js:12-20 | An empty title is null, and any other title is what `mw.Title` answers. |
| JsValues.DecodeFrom | modules/nsfw-blur.js:22-28 | Text without `%` decodes to itself, and decoding never lengthens. |
| JsValues.DecodeUriComponent | modules/nsfw-blur.js:22-28 | Text without `%` decodes to itself, and decoding never lengthens. |
| JsValues.DecodeSafe | modules/nsfw-blur.js:22-28 | When decoding throws, the input comes back unchanged. |
| JsValues.BadEscapeFails | modules/nsfw-blur.js:22-28 | A `%` that does not start an escape makes decoding throw. |
| JsValues.MalformedEscapeFails | modules/nsfw-blur.js:22-28 | A lone `%` throws, and `decodeSafe` then returns the raw text. |
| JsValues.DecodeAsciiExample | modules/nsfw-blur.js:22-28 | `%2F` decodes to `/`. |
| JsValues.DecodeUtf8Example | modules/nsfw-blur.js:22-28 | `%C3%A9` decodes to `é` as UTF-8. |
| JsValues.TruncatedSequenceExample | modules/nsfw-blur.js:22-28 | A truncated UTF-8 sequence throws, and `decodeSafe` keeps it. |
| InlineBlur.NsfwSetOf | modules/nsfw-blur.js:35-37 | The set holds exactly the non-empty normalised titles of the configured list. |
| InlineBlur.FilePathTarget | modules/nsfw-blur.js:76 | There is a target exactly when the title starts with `Special:FilePath/` in any letter case and a non-empty rest on one line follows. The target is that rest. |
| InlineBlur.ResolverPriority | modules/nsfw-blur.js:48-65 | `data-file-name`, then a `File:` `data-title`, then a `File:` `resource` decide in that order. With none of them and no `a[href]` ancestor, nothing is resolved. |
| InlineBlur.ResolveIgnoresClasses | modules/nsfw-blur.js:48-102 | Class changes never change an image's resolved title. |
| InlineBlur.QueryTitleWins | modules/nsfw-blur.js:72-80 | A link's query `title` decides the title whatever its path. |
| InlineBlur.FilePathQueryNamesFile | modules/nsfw-blur.js:75-77 | `?title=Special:FilePath/X` names `File:` plus X decoded. |
| InlineBlur.FilePathAnyCase | modules/nsfw-blur.js:75-77 | The `Special:FilePath/` prefix of a query title matches in any letter case, and the title is still `File:` plus X decoded. |
| InlineBlur.QueryTitleAsIs | modules/nsfw-blur.js:72-80 | A query title that is not a `Special:FilePath/` target is normalised as it is. |
| InlineBlur.TitleFromLinkUri | modules/nsfw-blur.js:67-101 | Defines the title of a link: the query `title` first, then `/wiki/File:`, `/wiki/Special:FilePath/` and `/w/Special:FilePath/` runs of the path, in that order. Its properties are `QueryTitleWins`, `FilePathQueryNamesFile`, `FilePathAnyCase`, `QueryTitleAsIs` and the four path lemmas below. |
| InlineBlur.WikiFileLink | modules/nsfw-blur.js:85-87 | Without a query title, a path starting with `/wiki/File:` in any letter case names the decoded `File:X` run, with the run keeping its own case. |
| InlineBlur.WikiFileExactCase | modules/nsfw-blur.js:85-87 | `<a href="/wiki/File:X">` names the decoded `File:X`. |
| InlineBlur.WikiFileLowerCase | modules/nsfw-blur.js:85-87 | `/wiki/file:X` matches too, and names the decoded `file:X`. |
| InlineBlur.WikiFilePathLink | modules/nsfw-blur.js:89-91 | `/wiki/Special:FilePath/X`, in any letter case, names `File:` plus X decoded, when no `/wiki/File:` run comes first. |
| InlineBlur.ShortFilePathLink | modules/nsfw-blur.js:93-95 | `/w/Special:FilePath/X`, in any letter case, names `File:` plus X decoded, when neither `/wiki/` pattern matches. |
| InlineBlur.ResolveFileTitle | modules/nsfw-blur.js:48-102 | Defines an image's title from its attributes and then its closest link. Its properties are `ResolverPriority`, `LinkResolves` and `ResolveIgnoresClasses`. |
| InlineBlur.LinkResolves | modules/nsfw-blur.js:63-101 | With no usable attribute, the closest `a[href]` decides: its parsed href gives the link's title. A missing href, or one `mw.Uri` rejects, gives nothing. |
| InlineBlur.MarkUp | modules/nsfw-blur.js:117-128 | Marking only adds classes. |
| InlineBlur.Mark | modules/nsfw-blur.js:111-129 | Marking only adds classes. |
| InlineBlur.MarkTouchesExactly | modules/nsfw-blur.js:111-129 | An already marked image, or one with no sensitive title, changes nothing. Otherwise exactly the image and its closest `a`, `td` and `.mw-file-element` gain `nsfw-blur`, and nothing else changes. |
| InlineBlur.MarkUpTouches | modules/nsfw-blur.js:117-128 | The four marking steps add `nsfw-blur` to exactly the image and its three closest ancestors. |
| InlineBlur.MarkAll | modules/nsfw-blur.js:138 | Marking a list of images only adds classes. |
| InlineBlur.MarkAllCovers | modules/nsfw-blur.js:138 | After the loop every visited image is marked or has no sensitive title. |
| InlineBlur.MarkAllFixed | modules/nsfw-blur.js:138 | Marking images that are all already settled changes nothing. |
| InlineBlur.Propagate | modules/nsfw-blur.js:131-135 | Propagation only adds classes. |
| InlineBlur.PropagateKeepsLinks | modules/nsfw-blur.js:131-135 | After propagation every image in scope that sits directly inside an `a.nsfw-blur` carries `nsfw-blur`. |
| InlineBlur.PropagateFixed | modules/nsfw-blur.js:131-135 | Propagation changes nothing when every target already carries the class. |
| InlineBlur.Scanned | modules/nsfw-blur.js:137-140 | A scan only adds classes. Its other properties are `ScanPropagates`, `ScanCovers`, `ScanTargetsMarked` and `ScanIdempotent`. |
| InlineBlur.ScanPropagates | modules/nsfw-blur.js:137-140 | After a scan every `a.nsfw-blur > img` in the subtree is blurred. |
| InlineBlur.ScanCovers | modules/nsfw-blur.js:137-140 | A scan does not change which images are in the subtree, and leaves each of them marked or not sensitive. |
| InlineBlur.ScanTargetsMarked | modules/nsfw-blur.js:137-140 | After a scan every propagation target in the subtree carries `nsfw-blur`. |
| InlineBlur.ScanIdempotent | modules/nsfw-blur.js:137-140 | Scanning the same subtree twice is scanning it once. |
| InlineBlur.OnAdded | modules/nsfw-blur.js:146-159 | Handling added nodes only adds classes. |
| InlineBlur.BlurController.constructor | modules/nsfw-blur.js:34-37 | The controller's sensitive set is built from the configured list through `mw.Title`. |
| InlineBlur.BlurController.MarkImageIfNSFW | modules/nsfw-blur.js:111-129 | The new class lists are `Mark` of the old ones. |
| InlineBlur.BlurController.PropagateBlurToAnchorImages | modules/nsfw-blur.js:131-135 | The new class lists are `Propagate` of the old ones. |
| InlineBlur.BlurController.Scan | modules/nsfw-blur.js:137-140 | The new class lists are `Scanned` of the old ones: every image in the subtree is marked in document order, then propagation runs. |
| InlineBlur.BlurController.OnMutation | modules/nsfw-blur.js:146-159 | Each added `img` is marked, each other added element is scanned, and text nodes are skipped. |
| InlineBlur.BlurController.OnContent | modules/nsfw-blur.js:176-179 | A content refresh scans its root, or the whole document when there is none. |
| InlineBlur.Start | modules/nsfw-blur.js:34-42 | An unblurring user only gets `nsfw-unblur` on `<html>` and no controller. Otherwise a controller with the configured set scans the document. |
| Dom.Closest | modules/nsfw-blur.js:64 | `closest` gives the node itself or its nearest matching ancestor: nothing between the node and the result matches. Nothing is given exactly when neither the node nor any ancestor matches. |
| Overlay.WikiTail | modules/nsfw-blur.top.js:61 | The tail is what follows the leftmost `/wiki/` with at least one character after it, and is absent exactly when there is no such match. |
| Overlay.TitleFromHref | modules/nsfw-blur.top.js:52-65 | An empty href, or one `mw.Uri` rejects, names nothing. |
| Overlay.QueryTitleDecides | modules/nsfw-blur.top.js:58 | A query `title` names that title whatever the path. |
| Overlay.WikiPathTitle | modules/nsfw-blur.top.js:61-63 | `/wiki/X` names X when X needs no decoding. An undecodable X names nothing. |
| Overlay.TitleFromHash | modules/nsfw-blur.top.js:67-76 | A hash without a `File:` run names nothing. |
| Overlay.HashTitle | modules/nsfw-blur.top.js:67-76 | `#/media/File:Foo.jpg` names `File:Foo.jpg`: the first `File:` up to the end, when no `#`, `?` or `&` follows. |
| Overlay.CurrentTitle | modules/nsfw-blur.top.js:117-125 | When the viewer has no link, the hash decides. |
| Overlay.LinkBeforeHash | modules/nsfw-blur.top.js:117-125 | The viewer's link decides whenever it names a title. When there is no link, or the link names nothing, the hash decides. |
| Overlay.CurrentTitleIgnoresPreblur | modules/nsfw-blur.top.js:148-150 | Toggling the pre-blur class does not change the title found. |
| Overlay.TitlesOf | modules/nsfw-blur.top.js:84-97 | The set holds exactly the non-empty titles the items yield. |
| Overlay.TitlesOfSnoc | modules/nsfw-blur.top.js:84-97 | One more item adds exactly its title, if it has one. |
| Overlay.AddTitles | modules/nsfw-blur.top.js:84-97 | The loop adds exactly the titles of the items to the set. |
| Overlay.ConfigTitles | modules/nsfw-blur.top.js:82-88 | The configured list contributes exactly its non-empty normalised titles. |
| Overlay.MarkerTitles | modules/nsfw-blur.top.js:91-97 | The DOM markers contribute exactly the titles of the elements the marker selector matches. |
| Overlay.MarkerHref | modules/nsfw-blur.top.js:94 | Defines a marker's href: its own, else that of its closest `a[href]`. `MarkerTitles` states what the markers contribute. |
| Overlay.PageTitle | modules/nsfw-blur.top.js:99-106 | The page contributes a title only when the body carries `nsfw-filepage-blur` and `wgPageName` is non-empty. It is then `mw.Title`'s answer for the name with `_` read as spaces. |
| Overlay.NsfwSetOf | modules/nsfw-blur.top.js:78-109 | The empty title is never in the set. `NsfwSetMembers` states its members. |
| Overlay.NsfwSetMembers | modules/nsfw-blur.top.js:78-109 | A title is in the set exactly when the list, a blur marker or the flagged file page names it. |
| Overlay.Updated | modules/nsfw-blur.top.js:139-161 | An update keeps the class lists well-formed. |
| Overlay.ToggleTwice | modules/nsfw-blur.top.js:32-40 | The second of two toggles of one class wins. |
| Overlay.ToggleCommutes | modules/nsfw-blur.top.js:32-40 | Toggles of different classes commute. |
| Overlay.UpdateSetsVerdict | modules/nsfw-blur.top.js:139-161 | Without a viewer the pre-blur is cleared. With one, both classes are set to the default-deny verdict: blurred unless the title is known and not sensitive. |
| Overlay.UpdateDefaultDeny | modules/nsfw-blur.top.js:139-161 | With a viewer open, each blur class is off exactly when the title is known and not in the set. |
| Overlay.MarkedIsBlurClass | modules/nsfw-blur.top.js:168 | The marked selector matches exactly the elements that carry `nsfw-blur`. |
| Overlay.PointerDown | modules/nsfw-blur.top.js:164-179 | A press keeps the class lists well-formed. `PointerNeverClears` states its effect. |
| Overlay.InsideMarkedIsFound | modules/nsfw-blur.top.js:168 | `closest('.nsfw-blur, img.nsfw-blur, a.nsfw-blur')` finds a node exactly when the pressed element or one of its ancestors carries `nsfw-blur`. |
| Overlay.PointerNeverClears | modules/nsfw-blur.top.js:164-179 | A press can only raise the pre-blur and touches no other class. It always raises it when the pressed element or any of its ancestors carries `nsfw-blur`, or when it is under a link naming a sensitive title. It raises it only in those cases, or when it was already raised. |
| Overlay.OverlaySync.constructor | modules/nsfw-blur.top.js:111 | The set is built at start-up, and no frame is pending. |
| Overlay.OverlaySync.BuildNSFWSet | modules/nsfw-blur.top.js:78-109 | The result is the set of the list, the markers and the page title. |
| Overlay.OverlaySync.ScheduleUpdate | modules/nsfw-blur.top.js:128-136 | After scheduling exactly one frame is pending, and a second call requests no new frame. |
| Overlay.OverlaySync.Update | modules/nsfw-blur.top.js:139-161 | The new class lists are `Updated` of the old ones. |
| Overlay.OverlaySync.OnFrame | modules/nsfw-blur.top.js:132-135 | The frame clears the flag and runs the update. |
| Overlay.OverlaySync.OnPointerDown | modules/nsfw-blur.top.js:164-179 | The new class lists are `PointerDown` of the old ones. |
| Overlay.OverlaySync.OnContent | modules/nsfw-blur.top.js:193-196 | A content refresh rebuilds the set and schedules an update. |
| Overlay.Start | modules/nsfw-blur.top.js:5-13 | `<html>` always gets the loaded marker. An unblurring user gets nothing else. Otherwise the set is built and an update is scheduled. |

## Left out

- Database lookups: the page-props marker, the categories and the revision lookup behind `isFileTitleMarkedNSFW` are the input `classify`. Only the memo around it is modelled.
- The `imagelinks` query becomes an input sequence of `il_to` values. A failing query and the `getArticleID` check are not modelled.
- The PCRE patterns of `extractImageDbKeysFromHtml`: their matches are the input `captures`. Only what happens to the matches is modelled.
- `html_entity_decode` in the normalisation, because the model has no HTML entity table. The input is taken as already decoded.
- `strtotime` and `time()` are inputs; no date parsing is modelled.
- `mw.Title` and `mw.Uri` are the oracles `newFromText` and `parseUri`. Their exceptions are `None`.
- The `href` property is the `href` attribute; it is not resolved against the document URL. In particular an empty `href` is not turned into the page's own URL.
- Event-listener registration (`pointerdown`, `mousedown`, `touchstart`, `hashchange`, `wikipage.content`, the mutation observers, `$(init)`): each handler is a method, and the browser calling it is left out.
- `location.hash` is a parameter of `Update` and `OnFrame`.
- `requestAnimationFrame` is a pending-frame counter.
- `OnMutation`: mutation records are flattened into the list of added nodes.
- `getEarlyInlineCss`, the module and style registration, `onGetPreferences` and `onUserGetDefaultOptions`: they produce CSS and form definitions, not decisions.
- `NSFWFilter.php` is not part of this model.
- `onSpecialPageBeforeExecute` is not part of this model. It relies on a variable (`$opts`) the function never defines, so it has no defined behaviour to model.
- `onParserOutput` is not part of this model. It only writes debug output.
- `getOutputHtml` is not part of this model. Its result is the page's `html`.
- `StringKeys`: PHP's integer array keys are modelled as digit strings that PHP would convert, not as 64-bit integers. Such a key is dropped by the `is_string` filter.
- Configuration values other than strings and lists. A `wgNSFWFilesOnPage` that is not an array is treated as absent (`filesOnPage` is `None`).
- JavaScript numbers are reals, and the code paths that would need floating point are not modelled.
- The `try`/`catch` around the classification in the thumbnail hooks: `classify` cannot throw.
- `Overlay.NsfwSetOf`: a `null` that `normalizeTitleText` adds for the page name is not kept, because `nsfwSet.has` is only ever asked about non-empty titles.
- The `window.__resolveNSFWFileTitle` debug global and the console logging.
