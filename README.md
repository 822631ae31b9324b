# Friendica content, account, photo and logger core in Dafny

This project models four parts of Friendica, a decentralised social
network server, and proves properties of that model.

- **BBCode text handling** (`src/Content/Text/BBCode.php`). It covers:
  - reading attachment blocks, in both the old and the new form, and removing share information;
  - cutting a body down to a size limit while keeping embedded images;
  - hiding `[code]` blocks and restoring them;
  - escaping `[noparse]` regions and undoing the escape;
  - saving `[img]data:` images and putting them back (`extract`/`interpolate`);
  - locating and rewriting attributes inside a tag (`getTagPosition`, `pregReplaceInTag`);
  - the normalising passes of `convert` (trim, tables, lists, spoilers, quotes, code blocks);
  - the smaller decisions of `convert`: mentions, links, image sources, proxying and OStatus labels;
  - reading and stripping abstracts, and collecting hashtags and mentions (`getTags`).
- **Users** (`src/Model/User.php`):
  - the authentication lookup;
  - hashing a password and updating it;
  - the blocked-nickname check;
  - the validation and field choices of registration (`create`).
- **Photos** (`src/Model/Photo.php`):
  - the GUID of a local photo address;
  - stripping an extension;
  - the local-address test;
  - setting the permissions of the photos a body links to.
- **Logger factory** (`src/Factory/LoggerFactory.php`):
  - mapping legacy debug levels;
  - building the Monolog, syslog, stream, void and profiling loggers for `create` and `createDev`;
  - adding stream and null handlers.

Text is modelled as `seq<char>`. PHP's looseness is written out where the
code depends on it:
- `empty` also holds of `"0"`;
- `==` and `switch` compare digit-only strings as numbers;
- `strpos` can return `0`, which reads as false.

The regular expressions used are modelled as the scans they perform:
- lazy groups that may or may not cross line breaks;
- one-character classes.

Where a Monolog logger's processors and handlers change in place, the
logger is a class whose methods push onto its stacks.

Modules:
- `Strings`: the PHP string functions the other modules use.
- `LazyRegex` and `LineRegex`: the lazy `open(.*?)close` patterns, across lines and within one line.
- `Attachment`, `BodyLimit`, `CodeBlocks`, `Noparse`, `ImageTags`, `TagScanner`, `Normalise`, `Decisions` and `Tags`: the parts of `BBCode.php`.
- `User`, `Photo` and `LoggerFactory`: the other three files.

## Model

| member | source | states |
|---|---|---|
| Attachment.AttributeValue | src/Content/Text/BBCode.php:133-142 | a non-empty double-quoted value wins; otherwise a non-empty single-quoted one; when both are empty or "0" the value is "" |
| Attachment.EscapeBrackets | src/Content/Text/BBCode.php:185 | the escaped title holds no `[` and no `]` |
| Attachment.AttachmentMatch | src/Content/Text/BBCode.php:125 | a match of the document pattern has two inner groups and lies inside the body |
| Attachment.NewFormTypeChecked | src/Content/Text/BBCode.php:133-154 | the new form yields data exactly when the lower-cased type is link, audio, photo or video, and then reports that type |
| Attachment.NewFormTrimmed | src/Content/Text/BBCode.php:131 | returned text, description and after are all set and trimmed (also lines 219-221) |
| Attachment.NewFormTitleEscaped | src/Content/Text/BBCode.php:182-187 | a returned title holds no square bracket |
| Attachment.OldHead | src/Content/Text/BBCode.php:63-72 | one accepted match sets type, text and after and leaves url, title, image, preview and description alone |
| Attachment.WithPicture | src/Content/Text/BBCode.php:76-87 | the picture step changes only image or preview |
| Attachment.WithBookmark | src/Content/Text/BBCode.php:89-92 | the bookmark step changes only url and title |
| Attachment.WithUrl | src/Content/Text/BBCode.php:93-96 | the `[url=…]` step changes only url |
| Attachment.WithQuote | src/Content/Text/BBCode.php:99-101 | the quote step changes only description |
| Attachment.OldRound | src/Content/Text/BBCode.php:58-102 | a match with an accepted class sets the type to the class without `type-` and sets a text; any other class leaves the array unchanged |
| Attachment.ClassMatches | src/Content/Text/BBCode.php:57 | every `[class=…]` match has two groups and lies inside the body |
| Attachment.AllMatchesOrdered | src/Content/Text/BBCode.php:57 | every match found by `preg_match_all` ends at or after its start |
| Attachment.GetOldAttachmentData | src/Content/Text/BBCode.php:50-105 | the loop returns the array obtained by applying the rounds to the simplified body in match order |
| Attachment.OldRoundsSnoc | src/Content/Text/BBCode.php:58 | one more match in the `foreach` is one more round on the current array |
| Attachment.OldRoundsKind | src/Content/Text/BBCode.php:59-63 | the old form reports no type, or one of link, video and photo, and a type always comes with a text |
| Attachment.OldRoundsEmpty | src/Content/Text/BBCode.php:59-104 | with no accepted class among the matches the result is the empty array |
| Attachment.Adjust | src/Content/Text/BBCode.php:653-660 | url and after are kept; the text stays or becomes the title; the title stays or becomes the url |
| Attachment.RemoveShareInformation | src/Content/Text/BBCode.php:643-680 | a text without attachment data is returned unchanged; with `nolink` the result is the attachment's text followed by what comes after it; otherwise it is the share text of the data, under the corrected `strpos` test |
| Attachment.LinkAtStartRepeated | src/Content/Text/BBCode.php:667 | an attachment whose text is exactly its link, with no title: the `strpos` test as written appends the link again; the intended test keeps the text alone |
| Attachment.ShareTextLink | src/Content/Text/BBCode.php:666-679 | with an address, the result either keeps text plus after, because the text holds the address, or contains the address as a `[url=…]` or `[url]…[/url]` link |
| Attachment.ShareTextHasLink | src/Content/Text/BBCode.php:653-679 | the share text of any attachment with an address either is the adjusted text, which holds the address, followed by what comes after, or contains the address as a `[url=…]` or `[url]…[/url]` link |
| BodyLimit.LimitSnoc | src/Content/Text/BBCode.php:499-543 | one more loop round is one more application of the round to the accumulated body and count |
| BodyLimit.LimitTextCounts | src/Content/Text/BBCode.php:508-531 | counting text never lowers `$textlen` nor pushes it past `maxlen`, and the body grows by exactly what is counted |
| BodyLimit.LimitTextAppends | src/Content/Text/BBCode.php:511-529 | counted text is only ever appended to `$new_body` |
| BodyLimit.LimitPiecesCounts | src/Content/Text/BBCode.php:492-543 | after the loop `$textlen` lies in 0..maxlen and the new body is that many counted characters plus the embedded image tags |
| BodyLimit.LimitBodyBound | src/Content/Text/BBCode.php:482-559 | the truncated body is at most `maxlen` characters longer than its embedded images |
| BodyLimit.WithinLimitUnchanged | src/Content/Text/BBCode.php:488 | a body within the limit, or with no limit set, is returned unchanged (also lines 556-558) |
| BodyLimit.AppendsOnly | src/Content/Text/BBCode.php:505-532 | a round only appends to the new body |
| BodyLimit.LimitPrefix | src/Content/Text/BBCode.php:499-543 | the body after any number of rounds is a prefix of the body after all of them |
| BodyLimit.EmbeddedAtEnd | src/Content/Text/BBCode.php:519 | after an embedded round, its image tag ends the new body |
| BodyLimit.EmbeddedKept | src/Content/Text/BBCode.php:519-553 | the image tag of every embedded round is still in the final body |
| BodyLimit.EmbeddedImagesKept | src/Content/Text/BBCode.php:482-559 | every embedded `data:` image tag of an over-long body is kept whole in the result |
| BodyLimit.TruncateText | src/Content/Text/BBCode.php:545-553 | counting more text after the first `maxlen` characters of a text yields the first `maxlen` characters of both together |
| BodyLimit.PlainRoundsTruncate | src/Content/Text/BBCode.php:520-531 | with no embedded image, the rounds keep exactly the first `maxlen` characters of what they walked over |
| BodyLimit.NoEmbeddedIsTruncation | src/Content/Text/BBCode.php:482-559 | a body with no embedded image is cut to its first `maxlen` characters when a limit is set |
| BodyLimit.RoundIsPrefix | src/Content/Text/BBCode.php:496-503 | the text before a tag, plus the tag, begins the rest of the body |
| BodyLimit.LimitStep | src/Content/Text/BBCode.php:501-532 | one loop body computes the round's new body and count from the rest of the body, as `substr` cuts it |
| BodyLimit.HeadCut | src/Content/Text/BBCode.php:508-513 | when the limit falls before an embedded tag, the cut stays inside the text before it |
| BodyLimit.LimitBodySize | src/Content/Text/BBCode.php:482-559 | the loop computes the truncation function, and a body within the limit comes back unchanged |
| BodyLimit.LimitTail | src/Content/Text/BBCode.php:545-553 | the text after the last image is counted like any other text |
| CodeBlocks.CodeAt | src/Content/Text/BBCode.php:1226 | a code match at the start of a text opens with `[code` and ends right after a `[/code]`, in any case, at least 12 characters in |
| CodeBlocks.BlockHtml | src/Content/Text/BBCode.php:1228-1233 | the saved HTML is a `<pre>` block exactly when the content spans lines; single-line content is wrapped in `<code>` unchanged |
| CodeBlocks.MarkerAt | src/Content/Text/BBCode.php:1791 | a marker match starts with `#`, captures at least one digit and ends inside the text |
| CodeBlocks.RestoreAgreesOnCanonical | src/Content/Text/BBCode.php:1794-1795 | on every number written the way PHP prints it, the callback as written and the corrected one agree |
| CodeBlocks.RestoreDropsPaddedMarker | src/Content/Text/BBCode.php:1794-1795 | `#codeblock-00#` with one saved block: as written the marker is replaced by ""; corrected, by the block |
| CodeBlocks.MarkerMatches | src/Content/Text/BBCode.php:1228 | the marker the extraction writes for block `n` is matched by the restoring pattern with the digits of `n` (also line 1791) |
| CodeBlocks.MarkerOfDigits | src/Content/Text/BBCode.php:1791 | `#codeblock-`, a run of digits and `#` is matched with exactly those digits, whatever follows |
| CodeBlocks.MarkerAtDigits | src/Content/Text/BBCode.php:1791 | the marker pattern matches exactly `#codeblock-`, the whole digit run, and `#` |
| CodeBlocks.RestoreMarker | src/Content/Text/BBCode.php:1791-1800 | restoring over the marker of an existing block puts that block in its place, with either callback, as written or corrected |
| CodeBlocks.RestoreUnknownMarker | src/Content/Text/BBCode.php:1794-1798 | a marker whose number has no saved block is kept as it stands, with either callback, as written or corrected |
| CodeBlocks.RestorePlain | src/Content/Text/BBCode.php:1791-1800 | restoring keeps a character other than `#`, with either callback, as written or corrected |
| CodeBlocks.RestoreNoHead | src/Content/Text/BBCode.php:1791-1800 | restoring keeps the first character of a text that does not start with a marker, with either callback, as written or corrected |
| CodeBlocks.HideRestore | src/Content/Text/BBCode.php:1224-1238 | extracting the blocks after `pre` earlier ones and then restoring replaces every block by its HTML and keeps every other character, when no `#codeblock-N#` marker stands outside the code blocks, with either callback, as written or corrected (also lines 1791-1800) |
| CodeBlocks.HideRestoreBlock | src/Content/Text/BBCode.php:1226-1236 | the round trip over a code block at the start of the text, when no `#codeblock-N#` marker stands outside the code blocks, with either callback, as written or corrected |
| CodeBlocks.HideRestorePlain | src/Content/Text/BBCode.php:1226-1238 | the round trip over a character outside a code block, when no `#codeblock-N#` marker stands outside the code blocks, with either callback, as written or corrected |
| CodeBlocks.HideRestoreFromZero | src/Content/Text/BBCode.php:1224-1238 | the whole conversion: blocks are numbered from zero, and restoring gives every block back as its HTML and every other character unchanged, when no `#codeblock-N#` marker stands outside the code blocks, with either callback, as written or corrected (also lines 1791-1800) |
| CodeBlocks.HiddenStartsWithHash | src/Content/Text/BBCode.php:1228 | a block at the start of the text is replaced by a marker, which starts with `#` |
| CodeBlocks.HidePrefix | src/Content/Text/BBCode.php:1226-1236 | a start of the extracted text without `#` is a start of the original text |
| CodeBlocks.HiddenHead | src/Content/Text/BBCode.php:1226-1236 | a marker at the start after a character and the extracted rest already stood in the original text |
| CodeBlocks.RestoreWithoutHash | src/Content/Text/BBCode.php:1791-1800 | a text without `#` comes back from restoring unchanged, with either callback, as written or corrected |
| CodeBlocks.HideWithoutCode | src/Content/Text/BBCode.php:1226-1238 | a text without a code block is unchanged by the extraction, and no block is saved |
| Decisions.ProxiedFormats | src/Content/Text/BBCode.php:396 | loose `in_array` against `[false, 2]` holds exactly for every boolean and for the integers 0 and 2 |
| Decisions.ProxyUrl | src/Content/Text/BBCode.php:393-401 | the picture goes through the proxy exactly for a boolean format code or 0 or 2, and is returned untouched otherwise |
| Decisions.MentionStyles | src/Content/Text/BBCode.php:1639-1654 | the mention branches are exhaustive: Diaspora links exactly for 3, microformat cards exactly for 7 and 9, the hover-card link exactly for the web page with oEmbed on, the bare name otherwise |
| Decisions.MentionHtml | src/Content/Text/BBCode.php:1640-1653 | a rendered mention starts with its sign, except that Diaspora always uses `@` |
| Decisions.MentionKeepsName | src/Content/Text/BBCode.php:1640-1653 | every mention rendering contains the mentioned name, and every one but the bare name contains the profile address |
| Decisions.ShareSeparatorKinds | src/Content/Text/BBCode.php:984-1031 | a share is preceded by something exactly when it is a quote share; by `<hr />` exactly for formats 3 and 4; otherwise by `<br />` or a line break |
| Decisions.ShareKeepsContent | src/Content/Text/BBCode.php:982-1021 | the shared content is part of the rendering whole for formats 1, 2, 5, 7 and 9, and trimmed inside a block quote for 4 and non-Twitter 3 |
| Decisions.DiasporaKeepsContent | src/Content/Text/BBCode.php:993-1003 | the Diaspora rendering of a non-Twitter share holds the trimmed content in its block quote |
| Decisions.DiasporaTwitterIgnoresContent | src/Content/Text/BBCode.php:990-991 | a Twitter share rendered for Diaspora does not depend on the shared content |
| Decisions.OStatusLabel | src/Content/Text/BBCode.php:712-718 | the OStatus label is at most 31 characters long |
| Decisions.OStatusLabelOf | src/Content/Text/BBCode.php:710-722 | the label of `scheme://rest` is `rest` when it has at most 30 characters, else its first 30 characters and an ellipsis |
| Decisions.ExpandLinks | src/Content/Text/BBCode.php:1099-1106 | the expanded link always contains `[url]link[/url]` |
| Decisions.ExpandLinksTitle | src/Content/Text/BBCode.php:1101-1105 | corrected: the title is dropped exactly when it is empty, loosely equal to the link, or contained in the link in any case, and written in front of the link otherwise |
| Decisions.ExpandLinksAsWritten | src/Content/Text/BBCode.php:1099-1106 | as written, the result is the text before, then either the link alone or the title, a space and the link, each as `[url]…[/url]` |
| Decisions.ExpandLinksNumericTitle | src/Content/Text/BBCode.php:1101 | a numeric title equal in value to a numeric link, as in `[url=10]010[/url]`, is dropped by the loose `==` as written and by the corrected test |
| Decisions.ExpandLinksZeroTitle | src/Content/Text/BBCode.php:1101 | a title "0" that the link ends with: as written the title is repeated in front of the link; corrected, it is dropped |
| Decisions.ZeroTitleFound | src/Content/Text/BBCode.php:1101 | in a link ending in its only "0", `stristr` finds the title "0" at the last character |
| Decisions.ZeroTitleNotEqual | src/Content/Text/BBCode.php:1101 | a link ending in its only "0" is not loosely equal to the title "0", so only `stristr` decides |
| Decisions.SanitizeSrc | src/Content/Text/BBCode.php:1756-1761 | a `src` starting with an allowed protocol in any case is kept; any other is emptied |
| Decisions.SanitizeHref | src/Content/Text/BBCode.php:1765-1776 | an `href` starting with a configured or fixed protocol is kept; any other becomes `javascript:void(0)` |
| Decisions.StartsWithAnyConcat | src/Content/Text/BBCode.php:1765-1775 | a value passes a joined protocol list exactly when it passes one of the two parts |
| Decisions.HrefConfigured | src/Content/Text/BBCode.php:1765-1771 | the configured protocols can only add allowed links to the fixed ones, never remove one |
| Decisions.NoneStartsWith | src/Content/Text/BBCode.php:1760-1775 | a value whose first character starts no listed protocol passes none of them |
| Decisions.ProtocolHeads | src/Content/Text/BBCode.php:1756-1771 | the fixed protocols start with `/`, `h`, `r` or `c` |
| Decisions.HrefIsSrcWithoutCid | src/Content/Text/BBCode.php:1756-1771 | without configured protocols an `href` passes exactly when a `src` would and does not start with `cid:` |
| Decisions.CidAlone | src/Content/Text/BBCode.php:1756 | the one-element list `cid:` allows exactly the values starting with `cid:` in any case |
| Decisions.CidNoLink | src/Content/Text/BBCode.php:1768-1771 | a `cid:` value starts with none of the fixed link protocols |
| Decisions.ScriptRefused | src/Content/Text/BBCode.php:1756-1776 | a `javascript:` address is refused as a `src`, and as an `href` unless configured |
| Noparse.Stop | src/Content/Text/BBCode.php:734 | the lazy group of `\[(.*?)\]` stops at the first `]` or line break, and nothing before that point is either |
| Noparse.Stop2 | src/Content/Text/BBCode.php:747 | the lazy group of `\[ (.*?)\ ]` stops at the first ` ]` or line break |
| Noparse.EscapeRegion | src/Content/Text/BBCode.php:730-737 | the corrected escape keeps the wrapper and spreads out only the protected text |
| Noparse.SpacefyRoundTrip | src/Content/Text/BBCode.php:734-747 | closing up `[ x ]` undoes spreading out `[x]` on every text: the protected content comes back exactly |
| Noparse.EscapeRegionRoundTrip | src/Content/Text/BBCode.php:730-749 | unescaping the protected text of an escaped region gives back the original protected text (also lines 1243-1245, 1741-1743) |
| Noparse.EscapeAsIntended | src/Content/Text/BBCode.php:735 | when the protected text occurs in the whole match only as itself, the `str_replace` escape as written equals the corrected one |
| Noparse.EscapeSpreadsWrapper | src/Content/Text/BBCode.php:735 | a region protecting its own opening tag, such as `[noparse][noparse][/noparse]`: as written the wrapper is spread out too, so the escape differs from the corrected one |
| Noparse.Stop2Spread | src/Content/Text/BBCode.php:747 | in a spread-out pair the lazy group stops at its own ` ]` |
| Noparse.UnspacefyPair | src/Content/Text/BBCode.php:747 | closing up a spread-out pair `[ x ]` gives `[x]` and goes on after it |
| Noparse.UnclosedStop2 | src/Content/Text/BBCode.php:747 | a line with no `]` has no ` ]` before its line break either |
| Noparse.UnspacefyUnclosed | src/Content/Text/BBCode.php:747 | a `[` never closed on its line is left alone by the unescape |
| Noparse.SpacefyKeepsUnclosed | src/Content/Text/BBCode.php:734 | spreading out keeps a line free of `]` before its line break |
| Noparse.SpacefyPair | src/Content/Text/BBCode.php:734 | a text opening with a `[x]` pair is spread out to `[ x ]` followed by the rest spread out |
| Noparse.RoundTripPair | src/Content/Text/BBCode.php:734-747 | the round trip over a leading `[x]` pair |
| Noparse.RoundTripUnclosed | src/Content/Text/BBCode.php:734-747 | the round trip over a leading `[` never closed on its line |
| Noparse.RoundTripOther | src/Content/Text/BBCode.php:734-747 | the round trip over a leading character other than `[` |
| Noparse.StopBefore | src/Content/Text/BBCode.php:734 | the lazy group of a pair stops at the pair's own `]` |
| Noparse.SpacefyPairOf | src/Content/Text/BBCode.php:734 | a `[x]` pair whose content has no `]` and no line break is spread out to `[ x ]` |
| Normalise.ReplaceEachShrinks | src/Content/Text/BBCode.php:1302-1321 | with search strings all longer than their replacements, one `str_replace` pass never lengthens the text and strictly shortens it whenever it changes it, so the `do`-`while` loops end |
| Normalise.FixedPointClean | src/Content/Text/BBCode.php:1305-1321 | a text the pass leaves unchanged contains none of the search strings |
| Normalise.SettledClean | src/Content/Text/BBCode.php:1302-1321 | the settled text is a fixed point of the pass, contains no search string and is no longer than the input |
| Normalise.Settle | src/Content/Text/BBCode.php:1302-1321 | the `do`-`while` loop returns the settled text, which holds none of the search strings |
| Normalise.TableShrinks | src/Content/Text/BBCode.php:1294-1309 | every table search string is one character longer than its replacement |
| Normalise.MultiLineShrinks | src/Content/Text/BBCode.php:1314-1317 | every newline search string is longer than its replacement |
| Normalise.CleanTables | src/Content/Text/BBCode.php:1290-1310 | the loop computes `TablesCleaned`: the trimmed text with `\r\n` unified, each table pair replaced until none is left, then each one-pass pair replaced once; the result is never longer than the input |
| Normalise.NormaliseLines | src/Content/Text/BBCode.php:1290-1322 | the result is the table clean-up, followed under `remove_multiplicated_lines` by the newline pairs replaced until none is left; it is no longer than the input, and with that option it holds none of the newline search strings |
| Normalise.TrimNoLonger | src/Content/Text/BBCode.php:1290 | `trim` never lengthens a text |
| Normalise.Bounded | src/Content/Text/BBCode.php:1412-1454 | the guarded loop runs its body at most 19 times, the guard held before every run, and fewer than 19 runs mean the guard fails on the result |
| Normalise.ConvertLists | src/Content/Text/BBCode.php:1412-1450 | the list loop applies its body at most 19 times, the list guard held before every run, it stops early only when no list tag pair remains, and it leaves a text without one unchanged |
| Normalise.ConvertSpoilers | src/Content/Text/BBCode.php:1453-1468 | the two spoiler loops run at most 19 times each, the plain one first; each loop's guard held before every one of its runs, and each stops early only when its tag pair is gone |
| Normalise.ConvertQuotes | src/Content/Text/BBCode.php:1475-1490 | the two quote loops run at most 19 times each, the plain one first; each loop's guard held before every one of its runs, and each stops early only when its tag pair is gone |
| Normalise.QuoteBodyIdle | src/Content/Text/BBCode.php:1477 | without `[quote]` in any case the quote replacement changes nothing |
| Normalise.QuoteAuthorBodyIdle | src/Content/Text/BBCode.php:1487-1489 | without `[quote=` in any case the authored quote replacement changes nothing |
| ImageTags.ScanImg | src/Content/Text/BBCode.php:847-874 | a loop round runs only for an `[img` followed by a `]` and an `[/img]`, whose closing tag lies inside the rest of the body |
| ImageTags.SubstrData | src/Content/Text/BBCode.php:854 | the five-character `substr` equals `data:` exactly when `data:` occurs at that position |
| ImageTags.NextPiece | src/Content/Text/BBCode.php:850-874 | every round strictly shortens the rest of the body, so the loop ends |
| ImageTags.ScanImgFacts | src/Content/Text/BBCode.php:847-853 | the scanned offsets point at the `[img`, the first `]` after it and the first `[/img]` after it |
| ImageTags.TagShape | src/Content/Text/BBCode.php:861 | the tag a round cuts out starts with `[img` and ends with `[/img]` |
| ImageTags.TagCloseShape | src/Content/Text/BBCode.php:848-851 | the first `]` after `[img` lies inside the cut-out tag |
| ImageTags.SavedShape | src/Content/Text/BBCode.php:854-856 | in a tag whose `]` comes before its `[/img]`, the saved image runs from after `]` to `[/img]` and starts with `data:` |
| ImageTags.PieceOfValid | src/Content/Text/BBCode.php:850-864 | every round cuts out a well-formed piece |
| ImageTags.NextPieceJoin | src/Content/Text/BBCode.php:857-864 | a round splits the rest of the body into the text before the tag, the tag and what follows, losing nothing |
| ImageTags.NextPieceValid | src/Content/Text/BBCode.php:850-864 | the piece a round cuts out is well formed |
| ImageTags.PiecesJoin | src/Content/Text/BBCode.php:850-876 | the pieces of all rounds and the tail put back together give the body |
| ImageTags.PiecesValid | src/Content/Text/BBCode.php:850-874 | every round of the loop cuts out a well-formed tag |
| ImageTags.PiecesStep | src/Content/Text/BBCode.php:850-874 | the scan of a rest is its first round followed by the scan of what that round leaves |
| ImageTags.ExtractPieces | src/Content/Text/BBCode.php:854-862 | no more images are saved than rounds run |
| ImageTags.StrposInRest | src/Content/Text/BBCode.php:848-849 | `strpos(substr($s, $k), $pat)` finds nothing exactly when no occurrence follows `k`, and otherwise counts the first one from `k` |
| ImageTags.CutPiece | src/Content/Text/BBCode.php:851-862 | one loop body cuts the piece the specification of a round gives |
| ImageTags.ScanStep | src/Content/Text/BBCode.php:864-873 | the loop head computes the next round of the scan, or its end |
| ImageTags.ExtractImagesFromItemBody | src/Content/Text/BBCode.php:840-879 | the loop returns the extraction of the body as a function of its rounds |
| ImageTags.ScanRound | src/Content/Text/BBCode.php:850-874 | the loop invariant survives one round |
| ImageTags.ExtractSnoc | src/Content/Text/BBCode.php:854-862 | one more round appends that round's output, and one more saved image when it is embedded |
| ImageTags.NoImgTagUnchanged | src/Content/Text/BBCode.php:847-878 | a body without `[img` comes back unchanged with no saved image |
| ImageTags.JoinedSnoc | src/Content/Text/BBCode.php:857-861 | joining one more round appends its text and its tag |
| ImageTags.NoEmbeddedKeepsPieces | src/Content/Text/BBCode.php:861 | when no image is saved, every `[img]…[/img]` tag is copied verbatim |
| ImageTags.NoEmbeddedImageKeepsBody | src/Content/Text/BBCode.php:840-879 | a body from which no image is saved comes back unchanged |
| ImageTags.SavedPiecesAreData | src/Content/Text/BBCode.php:854-856 | every saved image of well-formed rounds starts with `data:` |
| ImageTags.SavedImagesAreData | src/Content/Text/BBCode.php:840-879 | every saved image starts with `data:`, when each tag's `]` comes before its `[/img]` |
| ImageTags.PlaceholderInPieces | src/Content/Text/BBCode.php:857-859 | the placeholder of every saved image is in the new body |
| ImageTags.PlaceholdersInBody | src/Content/Text/BBCode.php:840-879 | saved images are numbered 0..n-1 and the placeholder `[$#saved_imagek#$]` of each is in the new body |
| ImageTags.InterpolateSavedImages | src/Content/Text/BBCode.php:881-896 | the `foreach` replaces the placeholders 0, 1, … in turn by `<img>` elements |
| ImageTags.InterpolateWithoutMarkers | src/Content/Text/BBCode.php:881-896 | a body without a placeholder marker is left as it is |
| ImageTags.PlaceholderEdges | src/Content/Text/BBCode.php:857-890 | a placeholder opens with `[` and holds no `<` |
| ImageTags.ImageHtmlEdges | src/Content/Text/BBCode.php:891 | the `<img>` element starts with `<` and holds no `[` when the proxied address and the alternative text hold none |
| ImageTags.InterpolateKeepsAbsent | src/Content/Text/BBCode.php:886-893 | a later round never brings back a marker that is gone |
| ImageTags.InterpolateReplacesAll | src/Content/Text/BBCode.php:881-896 | no placeholder of a saved image is left after interpolation, when the `<img>` elements hold no `[` |
| TagScanner.NthOpen | src/Content/Text/BBCode.php:766-771 | the opening bracket found after skipping earlier ones is an occurrence of `[name` |
| TagScanner.TagAt | src/Content/Text/BBCode.php:760-808 | false exactly when `[name` is absent, no `]` follows it, or no `[/name]` follows the `]`; otherwise start.open < start.close <= end.open < end.close, `]` is the first after the opening bracket, `[/name]` is at end.open and at no earlier position from start.close on, end.close = end.open + strlen(`[/name]`), and `equal` is set exactly when some `=` lies at or after the opening bracket, and then it is one past the first such `=` |
| TagScanner.PairFirstClose | src/Content/Text/BBCode.php:786 | `strpos` finds the first `[/name]` after the tag's `]`: none occurs between start.close and end.open |
| TagScanner.EqualAfterIff | src/Content/Text/BBCode.php:777-805 | the `equal` offset exists exactly when an `=` occurs at or after the opening bracket |
| TagScanner.GetTagPosition | src/Content/Text/BBCode.php:760-808 | the for-loop cursor computes the located pair, and a negative count is read as zero |
| TagScanner.LocatePair | src/Content/Text/BBCode.php:777-807 | the tail of the locator computes the pair from the opening bracket |
| TagScanner.EqualSignPastClose | src/Content/Text/BBCode.php:777-805 | in `[b]=[/b]` the `=` after the tag's `]` still sets `equal` |
| TagScanner.RewriteSpan | src/Content/Text/BBCode.php:824-832 | one round leaves the text before start.open and after end.close unchanged and rewrites only the located span |
| TagScanner.PregReplaceInTag | src/Content/Text/BBCode.php:819-838 | the loop runs at most 1000 rounds, computes the rounds' result, and stops early only when no further tag pair is found |
| TagScanner.ReplaceRound | src/Content/Text/BBCode.php:826-835 | one round rewrites the found tag pair in place and looks for the next pair from the following occurrence on; the rounds still to come then yield the same final text as before the round |
| TagScanner.ReplaceFromStep | src/Content/Text/BBCode.php:823-834 | while a pair is found and fewer than 1000 rounds have run, the result is that of the remaining rounds on the text with this pair's span rewritten |
| TagScanner.NoTagNoChange | src/Content/Text/BBCode.php:822-837 | a text without `[name` comes back untouched |
| LazyRegex.Groups | src/Content/Text/BBCode.php:125 | the lazy groups found end inside the text, one per literal, after the last literal |
| LazyRegex.MatchIn | src/Content/Text/BBCode.php:1843 | a match in the folded text lies after the search start and inside the text, opens with the opening literal and has one group per closing literal; no opening literal from the start on means no match |
| LazyRegex.FirstMatch | src/Content/Text/BBCode.php:125 | a match lies after the search start and inside the text, opens with the opening literal (case-folded under `i`) and has one group per literal (also line 1418) |
| LazyRegex.GroupsMonotone | src/Content/Text/BBCode.php:125 | groups that find no match from one position find none from a later one |
| LazyRegex.AllMatches | src/Content/Text/BBCode.php:57 | every match of `preg_match_all` lies after the start and inside the text with one group per literal |
| LazyRegex.ReplaceWithoutMatch | src/Content/Text/BBCode.php:1477 | `preg_replace` without a match copies the text |
| LazyRegex.LastMatchBelow | src/Content/Text/BBCode.php:125 | the greedy `(.*)` prefix selects a match that opens below the bound with the opening literal |
| LazyRegex.LastMatchIsLast | src/Content/Text/BBCode.php:125 | no later opening literal below the bound starts a match: the greedy prefix takes the last one |
| LazyRegex.NoOpenNoLastMatch | src/Content/Text/BBCode.php:125 | without the opening literal there is no match |
| LineRegex.TryAt | src/Model/Photo.php:630 | a group found at an opening literal runs up to the first closing literal and holds no line break |
| LineRegex.NextMatch | src/Model/Photo.php:630 | the first match lies inside the text and its group holds no line break |
| LineRegex.LineMatchesOneLine | src/Model/Photo.php:630 | no group returned by `preg_match_all` without the `s` flag runs over a line break |
| LineRegex.LineMatchOfTag | src/Model/Photo.php:630 | `[img]a[/img]` with `a` on one line yields exactly `a` |
| LineRegex.LineMatchAcross | src/Model/Photo.php:630 | `[img]a[/img]` with a line break in `a` and no second opening yields nothing |
| LineRegex.TagParts | src/Model/Photo.php:630 | in `open + a + close` the opening literal is at 0 and the first closing literal right after `a` |
| LineRegex.CloseAfter | src/Model/Photo.php:630 | the closing literal right after `a` is the first one from the start of `a` |
| LineRegex.NextMatchSkips | src/Model/Photo.php:630 | a group that crosses a line break with no opening after it leaves no match |
| LineRegex.TryAtCrossed | src/Model/Photo.php:630 | a group containing a line break fails |
| LineRegex.TryAtFound | src/Model/Photo.php:630 | a group without a line break is found |
| LineRegex.LineMatchesOnly | src/Model/Photo.php:630 | a single one-line group ending the text is the only match |
| LineRegex.OpenAtStart | src/Model/Photo.php:630 | a text that starts with the opening literal has its first one at 0 |
| LineRegex.CloseFound | src/Model/Photo.php:630 | the closing literal after `a` is the first from the start of `a` |
| Photo.Remove | src/Model/Photo.php:678-680 | removing a string never lengthens the text |
| Photo.RemoveIdle | src/Model/Photo.php:678-680 | removing a string that does not occur changes nothing |
| Photo.RemoveShrinks | src/Model/Photo.php:678-680 | removing a string that occurs makes the text strictly shorter |
| Photo.RemoveAll | src/Model/Photo.php:678-697 | removing several strings in turn never lengthens the text |
| Photo.RemoveAllIdle | src/Model/Photo.php:678 | a text holding none of the strings comes back unchanged |
| Photo.Dotted | src/Model/Photo.php:679-680 | the removed suffixes are `.` followed by each supported type, in order |
| Photo.Stripped | src/Model/Photo.php:676-683 | the stripped link is never longer than the link |
| Photo.StrippedIdle | src/Model/Photo.php:676-683 | a link holding none of `.jpg`, `.png`, `.gif` and `.`+type is returned unchanged |
| Photo.StripExtension | src/Model/Photo.php:676-683 | the loop removes every `.jpg`, `.png`, `.gif`, then `.`+type for each supported type, and never lengthens the link |
| Photo.GuidOf | src/Model/Photo.php:700-710 | the GUID is the stripped text without its last two characters when those are `-` and a digit 1 to 9, and "" otherwise (a non-digit or `0` scale reads as empty) |
| Photo.GuidOfScaled | src/Model/Photo.php:700-710 | a resource id followed by `-` and a scale 1 to 9 gives back the resource id |
| Photo.GetGUID | src/Model/Photo.php:692-711 | the GUID is taken from the normalised link with the normalised base and `/photo/` removed and the extension stripped, and is "" unless it ends in a scale suffix |
| Photo.IsLocal | src/Model/Photo.php:720-726 | a link whose GUID is empty (or "0") is never local and nothing is looked up; otherwise the answer is the lookup of the GUID |
| LazyRegex.Digits | src/Model/Photo.php:626 | `[0-9]*` takes the whole run of digits |
| LazyRegex.SizedImageAt | src/Model/Photo.php:626 | a sized-image match ends inside the text after its `[img=`; the same pattern serves the old attachment form at src/Content/Text/BBCode.php:55 |
| LazyRegex.UnsizeImagesIdle | src/Model/Photo.php:626 | a text without `[img=` in any case is left alone by the sized-image replacement |
| Photo.ImageAddresses | src/Model/Photo.php:630-633 | no image address found runs over a line break |
| Photo.ImageOfTag | src/Model/Photo.php:630 | a single `[img]a[/img]` with `a` on one line yields `a` |
| Photo.ImageAcrossLines | src/Model/Photo.php:630 | an `[img]a[/img]` whose address runs over a line break is not found |
| Photo.OpenOnlyAtStart | src/Model/Photo.php:630 | without `[` in `a`, `[img]` occurs in `[img]a[/img]` only at the start |
| Photo.Images | src/Model/Photo.php:625-633 | the image addresses of the simplified body lie on one line each |
| Photo.ResourceId | src/Model/Photo.php:639-646 | a resource id is only taken from an address holding base URL + `/photo/` in any case, and is non-empty with no `/` and no `-` |
| Photo.IdPart | src/Model/Photo.php:643-644 | the id is the non-empty start of the last segment before its first `-`, and none is taken when the segment has no `-` or starts with one |
| Photo.FirstDash | src/Model/Photo.php:643 | `strpos($uri, '-')` is the first dash |
| Photo.ResourceIdOfLink | src/Model/Photo.php:639-646 | the address base + `/photo/` + id + `-` + rest yields the id |
| Photo.IdAfterPath | src/Model/Photo.php:642-643 | after a path ending in `/`, the last segment's id is the part before its first `-` |
| Photo.FirstDashAt | src/Model/Photo.php:643 | the first dash is the one with no dash before it |
| Photo.ContainsStart | src/Model/Photo.php:639 | an address that starts with the needle holds it for `stristr`, with a truthy rest |
| Photo.LastSlash | src/Model/Photo.php:642 | `strrpos($image, '/')` is the slash with none after it |
| Photo.PermissionTargets | src/Model/Photo.php:630-636 | false exactly when the simplified body has no one-line `[img]…[/img]` |
| Photo.Targets | src/Model/Photo.php:638-664 | the updated ids are at most one per image, each non-empty without `/` or `-`, and each owned by the post's owner |
| Photo.SetPermissionFromBody | src/Model/Photo.php:623-667 | the loop returns false for a body without images, and otherwise true with the resource ids of the owned local photos, in body order |
| Tags.HashLinksIdle | src/Content/Text/BBCode.php:2017 | without `#[url=` in any case the hashtag-link replacement changes nothing |
| Tags.Run | src/Content/Text/BBCode.php:2031-2049 | a negated character class takes the longest run of characters outside its stop set |
| Tags.FullNameAt | src/Content/Text/BBCode.php:2031 | a full-name match starts with `@`, has at least four characters and ends inside the text |
| Tags.FullNames | src/Content/Text/BBCode.php:2031 | every full-name match starts with `@` and has at least four characters |
| Tags.WordAt | src/Content/Text/BBCode.php:2049 | a word match starts with `!`, `#` or `@`, has at least two characters and ends inside the text |
| Tags.Words | src/Content/Text/BBCode.php:2049 | every word match starts with `!`, `#` or `@` and has at least two characters |
| Tags.DropDot | src/Content/Text/BBCode.php:2038-2057 | a trailing period, and only a trailing period, is dropped; the rest of the tag is kept |
| Tags.FullNameTags | src/Content/Text/BBCode.php:2032-2043 | every full-name tag kept starts with `@` and holds no `]` |
| Tags.WordTags | src/Content/Text/BBCode.php:2050-2067 | every word tag kept starts with `!`, `#` or `@`, holds no `]`, and is never `#` followed by digits only |
| Tags.TagsShape | src/Content/Text/BBCode.php:2012-2071 | every returned tag starts with `@`, `#` or `!`, holds no `]`, and is never a numeric hashtag |
| Tags.CollectFullNames | src/Content/Text/BBCode.php:2031-2044 | the first `foreach` appends exactly the full-name tags |
| Tags.CollectWords | src/Content/Text/BBCode.php:2049-2068 | the second `foreach` appends exactly the word tags, under the corrected URL test |
| Tags.GetTags | src/Content/Text/BBCode.php:2012-2071 | the method returns the tags of the text under the corrected URL class, each starting with `@`, `#` or `!`, holding no `]`, and never a numeric hashtag |
| Tags.UnderscoreHashtag | src/Content/Text/BBCode.php:2063 | as written, the class `[a-zA-z0-9\/]` takes `_` for a URL character, so `#tag` after `x_` is dropped; the corrected class keeps it |
| Tags.CodeBlockRemoved | src/Content/Text/BBCode.php:2020 | a `[code]…[/code]` block is removed from the text, and what surrounds it is kept |
| Tags.BlockFound | src/Content/Text/BBCode.php:2020 | the code pattern matches from the block's `[code` to the end of its `[/code]` |
| Tags.BlockCloseAt | src/Content/Text/BBCode.php:2020 | the first `[/code]` after the content is the one closing the block |
| Tags.BlockMatch | src/Content/Text/BBCode.php:2020 | the code pattern's match is given by the first `[code`, `]` and `[/code]` |
| Tags.FirstMatchAt | src/Content/Text/BBCode.php:2020 | the first match is at the first opening literal when the groups close there |
| Tags.BlockOpenFound | src/Content/Text/BBCode.php:2020 | the first `[code` of the text and the `]` after it are the block's |
| Tags.GroupsOne | src/Content/Text/BBCode.php:2020 | one lazy group runs to the first occurrence of its literal |
| Tags.GroupsTwo | src/Content/Text/BBCode.php:2020 | two lazy groups run to the first occurrences of their literals in turn |
| Tags.CodeRest | src/Content/Text/BBCode.php:2020 | the text after the block, holding no `[code`, is copied |
| Tags.TagsIgnoreCode | src/Content/Text/BBCode.php:2019-2020 | for a text with one `[code]…[/code]` block and no other `[code`, and no hashtag link anywhere: its tags are those of the text without the block, whatever the block holds |
| Tags.StripCodeIdle | src/Content/Text/BBCode.php:2020 | a text without `[code` is unchanged by the code removal |
| Tags.SpaceBefore | src/Content/Text/BBCode.php:1843-1844 | the leading `[\s|\n]*` takes the longest run of spaces and bars ending at the element |
| Tags.SpaceAfter | src/Content/Text/BBCode.php:1843-1844 | the trailing `[\s|\n]*` takes the longest run of spaces and bars after the element |
| Tags.StripSpaced | src/Content/Text/BBCode.php:1843-1844 | removing the elements with their surrounding space never lengthens the text |
| Tags.StripAbstract | src/Content/Text/BBCode.php:1841-1847 | stripping the abstract never lengthens the text |
| Tags.StripAbstractIdle | src/Content/Text/BBCode.php:1841-1847 | a text without `[abstract` in any case is unchanged |
| Tags.AbstractRemoved | src/Content/Text/BBCode.php:1841-1847 | one plain element `[abstract]c[/abstract]` goes whole, leaving the text before and after it joined, when those parts hold no `[abstract` in any case, `c` holds no `[/abstract]` and no white space or `|` borders the element |
| Tags.SpacedElementStripped | src/Content/Text/BBCode.php:1843 | the spaced lazy removal over `a open c close b` removes exactly the element when the opening literal occurs nowhere else and the closing one not inside `c` |
| Tags.StripSpacedAt | src/Content/Text/BBCode.php:1843-1844 | each match takes the white space run before it and the one after it; the text before that run is kept and the search resumes after it |
| Tags.SpacedRest | src/Content/Text/BBCode.php:1843-1844 | with no opening literal left, the rest of the text is kept as it is |
| Tags.AbstractMapKeys | src/Content/Text/BBCode.php:1863-1865 | the abstracts are keyed by exactly the lower-cased addon names found |
| Tags.AbstractMapLast | src/Content/Text/BBCode.php:1863-1865 | for an addon named more than once, the last abstract wins |
| Tags.GetAbstract | src/Content/Text/BBCode.php:1856-1877 | the addon's abstract when present and not empty; otherwise the plain abstract; a non-empty result needs `[abstract` in the text |
| Tags.OpenedAbstract | src/Content/Text/BBCode.php:1862-1872 | an abstract element matched in any case means `[abstract` is in the lower-cased text |
| Tags.AbstractFound | src/Content/Text/BBCode.php:1862-1870 | a non-empty addon abstract needs `[abstract` in the text |
| Tags.AllMatchesOpen | src/Content/Text/BBCode.php:1862 | every match opens with the opening literal |
| User.Explode | src/Model/User.php:516 | `explode` yields at least one part and no part holds the separator (also line 661) |
| User.IndexOf | src/Model/User.php:516 | the first occurrence of the separator |
| User.JoinExplode | src/Model/User.php:516 | joining the parts of `explode` with the separator gives the string back |
| User.JoinCons | src/Model/User.php:516 | joining a part in front of others puts the separator between them |
| User.TrimAll | src/Model/User.php:517 | `array_map('trim')` trims every entry and keeps their number and order |
| User.UpperEntryNeverMatches | src/Model/User.php:518 | an entry with an upper-case letter never equals a lower-cased nickname |
| User.SingleUpperEntry | src/Model/User.php:516-523 | a list of one entry with an upper-case letter: as written that very nickname is not blocked; corrected, it is |
| User.SingleEntryList | src/Model/User.php:516-517 | a trimmed entry without a comma makes a one-entry list |
| User.InArraySingle | src/Model/User.php:518 | loose `in_array` on one entry is loose equality with it |
| User.ListedNicknameNotBlocked | src/Model/User.php:516-523 | with the list `Admin`, as written the nickname `Admin` is not blocked; corrected, it is |
| User.TrimmedIdle | src/Model/User.php:517 | trimming a trimmed entry changes nothing |
| User.LowerAll | src/Model/User.php:518 | every entry is lower-cased, keeping number and order |
| User.NicknameBlockedIff | src/Model/User.php:506-524 | corrected: an empty list ("" or "0") blocks nothing; otherwise a nickname is blocked exactly when it is loosely equal, in any case, to some trimmed entry; so every listed name blocks the nickname equal to it in any case |
| User.NicknameBlockedAsWrittenIff | src/Model/User.php:506-524 | as written: an empty list blocks nothing; otherwise a nickname is blocked exactly when its lower-cased form is loosely equal to some trimmed entry as it stands |
| User.BlockingEntry | src/Model/User.php:516-518 | as written, a blocked nickname has a trimmed entry loosely equal to its lower-cased form |
| User.InArrayTrimmed | src/Model/User.php:517-518 | loose `in_array` over the trimmed entries holds exactly when some entry, trimmed, is loosely equal |
| User.ClampLength | src/Model/User.php:616-617 | `max(1, min(64, v))` lies in 1..64, is `v` inside that range, and the nearer end outside it |
| User.LengthBounds | src/Model/User.php:616-624 | after clamping and the swap, 1 <= min <= max <= 64, and the two bounds are the clamped settings in order |
| User.DefaultLengthBounds | src/Model/User.php:616-617 | without settings the bounds are 3 and 48 |
| User.CollapseSpaces | src/Model/User.php:614 | collapsing never lengthens the name, leaves no two spaces in a row and keeps its first character |
| User.DropSpaces | src/Model/User.php:614 | dropping a run of spaces keeps the other characters |
| User.CollapseKeeps | src/Model/User.php:614 | collapsing keeps every character other than a space, and keeps a space exactly when there was one |
| User.EndAnchoredTrimmed | src/Model/User.php:669 | on a trimmed nickname the `$` anchor, which also accepts a final line feed, adds nothing |
| User.LowerTrimmed | src/Model/User.php:667 | lower-casing keeps a text trimmed |
| User.Field | src/Model/User.php:552-560 | a form field is trimmed, and "" when empty or "0" |
| User.ChoosePasswordAsWritten | src/Model/User.php:568-572 | as written, registration fails exactly when password and confirmation differ under PHP's loose comparison |
| User.LooseConfirmation | src/Model/User.php:568 | the confirmation `7` is accepted for the password `007`, which is then set |
| User.ChoosePassword | src/Model/User.php:568-572 | corrected: registration fails exactly when password and confirmation differ; otherwise a non-empty password replaces the one passed in |
| User.HashPassword | src/Model/User.php:437-444 | a password that trims to "" or "0" is refused; any other is hashed |
| User.PasswordCharRange | src/Model/User.php:466-468 | a password character is exactly a printable ASCII character other than a space and `:` |
| User.UpdatePassword | src/Model/User.php:454-473 | the password is accepted exactly when, trimmed, it is not empty, not exposed (unless that check is off) and made only of allowed characters, and then its trimmed form is used; an empty one is refused as empty |
| User.UpdatedPasswordHashes | src/Model/User.php:472 | an accepted password always hashes |
| User.AuthenticationInfo | src/Model/User.php:347-395 | a record yields itself exactly when uid, password and legacy_password are set, and otherwise "Not enough information"; an id or a name yields the row found or "User not found"; anything else yields null |
| User.RemoveSpaces | src/Model/User.php:661 | the list has no space left and is no longer |
| User.Register | src/Model/User.php:545-680 | refused for differing passwords exactly when the confirmation test fails (loose `!=` as written, exact inequality corrected); a registration has the required fields, a valid invitation when invites are on, a username within the bounds, a lower-case nickname matching `^[a-z0-9][a-z0-9_]*$` that the same choice of blocked test does not refuse, and a password that is not empty |
| User.CheckForm | src/Model/User.php:574-607 | after the passwords: a registration has the required fields and, when invites are on, a valid invitation; never a refusal for differing passwords |
| User.CheckFields | src/Model/User.php:609-680 | the checks on the trimmed fields: a registration has non-empty fields, a username within the bounds, a lower-case nickname matching the pattern and not refused as blocked, and a password that is not empty |
| User.CheckIdentity | src/Model/User.php:613-665 | a registration has a collapsed username within the bounds (with a space unless full names are off), an allowed valid unused address, a nickname the chosen blocked test (as written or corrected) does not refuse, and no administrator address over OpenID; a refusal as blocked happens only for a nickname that test refuses |
| User.RegisterLooseConfirmation | src/Model/User.php:568 | the password `007` with the confirmation `7`: as written registration is not refused for differing passwords; corrected, it is |
| User.AdminNicknameChecked | src/Model/User.php:650-652 | with the list `Admin`, the nickname `Admin`: as written registration is never refused as blocked; corrected, it is never registered |
| User.CheckNickname | src/Model/User.php:667-681 | the nickname is refused as invalid exactly when, lower-cased, it does not match the pattern; a registration has the given password, or a generated one when none was given |
| LoggerFactory.MapLegacyLevel | src/Factory/LoggerFactory.php:199-224 | a legacy level "0" to "5" (compared loosely) maps to a PSR level; any other level is returned unchanged |
| LoggerFactory.LegacyLevels | src/Factory/LoggerFactory.php:201-219 | "0" is error, "1" warning, "2" notice, "3" info, and both "4" and "5" are debug |
| LoggerFactory.MapLegacyIdempotent | src/Factory/LoggerFactory.php:199-224 | mapping a mapped level again changes nothing |
| LoggerFactory.LegacyVerbosityMonotone | src/Factory/LoggerFactory.php:199-224 | a higher legacy level never maps to a less verbose PSR level |
| LoggerFactory.LegacyDigit | src/Factory/LoggerFactory.php:201-219 | the severity each legacy digit maps to |
| LoggerFactory.PaddedLegacyLevel | src/Factory/LoggerFactory.php:201-213 | `switch` compares loosely, so "00" maps to error and "03" to info |
| LoggerFactory.MonologLogger.constructor | src/Factory/LoggerFactory.php:77 | a new Monolog logger has its channel and no processors or handlers |
| LoggerFactory.MonologLogger.PushProcessor | src/Factory/LoggerFactory.php:78-81 | the processor goes on top of the stack; channel and handlers are unchanged |
| LoggerFactory.MonologLogger.PushHandler | src/Factory/LoggerFactory.php:253 | the handler goes on top of the stack; channel and processors are unchanged (also line 262) |
| LoggerFactory.AddStreamHandler | src/Factory/LoggerFactory.php:238-257 | throws exactly for a logger that is not Monolog; a Monolog logger gets the stream handler on top and nothing else changes |
| LoggerFactory.AddVoidHandler | src/Factory/LoggerFactory.php:259-264 | a Monolog logger gets a null handler on top and nothing else changes; any other logger is left alone |
| LoggerFactory.LoggerKindNames | src/Factory/LoggerFactory.php:74-106 | `monolog` and `syslog` select those loggers, any other name the stream logger |
| LoggerFactory.LoggerKindLoose | src/Factory/LoggerFactory.php:74-75 | the loose `switch` sends `true` and `0` to the Monolog branch |
| LoggerFactory.NewMonolog | src/Factory/LoggerFactory.php:77-81 | a fresh Monolog logger on the channel carrying the four processors, in stack order, and no handler |
| LoggerFactory.BuildLogger | src/Factory/LoggerFactory.php:74-107 | the fresh logger has the shape the configured kind calls for |
| LoggerFactory.Create | src/Factory/LoggerFactory.php:62-118 | `create` returns fresh objects shaped as the configuration calls for |
| LoggerFactory.CreateQuietWithoutDebugging | src/Factory/LoggerFactory.php:64-68 | with debugging empty the void logger is returned whatever the other settings |
| LoggerFactory.CreateProfiledIff | src/Factory/LoggerFactory.php:109-114 | with debugging on, the logger is wrapped in the profiler exactly when profiling is set and not false |
| LoggerFactory.CreateStreamUnwritable | src/Factory/LoggerFactory.php:97-106 | the stream logger falls back to the void logger when its file exists but cannot be written |
| LoggerFactory.CreateMonolog | src/Factory/LoggerFactory.php:75-91 | a Monolog logger carries the four processors, and a stream handler at the mapped level exactly when its file may be written |
| LoggerFactory.DevLoggerWhileDisabled | src/Factory/LoggerFactory.php:142-146 | with no developer address and an existing read-only file, the guard as written lets a developer logger be built |
| LoggerFactory.BuildDevLogger | src/Factory/LoggerFactory.php:153-178 | the fresh developer logger has the shape its kind calls for |
| LoggerFactory.CreateDev | src/Factory/LoggerFactory.php:136-188 | `createDev`, with the corrected guard, returns fresh objects shaped as the configuration calls for |
| LoggerFactory.DevLoggerOnlyWhenEnabled | src/Factory/LoggerFactory.php:142-146 | corrected: a developer logger is built exactly when developer logging is on and its file may be written |

## Specification functions

These functions compute what the source computes and carry no contract of their own. Their properties are stated by the members of the same module named in the last column.

| function | source | properties stated by |
|---|---|---|
| Attachment.GetAttachmentData | src/Content/Text/BBCode.php:121-224 | NewFormTypeChecked, NewFormTrimmed, NewFormTitleEscaped, RemoveShareInformation |
| Attachment.NewAttachmentData | src/Content/Text/BBCode.php:125-222 | NewFormTypeChecked, NewFormTrimmed, NewFormTitleEscaped |
| Attachment.OldAttachmentData | src/Content/Text/BBCode.php:50-105 | GetOldAttachmentData, OldRoundsKind, OldRoundsEmpty |
| Attachment.ShareOf | src/Content/Text/BBCode.php:653-680 | ShareTextLink, LinkAtStartRepeated |
| Attachment.ShareText | src/Content/Text/BBCode.php:653-679 | ShareTextHasLink, RemoveShareInformation |
| Attachment.LinkIncluded | src/Content/Text/BBCode.php:667 | LinkAtStartRepeated, ShareTextLink |
| Attachment.LinkIncludedAsWritten | src/Content/Text/BBCode.php:667 | LinkAtStartRepeated |
| Noparse.Spacefy | src/Content/Text/BBCode.php:734 | SpacefyPair, SpacefyRoundTrip |
| Noparse.Unspacefy | src/Content/Text/BBCode.php:747 | UnspacefyPair, SpacefyRoundTrip |
| Noparse.EscapeNoparse | src/Content/Text/BBCode.php:730-737 | EscapeAsIntended, EscapeSpreadsWrapper |
| Noparse.UnescapeNoparse | src/Content/Text/BBCode.php:744-749 | EscapeRegionRoundTrip |
| CodeBlocks.Hide | src/Content/Text/BBCode.php:1224-1238 | HideWithoutCode, HideRestoreFromZero |
| CodeBlocks.Restore | src/Content/Text/BBCode.php:1790-1800 | RestoreMarker, RestoreUnknownMarker, RestoreWithoutHash, HideRestoreFromZero |
| CodeBlocks.RestoreBlock | src/Content/Text/BBCode.php:1793-1797 | RestoreAgreesOnCanonical, RestoreDropsPaddedMarker |
| CodeBlocks.RestoreBlockAsWritten | src/Content/Text/BBCode.php:1793-1797 | RestoreAgreesOnCanonical, RestoreDropsPaddedMarker |
| Tags.HashLinks | src/Content/Text/BBCode.php:2017 | HashLinksIdle |
| Tags.StripCode | src/Content/Text/BBCode.php:2020 | CodeBlockRemoved, StripCodeIdle |
| Tags.TagsWith | src/Content/Text/BBCode.php:2012-2071 | TagsShape, UnderscoreHashtag |
| Tags.Tags | src/Content/Text/BBCode.php:2012-2071 | GetTags, TagsShape, TagsIgnoreCode |
| Tags.AbstractMap | src/Content/Text/BBCode.php:1862-1865 | AbstractMapKeys, AbstractMapLast |
| Decisions.MentionStyleOf | src/Content/Text/BBCode.php:1639-1654 | MentionStyles |
| Decisions.ShareCallback | src/Content/Text/BBCode.php:978-1047 | ShareSeparatorKinds, ShareKeepsContent |
| Decisions.ShareSeparator | src/Content/Text/BBCode.php:984-1031 | ShareSeparatorKinds |
| Decisions.ShareBody | src/Content/Text/BBCode.php:982-1044 | ShareKeepsContent |
| Decisions.DiasporaShare | src/Content/Text/BBCode.php:993-1003 | DiasporaKeepsContent, DiasporaTwitterIgnoresContent |
| Decisions.ConvertUrlForOStatus | src/Content/Text/BBCode.php:710-722 | OStatusLabel, OStatusLabelOf |
| ImageTags.Extract | src/Content/Text/BBCode.php:840-879 | ExtractImagesFromItemBody, PiecesJoin, SavedImagesAreData, PlaceholdersInBody |
| ImageTags.ImageHtml | src/Content/Text/BBCode.php:891 | ImageHtmlEdges |
| ImageTags.InterpolateFrom | src/Content/Text/BBCode.php:881-896 | InterpolateSavedImages, InterpolateReplacesAll |
| BodyLimit.LimitBody | src/Content/Text/BBCode.php:482-559 | LimitBodySize, LimitBodyBound, EmbeddedImagesKept, NoEmbeddedIsTruncation |
| Normalise.Iterate | src/Content/Text/BBCode.php:1412-1454 | Bounded, ConvertLists |
| Tags.SpacedMatch | src/Content/Text/BBCode.php:1843-1844 | StripSpacedAt, SpacedElementStripped |
| Normalise.TablesCleaned | src/Content/Text/BBCode.php:1290-1310 | CleanTables, NormaliseLines |
| Normalise.LinesSettled | src/Content/Text/BBCode.php:1312-1322 | NormaliseLines |
| Normalise.SpoilerAuthorStep | src/Content/Text/BBCode.php:1465-1467 | ConvertSpoilers |
| Normalise.QuoteAuthorStep | src/Content/Text/BBCode.php:1487-1489 | ConvertQuotes |
| LazyRegex.UnsizeImages | src/Model/Photo.php:626 | UnsizeImagesIdle, Photo.Images, Attachment.GetOldAttachmentData |
| Photo.UnlabelImages | src/Model/Photo.php:627 | Images |
| User.IsNicknameBlocked | src/Model/User.php:506-524 | NicknameBlockedIff |
| User.IsNicknameBlockedAsWritten | src/Model/User.php:506-524 | NicknameBlockedAsWrittenIff, ListedNicknameNotBlocked |
| LoggerFactory.LoggerKind | src/Factory/LoggerFactory.php:74-106 | LoggerKindNames, LoggerKindLoose |
| LoggerFactory.CreatedShape | src/Factory/LoggerFactory.php:62-118 | Create, CreateQuietWithoutDebugging, CreateProfiledIff, CreateMonolog |
| LoggerFactory.DevShape | src/Factory/LoggerFactory.php:136-188 | CreateDev, DevLoggerOnlyWhenEnabled, DevLoggerWhileDisabled |

## Left out

- Regular expressions are modelled only as the patterns listed above. A general PCRE engine is not part of this model.
- Calls into code outside these files are parameters of the model. These are:
  - database lookups and inserts;
  - `System::baseUrl` and `Strings::normaliseLink`;
  - `Images::supportedTypes`, and `Photo::exists` and `Photo::update`;
  - the logger, OEmbed, `L10n` and `html_entity_decode`;
  - `ProxyUtils`, the template renderer and `Protocol::formatMention`;
  - the scheme that `parse_url` finds.
- The guard of `convertUrlForOStatusCallback` (BBCode.php:693-700) is not modelled: it skips links that are already BBCode. The autolink pass that calls it is not modelled either.
- Decisions.OStatusLabel: cuts the label at 30 characters where the source cuts at 30 bytes, because text is modelled as characters rather than bytes.
- Photo.ResourceId: the branch for an address without `/` is not modelled, because every local photo address has one.
- User.Register: leaves out `escapeTags`, the `mb_convert_case` title-casing of names, the internals of the OpenID redirect, key generation and the database inserts. They call code outside this model or do I/O.
- The DOM clean-up at the end of `convert` and the addon hooks are left out. They call code outside this model.
- LoggerFactory.Create: `Database::setLogger` and the Monolog time zone are side effects outside this model, so they are left out.
- LoggerFactory.Create: the channel (`findChannel`) and the `is_file`/`is_writable` results are parameters.
- LoggerFactory.AddStreamHandler: `Monolog\Logger::toMonologLevel` is the parameter `toLevel`.
- LoggerFactory.Create: a configuration value that is absent or null reads as the default. This is how `Configuration::get` is modelled.
- The internals of the Monolog processors and handlers are not part of this model.
- LoggerFactory.MapLegacyLevel: the numeric reading of a level ignores signs and leading white space. PHP's numeric-string rules are wider.
- Strings.LooseEquals: only strings made of digits compare as numbers. Signs, exponents and decimal points are not modelled.
- CodeBlocks.Hide: the callback that appends to `$codeblocks` by reference is modelled as a function that returns the saved blocks with the text.
- ImageTags.InterpolateReplacesAll: assumes the `<img>` elements put back hold no `[`. Only under that assumption does a later placeholder never come from an earlier image.
- Tags.TagsIgnoreCode: stated only for a plain `[code]` block, with no other `[code` in the text and no `#[url=` anywhere in it. A block with attributes such as `[code=php]`, several blocks, and hashtag links are not covered, because the hashtag-link pass would then have to be related to the code removal.
- Decisions.MentionStyleOf: `simple_html` is an integer in this model. `convert` is also called with `true` (BBCode.php:183); there the loose comparisons at lines 1639-1641 read `true` as 3, and the share `switch` at line 983 reads it as case 1. Calls with `true` are not modelled.
- Decisions.ShareCallback: the same holds for `simple_html` in the share rendering.
- Tags.GetAbstract: the plain `[abstract]` fallback is stated through the first match of its pattern. No lemma computes that match for a concrete text.

## Findings

| source | as written | input that shows it | evidently intended | confidence | as-written member | corrected member |
|---|---|---|---|---|---|---|
| src/Content/Text/BBCode.php:730-737 | `str_replace($captured, $spacefied, $whole_match)` replaces the captured text wherever it occurs in the whole match, including inside the `[noparse]` wrapper | `[noparse][noparse][/noparse]` turns its opening wrapper into `[ noparse ]` as well | only the protected region between the wrappers is spread out, so unescaping restores it | high, not executed | Noparse.EscapeSpreadsWrapper | Noparse.EscapeRegion, Noparse.EscapeRegionRoundTrip |
| src/Content/Text/BBCode.php:1791-1800 | `isset` tests `intval("00")` but `$codeblocks["00"]` reads a string key | `#codeblock-00#` with one saved block restores to the empty text | the block with that number is restored | medium, not executed | CodeBlocks.RestoreDropsPaddedMarker, CodeBlocks.RestoreBlockAsWritten | CodeBlocks.RestoreBlock, CodeBlocks.HideRestoreFromZero |
| src/Content/Text/BBCode.php:667 | `strpos($data['text'], $data['url'])` returns 0 when the link starts the text, which reads as false, so the early return is skipped | a link attachment whose text is its own link gets the link appended again | the link is appended only when the text does not contain it | high, not executed | Attachment.LinkAtStartRepeated, Attachment.LinkIncludedAsWritten | Attachment.LinkIncluded, Attachment.RemoveShareInformation |
| src/Content/Text/BBCode.php:1101 | `stristr($match[2], $match[3])` returns the rest of the link from the title on, which is `"0"` and reads as false when the title `0` ends the link | the link `a0` with the title `0` gets the title repeated in front of it | the title is dropped whenever the link contains it | medium, not executed | Decisions.ExpandLinksZeroTitle, Decisions.ExpandLinksAsWritten | Decisions.ExpandLinks, Decisions.ExpandLinksTitle |
| src/Content/Text/BBCode.php:2063 | the class `A-z` also holds `[`, `\`, `]`, `^`, `_` and the backquote | `x_#tag` yields no hashtag | only letters count as part of an address before the tag | medium, not executed | Tags.UnderscoreHashtag, Tags.UrlCharAsWritten | Tags.UrlChar, Tags.GetTags |
| src/Model/User.php:516-523 | the nickname is lower-cased but the entries of the forbidden list are not | the list `Admin` does not block the nickname `Admin` | matching ignores case on both sides | high, not executed | User.ListedNicknameNotBlocked, User.IsNicknameBlockedAsWritten, User.AdminNicknameChecked | User.IsNicknameBlocked, User.NicknameBlockedIff, User.Register |
| src/Model/User.php:568 | `$password1 != $confirm` compares digit strings as numbers | the password `007` with the confirmation `7` is accepted | the confirmation must equal the password exactly | high, not executed | User.LooseConfirmation, User.ChoosePasswordAsWritten, User.RegisterLooseConfirmation | User.ChoosePassword, User.Register |
| src/Factory/LoggerFactory.php:142-146 | the void logger is returned only when developer logging is off AND its file is usable | no developer address and an existing read-only log file builds a developer logger | the void logger whenever developer logging is off OR its file is unusable | high, not executed | LoggerFactory.DevLoggerWhileDisabled, LoggerFactory.DevQuietAsWritten | LoggerFactory.CreateDev, LoggerFactory.DevLoggerOnlyWhenEnabled |
