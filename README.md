# Page materialisation of the akios.ai static-site build

This project models the core of `internal/scripts/build.mjs`: the script that turns the
source tree `site/` into the deployable tree `dist/`. For each source file it decides what
happens to it, then runs that choice:

* a French copy of a bilingual page is skipped;
* a bilingual page (the fixed fan-out table) is rendered once in English and once in
  French, each with its canonical URL;
* any other HTML page is rendered in the locale its path implies;
* a Markdown page has its front matter stripped, is converted to HTML and is wrapped in
  one of three page shells;
* any other file is copied.

Every rendered page goes to its own path and, unless it is an `index.html`, also to a
"pretty" `name/index.html` path one directory deeper. In each copy the `{{root}}` token
becomes a relative path back to the site root and the `{{version}}` token becomes the
site version.

The model is split into modules, one per concern of the script:

| file | module | models |
|---|---|---|
| `options.dfy` | `Options` | the usual `Option` datatype |
| `text.dfy` | `Text` | the JavaScript string built-ins the script relies on: `indexOf`, `lastIndexOf`, `split`/`join`, `repeat`, `trim`, and `replace` with its `$` patterns, first-match and global forms |
| `paths.dfy` | `Paths` | the locale of a path (`getLocale`), the depth and root prefix of a target (`getRootPrefixFromTarget`), pretty paths (`prettyPaths`), `basename`/`dirname`/`extname` |
| `locales.dfy` | `Locales` | the locale tables: the loader (a `class` whose two tables are merged in place, module by module) and `t`, the dotted-key lookup (a method with a loop, proved against `Translation`) |
| `i18n.dfy` | `I18n` | `injectI18n`: a single left-to-right pass replacing every `{{i18n.KEY}}` token |
| `templates.dfy` | `Templates` | the `<html lang>` rewrite, the header/footer/root/version/canonical substitutions, front-matter stripping, shell choice and composition, Markdown output names |
| `pipeline.dfy` | `Pipeline` | the version fallback, the fan-out table and skip set, dispatch (`processFile`), the outputs of each branch, and the whole build as a fold over the walked files into the output tree |

`ProcessFile` and `Build` are methods with loops. They are proved equal to the functions
`FileEmits` and `BuildSpec`, and the lemmas about the build are stated on those functions.
The build context (`Pipeline.Context`) holds the two string tables the loader
leaves in `Locales.LocaleStore` (its `Current()` after `Load`), the partials, the version
and the shell layouts. The lemmas about the build hold for any such context.
The output tree is a map from target path to text. It starts empty, which models
`emptyDir`. Each file's outputs are written in order, so a later write to the same target
wins.

### Where the code and the documented behaviour differ (the model follows the code)

* **Missing `version.json`:** the build does not stop. The version falls back to `1.0.0`,
  and so does a file without a `version` field (`Pipeline.VersionOf`).
* **`{{canonical}}` outside the fan-out pages:** it is replaced only on the fan-out pages.
  Generic HTML pages keep it verbatim (`Pipeline.GenericKeepsCanonical`,
  `Templates.CanonicalOnlyOnFanOut`).
* **Translation on Markdown pages:** only the header and footer partials are passed
  through `injectI18n`. The composed page and the Markdown body are not, so an
  `{{i18n.*}}` token in a Markdown body reaches the output unchanged.
* **Shells:** there are only three (documentation, blog and plain). `enforcecore/` and
  `case-studies/` pages get the plain shell (`Templates.OtherSectionsArePlain`).
* **Leftover `{{i18n.*}}` tokens:** an HTML output can still contain one after
  injection.
  * A translation is not scanned again, so a value that is itself a token survives
    (`I18n.InsertedTextNotRescanned`).
  * A `{` just before a token can combine with a translated value into a new token
    (`I18n.TokenFormsAcrossValue`).

## Model

| member | source | states |
|---|---|---|
| Text.IndexOfFrom | internal/scripts/build.mjs:195 | the result is the first position at or after `from` where the pattern occurs; None exactly when it occurs nowhere from there |
| Text.LastIndexOfChar | internal/scripts/build.mjs:53-55 | the result holds the character and no later position does; None exactly when the character is absent |
| Text.LastIndexOfCharAt | internal/scripts/build.mjs:53-55 | the last occurrence of a character in `a`, the character, then text without it, is at the end of `a` |
| Text.Repeat | internal/scripts/build.mjs:47 | repeating a string n times gives n times its length |
| Text.Split | internal/scripts/build.mjs:46 | splitting always yields at least one piece |
| Text.SplitPiecesLackSeparator | internal/scripts/build.mjs:46 | no piece of a split contains the separator |
| Text.SplitLength | internal/scripts/build.mjs:46 | the number of pieces is the number of separators plus one |
| Text.JoinSplit | internal/scripts/build.mjs:46 | joining the pieces of a split gives back the original string |
| Text.SplitJoin | internal/scripts/build.mjs:46 | splitting a join of separator-free pieces gives back the pieces |
| Text.SplitAtFirst | internal/scripts/build.mjs:46 | the first piece is everything before the first separator |
| Text.SplitWithoutSeparator | internal/scripts/build.mjs:46 | a string without the separator splits into itself alone |
| Text.TrimStart | internal/scripts/build.mjs:197 | the result is a suffix of the input, only white space was removed, and it does not start with white space |
| Text.TrimEnd | internal/scripts/build.mjs:197 | the result is a prefix of the input, only white space was removed, and it does not end with white space |
| Text.Trim | internal/scripts/build.mjs:197 | the result is a slice of the input surrounded only by white space, and neither of its ends is white space |
| Text.ExpandLiteral | internal/scripts/build.mjs:145-146 | a replacement string without `$` is inserted literally |
| Text.Expand | internal/scripts/build.mjs:145-148 | the replacement string of `replace`, with `$$`, `$&`, `` $` `` and `$'` expanded to a dollar, the match, the text before it and the text after it; every other character taken literally (its contract is `Text.ExpandLiteral`) |
| Text.ReplaceFirst | internal/scripts/build.mjs:145-146 | `replace` with a string pattern: the first occurrence, and only it, is replaced by the expanded replacement; no occurrence leaves the string alone (its contracts are `Text.ReplaceFirstLiteral` and `Text.ReplaceFirstKeeps`) |
| Text.ReplaceFirstLiteral | internal/scripts/build.mjs:145-146 | a first-match replace leaves the string unchanged when the pattern is absent; otherwise it splices the replacement in at the first occurrence only |
| Text.ReplaceFirstKeeps | internal/scripts/build.mjs:145-146 | an occurrence of a text that the pattern can neither overlap nor contain, nor be contained in, is still present after a first-match replace |
| Text.ReplaceAll | internal/scripts/build.mjs:147-148 | `replace` with a global literal pattern: a left-to-right scan that replaces each occurrence it meets and resumes after it (its contracts are the `Text.ReplaceAll*` lemmas) |
| Text.ReplaceAllFromIsLiteral | internal/scripts/build.mjs:147-148 | with a `$`-free replacement, the scan from any position equals literal substitution on the rest of the string |
| Text.ReplaceAllIsLiteral | internal/scripts/build.mjs:147-148 | a global replace with a `$`-free replacement equals plain left-to-right literal substitution |
| Text.ReplaceAllAbsent | internal/scripts/build.mjs:147-148 | a global replace of an absent pattern changes nothing |
| Text.ReplaceAllAvoids | internal/scripts/build.mjs:147-148 | after a global replace, the pattern (or any other braced token that was absent) does not occur, provided the replacement shares no character with it |
| Text.ReplaceLiteralAvoids | internal/scripts/build.mjs:147-148 | literal substitution with a replacement sharing no character with a text leaves that text absent, if it was absent or is the pattern itself |
| Text.ReplaceAllRemoves | internal/scripts/build.mjs:147-148 | no occurrence of the pattern is left by a global replace whose `$`-free replacement holds neither the first nor the last character of the pattern and is at most one character shorter than it |
| Text.ReplaceLiteralRemoves | internal/scripts/build.mjs:147-148 | the same for literal substitution: no occurrence of the pattern is left |
| Text.ReplaceLiteralSplit | internal/scripts/build.mjs:147-148 | literal substitution of `x + y` is the substitution of `x` followed by that of `y` when no occurrence of the pattern straddles the cut |
| Text.ReplaceAllAround | internal/scripts/build.mjs:147-148 | a global replace of a text around an occurrence of `q` that the pattern can neither overlap nor sit inside replaces the part before, `q` and the part after separately |
| Text.ReplaceAllKeeps | internal/scripts/build.mjs:147-148 | an occurrence of a text apart from the pattern (no overlap, no containment either way) survives a global replace, right after the replaced prefix |
| Text.ReplaceAllPlaces | internal/scripts/build.mjs:147-148 | an occurrence of a pattern that cannot overlap itself becomes the replacement, right after the replaced prefix |
| Paths.LocaleIsFirstSegment | internal/scripts/build.mjs:61-66 | a path is French exactly when its first `/`-separated segment is `fr` |
| Paths.LocaleOf | internal/scripts/build.mjs:61-66 | `getLocale`: French for `fr` and for any path under `fr/`, English otherwise (its contracts are `Paths.LocaleIsFirstSegment` and `Paths.LocaleExamples`) |
| Paths.LocaleExamples | internal/scripts/build.mjs:61-66 | `blog/fr-report.html` and `french.html` are English; `fr/blog/index.html` and `fr` are French |
| Paths.FirstSegmentBeforeSeparator | internal/scripts/build.mjs:64 | a path with a separator starts with `fr/` exactly when its first segment is `fr` |
| Paths.DepthIsSeparatorCount | internal/scripts/build.mjs:46 | the depth of a target is the number of `/` in it |
| Paths.RootPrefix | internal/scripts/build.mjs:45-48 | `getRootPrefixFromTarget`: `.` at depth 0, otherwise `../` once per level (its contracts are `Paths.RepeatIsJoinedParents` and `Paths.RootReplacementShape`) |
| Paths.RootReplacement | internal/scripts/build.mjs:140-141 | the prefix without its trailing `/`, as both HTML branches and the Markdown branch substitute it (its contracts are `Paths.RootReplacementShape` and `Paths.RootReplacementAlphabet`) |
| Paths.RepeatIsJoinedParents | internal/scripts/build.mjs:47 | n copies of `../` are n `..` segments joined by `/`, plus a trailing slash |
| Paths.RootReplacementShape | internal/scripts/build.mjs:45-48 | the root replacement is `.` at depth 0; otherwise it is exactly depth-many `..` segments joined by `/`, with no trailing slash |
| Paths.RootReplacementAlphabet | internal/scripts/build.mjs:141 | the root replacement is non-empty and made only of `.` and `/` |
| Paths.DepthExamples | internal/scripts/build.mjs:45-48 | `a/b/c.html` has depth 2 and `a.html` depth 0 |
| Paths.RootReplacementExamples | internal/scripts/build.mjs:140-141 | `a/b/c.html` gets `../..` and `a.html` gets `.` |
| Paths.TwoLevelsUp | internal/scripts/build.mjs:140-141 | any target two directories deep gets `../..` |
| Paths.PrettyPaths | internal/scripts/build.mjs:51-58 | at most one pretty path; none exactly when the path is not `.html` or its page name is `index` |
| Paths.Targets | internal/scripts/build.mjs:138 | the target list has one or two entries and always starts with the path itself |
| Paths.SplitOffLast | internal/scripts/build.mjs:53-55 | basename and dirname recover the file and directory a path was built from (`.` for a top-level file) |
| Paths.PageParts | internal/scripts/build.mjs:53-56 | `dir/name.html` is an `.html` path whose page name is `name` and whose directory is `dir` (`.` at the top level) |
| Paths.UnderSeparators | internal/scripts/build.mjs:46 | the separators of `dir/file` are those of its two parts plus the one between them |
| Paths.PrettyDepth | internal/scripts/build.mjs:56 | the pretty path is exactly one level deeper than the page |
| Paths.PrettyPathOfPage | internal/scripts/build.mjs:51-58 | a non-index page `dir/name.html` has exactly the pretty path `dir/name/index.html`, one level deeper |
| Paths.IndexPageHasNoPretty | internal/scripts/build.mjs:51-58 | an `index.html` page has no pretty path and is written only to itself |
| Paths.PrettyRootClimbsOneMore | internal/scripts/build.mjs:138-141 | the pretty copy's root replacement climbs one more `..` than the page's own |
| Paths.ExtnameOf | internal/scripts/build.mjs:123 | the extension of `dir/stem.ext` is `.ext` |
| I18n.KeyRun | internal/scripts/build.mjs:80 | the result is the longest prefix made only of word characters and dots |
| I18n.MatchAt | internal/scripts/build.mjs:80 | returns the key length of the unique token starting here; None exactly when no token starts here |
| I18n.TokenKeyIsRun | internal/scripts/build.mjs:80 | a token's key is always the maximal word-or-dot run after the opening (the regex cannot backtrack to a shorter key) |
| I18n.Inject | internal/scripts/build.mjs:79-81 | `injectI18n`: a left-to-right scan that replaces each `{{i18n.KEY}}` token with the translation of its key and resumes after it, copying every other character (its contracts are the `I18n.Inject*` lemmas) |
| I18n.InjectAtToken | internal/scripts/build.mjs:79-81 | where a token starts, its key's translation is emitted and the scan resumes right after the token |
| I18n.InjectAtChar | internal/scripts/build.mjs:79-81 | where no token starts, the character is copied and the scan moves on by one |
| I18n.InjectPlain | internal/scripts/build.mjs:79-81 | text without `{` passes through injection unchanged |
| I18n.InjectPlainPrefix | internal/scripts/build.mjs:79-81 | a `{`-free prefix is kept and injection carries on after it |
| I18n.InjectLiteralPrefix | internal/scripts/build.mjs:79-81 | a literal run at the front (no `{{i18n.` starts in it, and it does not end in a cut-off beginning of one) is copied, and injection carries on after it |
| I18n.InjectSplit | internal/scripts/build.mjs:79-81 | injection distributes over a cut placed before a `{` that is not followed by `i`: no token can cross such a cut |
| I18n.InjectKeepsLiteral | internal/scripts/build.mjs:79-81 | a literal text opening with `{` and a character other than `i`, such as `{{canonical}}`, survives injection, right after the injected prefix |
| I18n.InjectToken | internal/scripts/build.mjs:79-81 | a token is replaced by its translation, and the scan resumes right after the token |
| I18n.InjectPieces | internal/scripts/build.mjs:79-81 | injecting a text made of literal runs (no `{{i18n.` starts in one, and none ends in a cut-off beginning of one) and well-formed tokens equals rendering each piece on its own: runs kept, tokens translated |
| I18n.KeptBrace | internal/scripts/build.mjs:80 | a `{` that does not open a token is copied through |
| I18n.KeptChar | internal/scripts/build.mjs:80 | a character that cannot begin a token is copied through |
| I18n.InsertedTextNotRescanned | internal/scripts/build.mjs:79-81 | a translation that is itself a token is emitted as is, not translated again |
| I18n.MissingKeyLeavesKey | internal/scripts/build.mjs:75 | a token whose key has no translation becomes the bare key |
| I18n.TokenFormsAcrossValue | internal/scripts/build.mjs:79-81 | a `{` before a token can combine with the token's translation into a fresh `{{i18n.*}}` token in the output |
| Locales.UpdatesStep | internal/scripts/build.mjs:25-30 | a module file contributes to a locale's update list exactly when its name ends in `.json` and it has that locale's part |
| Locales.MergeAll | internal/scripts/build.mjs:25-30 | the shallow `Object.assign` of each update in turn (its contracts are `Locales.MergeStep`, `Locales.MergeKeys`, `Locales.MergeLastWriterWins` and `Locales.MergeUntouched`) |
| Locales.MergeStep | internal/scripts/build.mjs:29-30 | merging one more module is a shallow assign on top of the previous tables |
| Locales.MergeKeys | internal/scripts/build.mjs:29-30 | a top-level key is in the merged table exactly when it was there before or some module defines it |
| Locales.MergeLastWriterWins | internal/scripts/build.mjs:26-31 | a key gets the value from the last module that defines it |
| Locales.MergeUntouched | internal/scripts/build.mjs:26-31 | a key no module defines keeps its previous value |
| Locales.ResolveFromNone | internal/scripts/build.mjs:72-74 | once a lookup fails, it stays failed through any remaining segments |
| Locales.ResolveConcat | internal/scripts/build.mjs:72-74 | walking `a + b` is walking `a` and then `b` |
| Locales.ResolveCons | internal/scripts/build.mjs:72-74 | walking `[k] + rest` is one step on `k`, then walking `rest` |
| Locales.MissingSegmentFallsBack | internal/scripts/build.mjs:69-76 | if any segment is missing, the lookup finds nothing and the translation is the key itself |
| Locales.NestedStringFound | internal/scripts/build.mjs:69-76 | a string reached by following the key's segments is its translation |
| Locales.Translation | internal/scripts/build.mjs:69-76 | `t`: the value reached by the key's dot-separated segments as text, `[object Object]` for an object, or the key itself when a segment is missing (its contracts are `Locales.MissingSegmentFallsBack`, `Locales.NestedStringFound` and `Locales.LocaleStore.Translate`) |
| Locales.LookupAfterMerge | internal/scripts/build.mjs:29-30 | after a shallow merge, a key whose first segment the update defines is looked up only in the update; otherwise only in the old table |
| Locales.LocaleStore.constructor | internal/scripts/build.mjs:21 | both tables start empty |
| Locales.LocaleStore.Load | internal/scripts/build.mjs:23-39 | fails exactly when the module directory is missing, and then leaves the tables alone; otherwise each table is the old one merged with every `.json` module's part for that locale, in directory order |
| Locales.LocaleStore.Translate | internal/scripts/build.mjs:69-76 | the loop's result is the translation of the key in the current table of that locale |
| Templates.FirstQuote | internal/scripts/build.mjs:144 | the first `"` at or after a position, or None when there is none |
| Templates.LangMatchAt | internal/scripts/build.mjs:144 | the length of the `<html lang="…">` tag (case-insensitive) starting at a position; None exactly when none starts there |
| Templates.LangMatchUnique | internal/scripts/build.mjs:144 | a tag at a position has exactly one length, the one the matcher returns |
| Templates.FindLangFrom | internal/scripts/build.mjs:144 | the leftmost tag at or after a position; None exactly when there is none |
| Templates.LeftmostIsFound | internal/scripts/build.mjs:144 | the search returns the first position where a tag starts |
| Templates.ReplaceLang | internal/scripts/build.mjs:144 | without a tag the page is unchanged; otherwise the text before and after the leftmost tag is kept, the locale's tag stands at the old tag's position, and the length changes by the difference of the two tags |
| Templates.LangRewrittenFirst | internal/scripts/build.mjs:144 | after the rewrite, the leftmost tag is the new one, at the old tag's position |
| Templates.LangLastRewriteWins | internal/scripts/build.mjs:144 | rewriting the language twice is the same as rewriting it once with the second locale |
| Templates.NoLangWithoutAngle | internal/scripts/build.mjs:144 | text with no `<` has no tag to rewrite |
| Templates.LangKeeps | internal/scripts/build.mjs:144 | a text that the leftmost `<html lang>` tag does not run through is still present after the rewrite |
| Templates.CanonicalUrl | internal/scripts/build.mjs:150 | the canonical URL contains no `{` and no `$`, so it is inserted literally and injection leaves it alone |
| Templates.RootAvoidsTokens | internal/scripts/build.mjs:141 | the root replacement shares no character with a braced token and contains no `$` |
| Templates.RootAndVersionGone | internal/scripts/build.mjs:147-148 | after the root and version replacements, neither token occurs |
| Templates.Substitute | internal/scripts/build.mjs:143-148 | the substitution chain in the script's order: the lang tag, the first header marker, the first footer marker, every `{{root}}`, every `{{version}}` (its contracts are the `Templates.Substitute*` lemmas) |
| Templates.SubstituteResolvesTokens | internal/scripts/build.mjs:143-148 | given a non-empty version made only of digits and dots, no `{{root}}` or `{{version}}` is left after the substitution chain |
| Templates.SubstituteKeeps | internal/scripts/build.mjs:143-148 | text without `<` or either token passes the substitution chain unchanged |
| Templates.SubstituteKeepsCanonical | internal/scripts/build.mjs:143-148 | a `{{canonical}}` of the page that the lang tag does not run through is still present after the substitution chain, given a `$`-free root and version |
| Templates.MarkerAbsent | internal/scripts/build.mjs:145-146 | a partial marker cannot be found in text without `<` |
| Templates.CanonicalOnlyOnFanOut | internal/scripts/build.mjs:143-153 | for a page with a `{{canonical}}` outside its lang tag and a `$`-free root and version: rendered without an address, as on the generic branch, the output still holds the token; with the locale's address, the text handed to the injection holds the address and no `{{canonical}}` |
| Templates.CanonicalFilled | internal/scripts/build.mjs:150-151 | whatever the page, partials, root and version, replacing `{{canonical}}` with the locale's address leaves none in the text handed to the injection |
| Templates.RenderHtml | internal/scripts/build.mjs:143-153 | one HTML target: the substitution chain, then the canonical address when there is one, then `injectI18n` (its contracts are `Templates.CanonicalOnlyOnFanOut`, `Pipeline.CanonicalTargets` and `Pipeline.RenderHtmlTarget`) |
| Templates.Prepared | internal/scripts/build.mjs:143-151 | the text handed to the injection: the substitution chain, then the canonical address when one is given (its contract is `Templates.CanonicalFilled`) |
| Templates.ClosingFenceUnique | internal/scripts/build.mjs:195 | the closing front-matter fence is unique |
| Templates.NoFrontMatterKept | internal/scripts/build.mjs:193-199 | text that does not open a fence, or never closes one, is kept as is and not trimmed |
| Templates.FrontMatterCut | internal/scripts/build.mjs:193-199 | with a closing fence, the body is the trimmed text after it |
| Templates.FrontMatterRemoved | internal/scripts/build.mjs:193-199 | a dash-free front-matter block is removed and the rest trimmed |
| Templates.StripFrontMatter | internal/scripts/build.mjs:193-199 | the front-matter cut: a text opening with `---` that has another `---` later loses everything up to it and is trimmed; any other text is kept (its contracts are `Templates.NoFrontMatterKept`, `Templates.FrontMatterCut` and `Templates.FrontMatterRemoved`) |
| Templates.ShellMirror | internal/scripts/build.mjs:203-206 | a page under `fr/` gets the same shell as its English counterpart |
| Templates.ShellFor | internal/scripts/build.mjs:203-204 | the docs shell for `docs/` and `fr/docs/`, else the blog shell for `blog/` and `fr/blog/`, else the plain shell (its contracts are `Templates.ShellMirror` and `Templates.OtherSectionsArePlain`) |
| Templates.OtherSectionsArePlain | internal/scripts/build.mjs:203-204 | a path whose first character is not `d`, `b` or `f`, such as `case-studies/…` or `enforcecore/…`, starts with none of the four shell prefixes and gets the plain shell |
| Templates.ComposePage | internal/scripts/build.mjs:249-287 | the composed page contains, in order, the header partial with its root tokens turned into `{{ROOT}}`, the body, and the footer partial likewise |
| Templates.MarkdownNameReplacesFirst | internal/scripts/build.mjs:289 | the first occurrence of the extension becomes `.html` |
| Templates.MarkdownNameKeepsLaterExtension | internal/scripts/build.mjs:289 | only the first occurrence of the extension is renamed: `a.md/b.md` becomes `a.html/b.md` |
| Templates.MarkdownOutputName | internal/scripts/build.mjs:289 | `relPath.replace(ext, '.html')`: the first occurrence of the extension renamed (its contracts are `Templates.MarkdownNameReplacesFirst` and `Templates.MarkdownNameKeepsLaterExtension`) |
| Templates.MarkdownTarget | internal/scripts/build.mjs:292-294 | one Markdown target: every `{{ROOT}}` becomes the root replacement, then every `{{version}}` the version (its contract is `Templates.MarkdownTargetResolved`) |
| Templates.MarkdownTargetResolved | internal/scripts/build.mjs:294 | given a non-empty version made only of digits and dots, a Markdown output contains no `{{ROOT}}` and no `{{version}}` |
| Pipeline.VersionOf | internal/scripts/build.mjs:12-18 | the version is never empty; a missing or unreadable file, a file without a version and an empty version all give the default `1.0.0`; a non-empty version is used as it is |
| Pipeline.FanOutEntries | internal/scripts/build.mjs:94-106 | each fan-out entry lists the page itself and its French copy |
| Pipeline.FanOut | internal/scripts/build.mjs:94-106 | the fan-out table: eight pages, each mapped to itself and its `fr/` copy (its contracts are `Pipeline.FanOutEntries`, `Pipeline.VariantsOfKeys` and `Pipeline.KeysAreEnglish`) |
| Pipeline.KeysAreEnglish | internal/scripts/build.mjs:94-106 | no fan-out key lies under `fr` |
| Pipeline.FrenchCopy | internal/scripts/build.mjs:134 | a key's French copy is not a key; the key renders in English and its copy in French |
| Pipeline.VariantsOfKeys | internal/scripts/build.mjs:94-106 | every entry has two variants, English first and French second, and the second is never a key |
| Pipeline.SkipIsNonKeyVariants | internal/scripts/build.mjs:94-117 | the skip set is exactly the set of French variants in the fan-out table |
| Pipeline.SkipEntry | internal/scripts/build.mjs:108-117 | every skipped path is `fr/` followed by a fan-out key |
| Pipeline.SkipIsFrench | internal/scripts/build.mjs:108-117 | every skipped path is French |
| Pipeline.FanOutKeysAreHtml | internal/scripts/build.mjs:126-130 | fan-out keys and their French copies have the `.html` extension, so the table is reached |
| Pipeline.Classify | internal/scripts/build.mjs:126-186 | a skipped path is in the skip set and a fanned-out path is a fan-out key with its variants; an `.html` path in either set takes one of those two branches; the three HTML branches are taken exactly for `.html`, the Markdown branch exactly for `.md`/`.mdx` (keeping the extension), and anything else is copied |
| Pipeline.KeyDispatch | internal/scripts/build.mjs:126-130 | a key is fanned out to its variants, and its French copy is skipped |
| Pipeline.SkippedWritesNothing | internal/scripts/build.mjs:126-128 | a skipped file produces no output |
| Pipeline.KeyRenders | internal/scripts/build.mjs:130-159 | a key renders its English targets with English partials, table and canonical URL, then its French targets with the French ones |
| Pipeline.FanOutTargets | internal/scripts/build.mjs:133-139 | fan-out writes exactly the targets of each variant, in order |
| Pipeline.VariantEmitTargets | internal/scripts/build.mjs:138-139 | one variant writes exactly its own targets |
| Pipeline.TwoVariantTargets | internal/scripts/build.mjs:133-138 | two variants write the first's targets and then the second's |
| Pipeline.TwoVariantEmits | internal/scripts/build.mjs:133 | rendering two variants is rendering each in turn |
| Pipeline.TopPageTargets | internal/scripts/build.mjs:94-101 | a top-level non-index key writes four files: itself, its pretty path, and both again under `fr/` |
| Pipeline.CommunityTargets | internal/scripts/build.mjs:96 | the community page yields four output files |
| Pipeline.IndexTargets | internal/scripts/build.mjs:95 | the home page yields exactly `index.html` and `fr/index.html` |
| Pipeline.CanonicalTargets | internal/scripts/build.mjs:150-153 | whatever the page, rendering with the locale's address writes one output per target, to that target, as the injection of a text that holds no `{{canonical}}` |
| Pipeline.FanOutCanonical | internal/scripts/build.mjs:130-159 | whatever the page, a fan-out key writes its English targets and then its French copy's targets, in order; each output is built with its locale's partials, table and address, and no `{{canonical}}` reaches the injection |
| Pipeline.FilledHalves | internal/scripts/build.mjs:133-159 | English renders to one list of targets followed by French renders to another: every output is at its target with its locale's address filled in |
| Pipeline.KeptCanonicalTargets | internal/scripts/build.mjs:168-184 | rendering without an address writes one output per target, to that target, and each keeps a `{{canonical}}` of the page that the lang tag does not run through, given a `$`-free version |
| Pipeline.GenericKeepsCanonical | internal/scripts/build.mjs:161-184 | an ordinary HTML page writes one output per target, in order, and each keeps every `{{canonical}}` of the page that the lang tag does not run through, given a `$`-free version |
| Pipeline.MarkdownOutputs | internal/scripts/build.mjs:289-298 | Markdown outputs go to the targets of the renamed page, in order; given a non-empty version of digits and dots only, they contain no `{{ROOT}}` or `{{version}}` |
| Pipeline.RenderHtmlTarget | internal/scripts/build.mjs:140-153 | the step-by-step rendering of one target equals its specification |
| Pipeline.RenderHtmlTargets | internal/scripts/build.mjs:168-184 | the loop writes one rendered page per target, in order |
| Pipeline.HtmlEmits | internal/scripts/build.mjs:168-184 | the outputs of the per-target loop: one per target (its contracts are `Pipeline.CanonicalTargets` and `Pipeline.KeptCanonicalTargets`) |
| Pipeline.RenderFanOut | internal/scripts/build.mjs:133-159 | the nested loop over variants and targets writes the fan-out outputs |
| Pipeline.RenderMarkdownTargets | internal/scripts/build.mjs:291-298 | the loop writes one resolved Markdown page per target |
| Pipeline.MarkdownEmits | internal/scripts/build.mjs:291-298 | the outputs of the Markdown per-target loop: one per target |
| Pipeline.ProcessFile | internal/scripts/build.mjs:120-437 | processing one file yields exactly its specified outputs, whichever branch it takes |
| Pipeline.FileEmits | internal/scripts/build.mjs:120-437 | `processFile` as a function: the outputs of the branch the path selects (its contracts are `Pipeline.ProcessFile` and the dispatch and canonical lemmas) |
| Pipeline.WriteOutputs | internal/scripts/build.mjs:155-156 | writing a file's outputs applies them in order to the output tree |
| Pipeline.BuildOne | internal/scripts/build.mjs:447-448 | processing the next walked file extends the output tree of the files before it |
| Pipeline.Build | internal/scripts/build.mjs:439-453 | the output tree after the walk is the ordered fold of every file's outputs |
| Pipeline.BuildSpec | internal/scripts/build.mjs:439-453 | the output tree of the walk: every file's outputs applied in walk order to an empty tree (its contracts are `Pipeline.Build`, `Pipeline.BuildStep` and `Pipeline.BuildKeys`) |
| Pipeline.Emitted | internal/scripts/build.mjs:439-453 | one output list per walked file |
| Pipeline.EmittedAt | internal/scripts/build.mjs:448 | the outputs of the i-th walked file are the outputs `processFile` gives it |
| Pipeline.BuildStep | internal/scripts/build.mjs:448 | building one more file applies that file's outputs on top of the previous tree |
| Pipeline.ApplyKeys | internal/scripts/build.mjs:155-156 | after a file's outputs are applied, a path is in the tree exactly when it was before or the file wrote it |
| Pipeline.TreeKeys | internal/scripts/build.mjs:439-453 | after a sequence of files, a path is in the tree exactly when it was there initially or some file wrote it |
| Pipeline.BuildKeys | internal/scripts/build.mjs:439-453 | a path is in the output exactly when some source file writes it |
| Pipeline.SkippedFileChangesNothing | internal/scripts/build.mjs:126-128 | walking past a skipped French copy leaves the output tree unchanged |
| Pipeline.FrenchCopyBuilt | internal/scripts/build.mjs:130-159 | whenever a fan-out key is among the source files, its French copy is in the output |

## Left out

- The directory walk: the files arrive as a sequence in walk order, and `readdir`/`stat` are not modelled.
- File system effects (`emptyDir`, `outputFile`, `copy`):
  - The output is a map that starts empty.
  - A copied file's entry holds its source text.
  - Write failures and file modes are not modelled.
- Reading the header and footer partials: their text is part of the build context, and a missing partial is not modelled.
- `JSON.parse` of `version.json` and of the locale modules: the model takes the parsed values.
  - Malformed JSON, and the exit it causes in the loader, are not modelled.
  - A non-string `version` value is not modelled.
- `process.exit` and console output: `Locales.LocaleStore.Load` reports a missing directory by returning false.
- `marked.parse`: the Markdown-to-HTML conversion is a function in the context that is not modelled.
- The literal markup of the three shells: a shell is held as a layout of abbreviated parts.
  - The build takes the layouts as part of its context (`Context.shells`), and every property stated about Markdown pages holds whatever the layouts are. `Templates.SourceShells` gives the layouts the script writes out.
  - The parts are head, header slot, body slot, footer slot and tail, plus the documentation sidebar's translated labels.
  - The inline scripts of the shells are not modelled.
- Templates.ComposePage: states only that the header partial, the body and the footer partial appear in this order. It does not state the shell's exact surrounding markup, which is abbreviated.
- Path normalisation by `path.join`/`path.relative`: paths are `/`-separated, relative to `site/`, and have no empty, `.` or `..` segments. `path.sep` is taken to be `/`.
- Strings are sequences of characters, not UTF-16 code units. The `i` flag of the `<html lang>` regex is modelled for ASCII letters only.
- Locale values are strings or nested objects. A string is its own translation and an object renders as `[object Object]`.
  - Numbers, booleans, arrays and JSON `null` are not modelled; JavaScript renders them by their string forms (`null` for a null leaf).
  - Stepping into a string value gives nothing in the model, so the key itself is returned. JavaScript yields the string's own properties instead (`length`, character indices).
  - Keys inherited from `Object.prototype` are not modelled.
- Concurrency: `async`/`await` is taken as sequential, which is how the walk runs.
- `internal/scripts/gen-arch.mjs` and `internal/scripts/serve.mjs` are not part of this model.
