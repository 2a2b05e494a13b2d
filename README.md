# ht-catalyst, modelled in Dafny

This project models the logic of the ht-catalyst website and proves properties
about it. ht-catalyst is a personal site built as a Next.js frontend with a
FastAPI backend. The model covers five groups:

- **Locale-catalog tooling** (`TranslationManager`, `CatalogRoundTrip`,
  `TranslationTemplate`, `Translate`). Nested locale catalogs are flattened into
  dotted keys and rebuilt. Spreadsheet rows are generated, and sheets are
  imported back with a shallow merge. Missing translations are reported. The
  template rows fall back to English, and `translate.js` rebuilds catalogs from
  the sheet.
- **Blog post indexer** (`UpdatePosts`). It covers read time, excerpt
  extraction, the cover-image fallback chain, per-post defaults and the
  newest-first sort in place.
- **Listing pages** (`Library`, `BlogIndex`, `Impact`). They model how the
  featured item is chosen, how category filters select entries, and what is
  rendered.
- **Client settings** (`LanguageContext`, `LanguageSwitcher`, `ThemeProvider`).
  They model the initial language, language changes, the en/vi toggle, and
  dark-mode initialisation, toggling and persistence.
- **Backend request logic**:
  - the per-IP fixed-window rate limiter (`RateLimiter`);
  - the email pattern (`EmailFormat`);
  - the two newsletter subscribe endpoints (`NewsletterV0`, `NewsletterV1`),
    over a database session with commit and rollback (`Subscribers`);
  - the Firebase bearer-token dependency (`Auth`);
  - the mentee-application table (`Mentoring`).

The model takes the shape of the code it describes:
- Code that updates state in place is a class. Each of its methods is proved
  to match a pure specification function of the old state, and the properties
  are proved about that function. Examples: the limiter's table, the theme
  state, the locale files, the database session.
- Array sorting is an in-place method over an `array`.
- Cursor walks and row loops are methods with loop invariants.
- Pure code is functions and lemmas.

I/O, SDKs and the clock are parameters:
- file contents;
- the directory listing and the files under `public/`;
- the parsed date of a post, as an ordering key;
- `time.time()`, as an integer `now`;
- whether a database commit fails;
- what the Firebase SDK does.

Shared helpers:
- `Wrappers`: `Option`.
- `Text`: string splitting, joining, trimming and decimal digits.
- `JsObject`: a JS plain object as an insertion-ordered list of entries.
- `LocaleJson`: JSON values and paths.
- `Lists`: filter, subsequence, first-occurrence dedup.
- `Http`: the outcome of an endpoint.
- `Router`: the Next router's push arguments.

## Model

| member | source | states |
|---|---|---|
| TranslationManager.UnflattenObject | frontend/scripts/translation-manager.js:35-54 | the cursor walk builds exactly `Unflatten(obj)`: each value stored, in order, at the path its key splits into on `.` |
| TranslationManager.AssignPath | frontend/scripts/translation-manager.js:39-50 | the walk over one key's segments stores the value at that path, replacing a missing or falsy step by `{}`, exactly as `SetPath` defines |
| TranslationManager.Unflatten | frontend/scripts/translation-manager.js:35-54 | the rebuilt value is always an object, whatever the keys |
| TranslationManager.UnflattenTopKeys | frontend/scripts/translation-manager.js:38-48 | the rebuilt object's top-level keys are exactly the first segments of the flat keys |
| TranslationManager.FlattenFields | frontend/scripts/translation-manager.js:22-32 | the reduce never emits the same key twice: a leaf is put under `prefix.key`, overwriting, and a nested object's flattened entries are merged in by `Object.assign` |
| TranslationManager.FlattenObject | frontend/scripts/translation-manager.js:21-32 | `flattenObject(obj, prefix)` gives an object with each key at most once |
| CatalogRoundTrip.FlattenAsPaths | frontend/scripts/translation-manager.js:22-32 | for an object whose keys are non-empty and free of `.`, flattening lists every non-object leaf, in depth-first key order, under its `.`-joined path |
| CatalogRoundTrip.UnflattenFlatten | frontend/scripts/translation-manager.js:22-54 | `unflattenObject(flattenObject(o)) == o`, key order included, when keys are non-empty and free of `.` and no nested object is empty |
| CatalogRoundTrip.FlatCatalogFacts | frontend/scripts/translation-manager.js:22-32 | a well-keyed catalog flattens to distinct non-empty keys, with truthy values when every leaf is truthy |
| CatalogRoundTrip.LeafPathsFacts | frontend/scripts/translation-manager.js:22-32 | the leaf paths of a well-keyed object are plain, distinct, and start with one of its keys |
| FlatRoundTrip.FlattenUnflatten | frontend/scripts/translation-manager.js:22-54 | `flattenObject(unflattenObject(m))` has exactly the keys of `m`, each with the same value, when every key splits on `.` into non-empty segments and no key's path leads to another key's |
| TranslationManager.OrBlank | frontend/scripts/translation-manager.js:100 | `x \|\| ''`: the value when truthy, otherwise the empty string |
| TranslationManager.GenerateExcel | frontend/scripts/translation-manager.js:79-104 | the header row `Key, Context, en, vi`; then one row per flattened English key, in English order, each holding the key, an empty context, and per locale that locale's value or `''` when missing or falsy; with no English catalog, or a missing locale catalog while rows are built, the script fails |
| TranslationManager.BuildRow | frontend/scripts/translation-manager.js:92-101 | the row for one key: the key, an empty context and each locale's flattened value or `''`; no row exactly when some locale's catalog file is missing |
| TranslationManager.SheetKeysDistinct | frontend/scripts/translation-manager.js:91-104 | in the sheet `generateExcel` writes, the keys in column 0 of the rows after the header are pairwise distinct |
| TranslationManager.IndexOf | frontend/scripts/translation-manager.js:156 | `indexOf`: the first position holding the value, or -1 exactly when it is absent |
| TranslationManager.CollectTranslations | frontend/scripts/translation-manager.js:173-184 | the import loop over the rows below the header builds the collection defined row by row |
| TranslationManager.Collected | frontend/scripts/translation-manager.js:173-184 | the collection row by row: its keys are distinct and it never holds a falsy cell |
| TranslationManager.CollectedStep | frontend/scripts/translation-manager.js:176-184 | a row with a truthy key and a truthy cell overwrites that key; any other row changes nothing |
| TranslationManager.CollectedKeys | frontend/scripts/translation-manager.js:176-184 | a key is collected exactly when some row contributes it |
| TranslationManager.CollectedLastWins | frontend/scripts/translation-manager.js:176-184 | for a key on several rows, the last contributing row's cell wins |
| TranslationManager.UnflattenDistinct | frontend/scripts/translation-manager.js:35-54 | the rebuilt object's top-level keys are distinct |
| TranslationManager.Merge | frontend/scripts/translation-manager.js:186-188 | `{ ...existing, ...unflattenObject(collected) }` has exactly the existing sections and the rebuilt ones as top-level keys |
| TranslationManager.MergeShallow | frontend/scripts/translation-manager.js:187-188 | the merge is shallow: a section named by a collected key's first segment is replaced by the rebuilt section; every other section is kept |
| TranslationManager.NestedKeyLost | frontend/scripts/translation-manager.js:187-188 | an instance: importing only `nav.home` drops `nav.about` from the catalog |
| TranslationManager.SectionReplaced | frontend/scripts/translation-manager.js:187-188 | merging the single collected key `a.b` into a catalog whose only section is `a` replaces that section by one holding only `b` |
| TranslationManager.ImportUntouched | frontend/scripts/translation-manager.js:155-166 | a locale the header lacks, or finds only in column 0, is skipped: its catalog is unchanged |
| TranslationManager.ImportLocales | frontend/scripts/translation-manager.js:165-196 | the import over the locales rewrites catalogs but never adds or removes one, and fails exactly when a locale that the header names past column 0 has no catalog file |
| TranslationManager.ImportMerges | frontend/scripts/translation-manager.js:165-196 | after a successful import, each imported locale's catalog is its old catalog merged with its collected column |
| TranslationManager.LocaleFiles.constructor | frontend/scripts/translation-manager.js:131 | the catalog files as found |
| TranslationManager.LocaleFiles.ImportFromExcel | frontend/scripts/translation-manager.js:131-204 | a missing worksheet changes nothing; an empty sheet fails; otherwise the catalogs become what the import of the configured locales gives |
| TranslationManager.ValidateTranslations | frontend/scripts/translation-manager.js:207-240 | the run fails exactly when a catalog is missing; otherwise it reports a (locale, key) pair exactly when a non-English locale has no truthy value for an English key |
| TranslationManager.MissingKeys | frontend/scripts/translation-manager.js:228-233 | validating one locale warns for `(locale, key)` exactly when `key` is an English key with no truthy value in that locale |
| TranslationTemplate.TemplateRows | frontend/scripts/create-translation-template.js:31-35 | one row per flattened English key; each row's `en` is what the English catalog holds under its key; `vi` is the Vietnamese value under that key when truthy, otherwise the English one; `vi` is falsy only when `en` is |
| TranslationTemplate.RowsFollowEnglish | frontend/scripts/create-translation-template.js:31-35 | the row keys are distinct and are exactly the English keys; keys only the Vietnamese catalog has get no row |
| TranslationTemplate.ViFallback | frontend/scripts/create-translation-template.js:34 | the Vietnamese cell falls back to English exactly when the Vietnamese value is falsy |
| TranslationTemplate.TemplateFlatten | frontend/scripts/create-translation-template.js:5-15 | this script's copy of `flattenObject` equals the one in translation-manager.js on every object and prefix |
| Translate.FlatToNested | frontend/scripts/translate.js:6-18 | the cursor walk builds `Unflatten(obj)`, the same result `TranslationManager.UnflattenObject` is proved to build, so the two copies agree on every input |
| Translate.AssignNested | frontend/scripts/translate.js:9-15 | the walk over one key's segments stores the value at that path, replacing a missing or falsy step by `{}`, exactly as `SetPath` defines |
| Translate.ViValue | frontend/scripts/translate.js:38-42 | the stored Vietnamese value is `row.vi` when truthy, otherwise `row.en` |
| Translate.EnFlat | frontend/scripts/translate.js:35-45 | the `en` object after a prefix of the rows: assignment by key keeps each key once |
| Translate.ViFlat | frontend/scripts/translate.js:35-45 | the `vi` object after a prefix of the rows: assignment by key keeps each key once |
| Translate.StoredTruthy | frontend/scripts/translate.js:36-43 | both objects hold only truthy values: `row.en` is stored only when truthy, and `row.vi` only when truthy, with `row.en` in its place otherwise |
| Translate.FillTranslations | frontend/scripts/translate.js:32-45 | the `forEach` fills the flat `en` and `vi` objects as defined row by row, and warns exactly for the keys of filling rows whose `vi` is falsy |
| Translate.SameKeys | frontend/scripts/translate.js:35-45 | `en` and `vi` end up with the same keys in the same order |
| Translate.FillStep | frontend/scripts/translate.js:36-44 | a row with truthy `key` and `en` sets its key in both objects; any other row changes nothing |
| Translate.FilledKeys | frontend/scripts/translate.js:36 | a key is present exactly when some row with truthy `key` and `en` names it |
| Translate.LastRowWins | frontend/scripts/translate.js:35-45 | for duplicate keys, the last filling row wins in both objects |
| Translate.ProcessTranslations | frontend/scripts/translate.js:29-49 | the nested catalogs are the rebuilt flat `en` and `vi` objects |
| Translate.TemplateSheet | frontend/scripts/translate.js:29 | the template rows read back: one sheet row per template row, key, `en` and `vi` as written |
| Translate.TemplatePipeline | frontend/scripts/translate.js:6-37 | the template rows of an English catalog, read back, rebuild that catalog when keys are plain, no object is empty and no leaf is falsy |
| UpdatePosts.SpaceSplitCount | frontend/scripts/update-posts.js:41 | `split(/\s+/)` gives one piece more than the number of maximal whitespace runs |
| UpdatePosts.SpaceSplit | frontend/scripts/update-posts.js:41 | `split(/\s+/)` gives at least one piece, `['']` for empty text |
| UpdatePosts.ReadMinutes | frontend/scripts/update-posts.js:41-42 | minutes are `ceil(pieces / 200)`, and at least 1 even for empty text |
| UpdatePosts.CalculateReadTime | frontend/scripts/update-posts.js:40-44 | the text is the minute count in decimal digits, whose value is `ReadMinutes(content)`, followed by ` min read` |
| UpdatePosts.JoinSplitOn | frontend/scripts/update-posts.js:51 | splitting on `\n\n` loses nothing: joining the paragraphs gives the content back |
| UpdatePosts.SplitOnPartsFree | frontend/scripts/update-posts.js:51 | no paragraph contains `\n\n`: every separator is consumed by the split |
| UpdatePosts.SplitOnFirst | frontend/scripts/update-posts.js:51 | the first paragraph is a prefix of the content |
| UpdatePosts.StripMarks | frontend/scripts/update-posts.js:58 | no `#`, `*` or backquote is left, every other character is kept exactly as often as in the input, and a text without marks comes back unchanged |
| UpdatePosts.StripMarksAppend | frontend/scripts/update-posts.js:58 | the replacement works character by character: stripping a concatenation strips each part, so what is kept stays in order |
| UpdatePosts.LinkAt | frontend/scripts/update-posts.js:59 | a match at a position is `[`, a non-empty text without `]`, `](`, a non-empty target without `)`, and `)`; the result is that text and the position after the `)` |
| UpdatePosts.LinkAtMatches | frontend/scripts/update-posts.js:59 | whenever the pattern matches at a position, that match is found, with its text and its end |
| UpdatePosts.LinkLiteral | frontend/scripts/update-posts.js:59 | `[t](u)` followed by anything is a link at its start with text `t`, for a non-empty `t` without `]` and a non-empty `u` without `)` |
| UpdatePosts.UnwrapLinks | frontend/scripts/update-posts.js:59 | replacing `[text](url)` by `text` never lengthens the text and introduces no character |
| UpdatePosts.UnwrapPlain | frontend/scripts/update-posts.js:59 | text without `[` is kept as it is |
| UpdatePosts.UnwrapAtLink | frontend/scripts/update-posts.js:59 | where the pattern matches, the link becomes its text and the scan goes on after the `)` |
| UpdatePosts.UnwrapUnmatched | frontend/scripts/update-posts.js:59 | a `[` that opens no link is kept, and the scan moves on by one character |
| UpdatePosts.CleanParagraph | frontend/scripts/update-posts.js:57-61 | a cleaned paragraph has at most 163 characters, ends in `...`, and has no `#`, `*` or backquote before that suffix |
| UpdatePosts.CleanPlainParagraph | frontend/scripts/update-posts.js:57-61 | a paragraph with no mark, no `[` and no leading whitespace is only cut and trimmed: with at most 160 characters and no trailing whitespace it becomes itself plus `...`; longer, it becomes its first 160 characters plus `...` when those end in no whitespace |
| UpdatePosts.FirstQualifying | frontend/scripts/update-posts.js:52-55 | the first paragraph not starting with `#` or `![` and longer than 10 characters, or none |
| UpdatePosts.ExtractExcerpt | frontend/scripts/update-posts.js:47-65 | a truthy provided excerpt is returned unchanged; otherwise the first qualifying paragraph, cleaned; otherwise `Learn more about <title>...` |
| UpdatePosts.ExcerptEndsWithEllipsis | frontend/scripts/update-posts.js:57-64 | without a provided excerpt, the excerpt always ends in `...` |
| UpdatePosts.CategoryImage | frontend/scripts/update-posts.js:98 | the category's default image, or the `default` entry for an unmapped category |
| UpdatePosts.ImageAtShape | frontend/scripts/update-posts.js:87 | a markdown image `![alt](target)` on one line matches, and the capture lies between the first `](` after `![` and the first `)` after that, as the lazy `.*?` picks |
| UpdatePosts.FirstImageFrom | frontend/scripts/update-posts.js:87-88 | a match found is an image match at some position with none between the start and it; no match means no position matches |
| UpdatePosts.FirstImageLeftmost | frontend/scripts/update-posts.js:87-88 | the result is the leftmost match: every earlier position fails to match, and `None` only when no position matches |
| UpdatePosts.GetCoverImage | frontend/scripts/update-posts.js:76-104 | the cover always exists (paths not starting with `/` always count as existing) or is the global default |
| UpdatePosts.CoverIsFirstExisting | frontend/scripts/update-posts.js:68-104 | the cover is the first existing candidate among the front-matter cover, the first body image and the category default, falling back to `DEFAULT_IMAGES.default` |
| UpdatePosts.OrElse | frontend/scripts/update-posts.js:134 | `x \|\| fallback` on an optional string |
| UpdatePosts.MdxFiles | frontend/scripts/update-posts.js:111 | exactly the directory entries whose names end in `.mdx` |
| UpdatePosts.MakePost | frontend/scripts/update-posts.js:119-167 | id is position + 1; title, category, read time, excerpt, author name and avatar are never empty; a truthy front-matter title is kept; the cover exists or is the default; a name whose only `.mdx` is its ending is the slug plus `.mdx` |
| UpdatePosts.MdxSlug | frontend/scripts/update-posts.js:121 | a name whose only `.mdx` is its ending loses exactly that ending, so the slug plus `.mdx` is the name |
| UpdatePosts.BuildPosts | frontend/scripts/update-posts.js:119-168 | one post per `.mdx` file, in file order |
| UpdatePosts.BuildPostsIds | frontend/scripts/update-posts.js:152 | the ids are 1, 2, … in file order |
| UpdatePosts.SortNewestFirst | frontend/scripts/update-posts.js:171-175 | the in-place sort permutes the array into newest-first order, with ties kept in file order (as a stable sort does) |
| UpdatePosts.InsertAt | frontend/scripts/update-posts.js:171-175 | one insertion step extends the sorted prefix by one element and leaves the rest alone |
| UpdatePosts.NewestFirstUnique | frontend/scripts/update-posts.js:171-175 | there is only one newest-first order of a given multiset of posts, so the stable sort's result is fully determined |
| UpdatePosts.GeneratePosts | frontend/scripts/update-posts.js:107-176 | the result is the built posts of the `.mdx` files, newest first; no `.mdx` file gives `[]` |
| Library.SelectBooks | frontend/pages/library.js:27-29 | `all` gives every book but the first, in order; any other filter gives exactly the books of that category, each as often as in `books`, including `books[0]` when it matches; always a subsequence of `books` |
| Library.LibraryPage.constructor | frontend/pages/library.js:15-35 | the initial state (`all`, loading, nothing shown) with the effect's first run |
| Library.LibraryPage.RunEffect | frontend/pages/library.js:21-26 | the featured book is `books[0]` and a reload begins |
| Library.LibraryPage.ChangeFilter | frontend/pages/library.js:21-35 | a filter other than the active one becomes active, restarts the effect and keeps the stale list until the timer fires; choosing the active filter again changes nothing, as React skips the unchanged state |
| Library.LibraryPage.Tick | frontend/pages/library.js:26-32 | when the pending timer fires, the list is the selection for the active filter and loading ends |
| Library.LibraryPage.Grid | frontend/pages/library.js:27-31 | the grid is hidden exactly while loading, and otherwise shows the selection for the active filter |
| Library.FilterNoneInCategory | frontend/pages/library.js:29 | a category no book has selects nothing |
| Library.FilterOnlyAt | frontend/pages/library.js:29 | a category only one book has selects exactly that book |
| Library.SelectNoneInCategory | frontend/pages/library.js:27-29 | under a filter other than `all`, a category no book has gives an empty grid |
| Library.SelectOnlyAt | frontend/pages/library.js:27-29 | under a filter other than `all`, a category only one book has gives exactly that book, even when it is `books[0]` |
| Library.ShippedFiltersEmpty | frontend/components/library/BookFilter.js:7-14 | with the shipped books, the filters `recent`, `favorites`, `business` and `society` select nothing |
| Library.ShippedScience | frontend/data/books.js:142 | with the shipped books, `science` selects exactly one book |
| BlogIndex.SelectPosts | frontend/pages/blog/index.js:18-20 | `all` gives every post but the first; any other category gives the posts of that category whose id differs from the featured one, each as often as in `posts`; a subsequence of `posts` |
| BlogIndex.FeaturedNotSelected | frontend/pages/blog/index.js:19-20 | with distinct ids the featured post is never in the filtered list |
| BlogIndex.BlogPage.constructor | frontend/pages/blog/index.js:12-14 | the initial state: category `all`, list `posts.slice(1)` |
| BlogIndex.BlogPage.FeaturedPost | frontend/pages/blog/index.js:14 | the featured post is `posts[0]` |
| BlogIndex.BlogPage.HandleCategoryChange | frontend/pages/blog/index.js:16-22 | stores the category and its selection; the rendered page does not change |
| BlogIndex.BlogPage.Render | frontend/pages/blog/index.js:24-56 | no posts renders the empty state; otherwise the grid shows all posts, the featured one included |
| Impact.ProjectCategories | frontend/pages/impact.js:42 | `projects.map(p => p.category)`, position by position |
| Impact.Categories | frontend/pages/impact.js:42 | the distinct categories: every project's category, no duplicates |
| Impact.CategoriesInOrder | frontend/pages/impact.js:42 | categories appear in first-occurrence order |
| Impact.FilteredProjects | frontend/pages/impact.js:48-50 | `all` gives all projects; any other category gives exactly that category's projects, each as often as in `projects`, in order |
| Impact.NoProjectsMessage | frontend/pages/impact.js:92-98 | the no-projects message shows exactly when no project has the active category (which is not `all`), or when there are no projects |
| Impact.Cards | frontend/pages/impact.js:82-89 | one card per filtered project |
| Impact.CardsActive | frontend/pages/impact.js:86 | a card is active exactly when the active category is its project's: every card under a category, none under `all` unless a project's category is literally `all` |
| Impact.ShippedCategories | frontend/pages/impact.js:11-42 | the shipped projects give categories `education`, `environment`, `healthcare` |
| LanguageContext.BrowserLang | frontend/contexts/LanguageContext.js:23 | the part of `navigator.language` before the first `-` |
| LanguageContext.DefaultLang | frontend/contexts/LanguageContext.js:24-25 | the browser language when it is `en` or `vi`, else `en`; always supported |
| LanguageContext.InitialLang | frontend/contexts/LanguageContext.js:28-29 | the saved preference when non-empty, else the default |
| LanguageContext.InitialLangSupported | frontend/contexts/LanguageContext.js:24-29 | the initial language is supported whenever the saved one is |
| LanguageContext.SavedNotChecked | frontend/contexts/LanguageContext.js:28-29 | a saved `fr` is used even though it is not supported |
| LanguageContext.TableLocalesResolve | frontend/contexts/LanguageContext.js:6-25 | each entry of the languages table (`en-US`, `vi-VN`) resolves back to its own code |
| LanguageContext.LanguageProvider.constructor | frontend/contexts/LanguageContext.js:19 | the language starts as `en`, with nothing pushed |
| LanguageContext.LanguageProvider.SavedLanguage | frontend/contexts/LanguageContext.js:28 | `localStorage.getItem('language')` |
| LanguageContext.LanguageProvider.Mount | frontend/contexts/LanguageContext.js:21-33 | the current language becomes the initial language, which is pushed with the current `pathname` and `asPath`; storage is not written |
| LanguageContext.LanguageProvider.ChangeLanguage | frontend/contexts/LanguageContext.js:35-38 | pushes `{pathname, query}`, `asPath` and the locale; neither the current language nor storage changes |
| LanguageSwitcher.NewLocale | frontend/components/LanguageSwitcher.js:9 | `vi` exactly when the locale is `en`, otherwise `en` |
| LanguageSwitcher.ToggleLanguage | frontend/components/LanguageSwitcher.js:6-10 | pushes `{pathname, query}` and `asPath` unchanged with the toggled locale |
| LanguageSwitcher.Label | frontend/components/LanguageSwitcher.js:21 | `EN 🇬🇧` exactly when the locale is `en`, else `VI 🇻🇳` |
| LanguageSwitcher.ToggleTwice | frontend/components/LanguageSwitcher.js:9 | toggling twice from `en` or `vi` returns it |
| LanguageSwitcher.LabelNamesCurrent | frontend/components/LanguageSwitcher.js:9-21 | the label reads EN exactly when the toggle goes to `vi` |
| ThemeProvider.ThemeName | frontend/components/ThemeProvider.js:33-39 | `dark` exactly for dark mode, else `light` |
| ThemeProvider.InitialDark | frontend/components/ThemeProvider.js:18-27 | a saved non-empty theme means dark exactly when it is `dark`; otherwise the colour-scheme preference decides |
| ThemeProvider.Apply | frontend/components/ThemeProvider.js:30-34 | the `dark` class is present exactly in dark mode, `data-theme` matches, and no other class changes |
| ThemeProvider.InitStep | frontend/components/ThemeProvider.js:16-28 | initialisation picks the initial mode and applies it, and never writes to storage |
| ThemeProvider.ToggleStep | frontend/components/ThemeProvider.js:36-43 | flips the mode, stores its name and applies it |
| ThemeProvider.ToggleTwice | frontend/components/ThemeProvider.js:36-43 | two toggles restore the mode and the page's classes and `data-theme` |
| ThemeProvider.ToggleSurvivesReload | frontend/components/ThemeProvider.js:18-39 | after a toggle, a reload restores the toggled mode |
| ThemeProvider.ThemeProviderState.constructor | frontend/components/ThemeProvider.js:14 | light mode, with the page as loaded |
| ThemeProvider.ThemeProviderState.ApplyTheme | frontend/components/ThemeProvider.js:30-34 | the page becomes `Apply` of the old state |
| ThemeProvider.ThemeProviderState.Init | frontend/components/ThemeProvider.js:16-28 | the state becomes `InitStep` of the old state; storage unchanged |
| ThemeProvider.ThemeProviderState.ToggleDarkMode | frontend/components/ThemeProvider.js:36-43 | the state becomes `ToggleStep` of the old state |
| RateLimiter.WindowStart | backend/app/utils/rate_limiter.py:24-25 | `now` rounded down to a multiple of 60 |
| RateLimiter.Current | backend/app/utils/rate_limiter.py:28-32 | the stored count for the current window; 0 for an unknown IP or an earlier window |
| RateLimiter.Decide | backend/app/utils/rate_limiter.py:23-38 | allowed exactly when the current count is below the maximum; a denial leaves the table unchanged; an allowance stores `(count + 1, window_start)` for that IP only |
| RateLimiter.DecideKeepsBounded | backend/app/utils/rate_limiter.py:34-38 | every stored count stays between 1 and the maximum, on a window boundary, and other IPs' entries are unchanged |
| RateLimiter.ZeroLimitDeniesAll | backend/app/utils/rate_limiter.py:34-35 | with a maximum of 0 or less the table stays empty and every call is denied |
| RateLimiter.WindowCap | backend/app/utils/rate_limiter.py:34-38 | within one window, the calls allowed for an IP raise its stored count by exactly their number, and when any is allowed the count stays within the maximum |
| RateLimiter.InMemoryRateLimiter.constructor | backend/app/utils/rate_limiter.py:17-21 | the limit is stored and the table starts empty |
| RateLimiter.Run | backend/app/utils/rate_limiter.py:23-38 | a series of calls gives one answer per call, each deciding on the table the earlier calls left |
| RateLimiter.InMemoryRateLimiter.Allow | backend/app/utils/rate_limiter.py:23-38 | the answer and the new table are `Decide` of the old table |
| RateLimiter.RateLimit | backend/app/utils/rate_limiter.py:44-48 | uses `unknown` without a client, and raises 429 exactly when `allow` denies |
| EmailFormat.IsValidEmailMatches | backend/app/api/endpoints/newsletter.py:13-15 | the scanner accepts exactly the strings the pattern matches: local part, `@`, domain, `.`, two or more ASCII letters, then optionally one `\n` |
| EmailFormat.AcceptedOneAt | backend/app/api/endpoints/newsletter.py:14-15 | an accepted address has exactly one `@` |
| EmailFormat.AcceptedEnding | backend/app/api/endpoints/newsletter.py:14-15 | an accepted address ends in `.` and two or more letters, before an optional `\n` |
| Subscribers.Session.Find | backend/app/api/endpoints/newsletter.py:23 | the subscriber row for the email, staged changes first |
| Subscribers.Session.Stage | backend/app/api/endpoints/newsletter.py:29-35 | stages the row for the email; nothing is committed |
| Subscribers.Session.Commit | backend/app/api/endpoints/newsletter.py:30-38 | a successful commit writes the staged rows; a failed one writes nothing |
| Subscribers.Session.Rollback | backend/app/api/endpoints/newsletter.py:41 | discards the staged rows |
| NewsletterV0.SubscribeSpec | backend/app/api/endpoints/newsletter.py:17-42 | an invalid email gives 400 `Invalid email format` and an active subscriber 400 `Email already subscribed`, both with the table untouched; an inactive subscriber is reactivated with `Subscription reactivated successfully` and a new address is inserted as active with `Subscribed successfully`; a failed insert commit gives 500 `Failed to subscribe. Please try again.` and a failed reactivation commit escapes unmapped, both with the table unchanged |
| NewsletterV0.IsValidEmail | backend/app/api/endpoints/newsletter.py:13-15 | accepts exactly the strings the pattern matches |
| NewsletterV0.OnlyRequestedEmailChanges | backend/app/api/endpoints/newsletter.py:23-39 | no other address's record changes, and the requested one can only become active |
| NewsletterV0.ReturnMeansActive | backend/app/api/endpoints/newsletter.py:27-39 | after a success, the address is a valid, active subscriber |
| NewsletterV0.Subscribe | backend/app/api/endpoints/newsletter.py:17-42 | on the session: the outcome and the committed table are `SubscribeSpec` of the old table |
| NewsletterV1.UpsertSpec | backend/app/api/v1/endpoints/newsletter.py:24-44 | `("Email already subscribed", False)` exactly for an active subscriber; with a working commit, an inactive subscriber gives `("Subscription reactivated successfully", True)` and a new address `("Subscribed successfully", True)`, the address now active; it raises exactly when a needed commit fails, leaving the table unchanged |
| NewsletterV1.SubscribeSpec | backend/app/api/v1/endpoints/newsletter.py:18-54 | an invalid email gives 400 `Invalid email format` before any database work; the table is the upsert's; a raised upsert gives 500 `Failed to subscribe. Please try again.`, the already-subscribed result 400 `Email already subscribed`, any other result returns its message; so an active subscriber gets 400, a failed commit 500, and a success the reactivated or subscribed message; no exception escapes unmapped |
| NewsletterV1.IsValidEmail | backend/app/api/v1/endpoints/newsletter.py:14-16 | accepts exactly the strings the pattern matches, like the other endpoint's copy |
| NewsletterV1.AgreesWithV0 | backend/app/api/v1/endpoints/newsletter.py:18-54 | the two endpoints leave the same table, and give the same outcome except exactly when the commit reactivating an inactive subscriber fails, where this one answers 500 and the other lets the exception escape |
| NewsletterV1.UpsertSubscription | backend/app/api/v1/endpoints/newsletter.py:24-44 | on the session: the result and the committed table are `UpsertSpec` of the old table |
| NewsletterV1.Subscribe | backend/app/api/v1/endpoints/newsletter.py:18-54 | on the session: the outcome and the committed table are `SubscribeSpec` of the old table |
| Auth.DisabledIff | backend/app/utils/auth.py:29 | authentication is disabled exactly when `DISABLE_FIREBASE_AUTH` spells `true` in any mix of cases |
| Auth.Lower | backend/app/utils/auth.py:29 | `.lower()` keeps the length and lowercases `A` to `Z` position by position, leaving every other character |
| Auth.AuthDisabled | backend/app/utils/auth.py:29 | with the variable unset, the default `false` keeps authentication on |
| Auth.InitError | backend/app/utils/auth.py:35-63 | an existing app needs nothing; a set credentials path must exist; otherwise Application Default Credentials are used; then `initialize_app` runs |
| Auth.EnsureInitializedSpec | backend/app/utils/auth.py:15-81 | once initialised, or with auth disabled, nothing fails; a failure is a 500 `Firebase Admin SDK initialization failed: …` and leaves the flag unset, so the next call retries |
| Auth.InitializeOnce | backend/app/utils/auth.py:24-65 | after a successful initialisation every later call does nothing |
| Auth.SplitOnce | backend/app/utils/auth.py:122 | `split(" ", 1)`: the whole string as the only piece exactly when it has no space, otherwise the two pieces around the first space |
| Auth.SplitOnceAround | backend/app/utils/auth.py:122 | `split(" ", 1)` splits at the first space |
| Auth.BearerSplit | backend/app/utils/auth.py:114-122 | after the `Bearer ` check, the token is everything after those seven characters |
| Auth.HeaderToken | backend/app/utils/auth.py:107-125 | a missing or empty header gives 401 `Missing Authorization header…`; a non-empty header not starting with `Bearer ` (case-sensitive) gives 401 `Invalid Authorization header format…`; `Bearer ` alone gives 401 `Empty token`; otherwise the token is everything after `Bearer `, and is non-empty |
| Auth.CheckTokenAsWritten | backend/app/utils/auth.py:128-160 | as written: accepted exactly for a decoded, non-empty email, which it returns; every rejection is a 401 |
| Auth.MissingEmailDetailLost | backend/app/utils/auth.py:136-160 | as written, the missing-email 401 is never produced; a token without an email gives `Token verification failed.` |
| Auth.CheckToken | backend/app/utils/auth.py:128-160 | a decoded token with an email returns it; a missing email, an expired, revoked or invalid token, or any other error each give their own 401 |
| Auth.VerifyBearerSpec | backend/app/utils/auth.py:84-160 | as written: the initialisation runs first and its flag is the one kept; its error is returned as is; otherwise the header and the as-written token check decide |
| Auth.VerifyBearerSpecIntended | backend/app/utils/auth.py:84-160 | the same endpoint with the corrected token check: the initialisation flag is kept, and the header and `CheckToken` decide |
| Auth.IntendedDiffersOnlyOnMissingEmail | backend/app/utils/auth.py:136-160 | the endpoint as written and as intended differ exactly for a well-formed header whose token decodes without an email, where the first answers 401 `Token verification failed.` and the second 401 with the missing-email message |
| Auth.RejectionStatus | backend/app/utils/auth.py:84-160 | every rejection is a 401, except an initialisation failure, which is a 500; nothing else escapes |
| Auth.DisabledAcceptsAll | backend/app/utils/auth.py:101-104 | with authentication disabled, every request is `DEV_FAKE_USER_EMAIL`, default `dev@example.com`, whatever the header |
| Auth.AcceptedIff | backend/app/utils/auth.py:107-144 | with authentication on, a request is accepted as an email exactly when the header is `Bearer ` plus a non-empty token that decodes to that non-empty email |
| Auth.AuthState.constructor | backend/app/utils/auth.py:12 | the process starts uninitialised |
| Auth.AuthState.EnsureInitialized | backend/app/utils/auth.py:15-81 | the error and the new flag are `EnsureInitializedSpec` of the old flag |
| Auth.AuthState.VerifyBearerToken | backend/app/utils/auth.py:84-160 | the outcome and the new flag are `VerifyBearerSpec` (the endpoint as written) of the old flag |
| Mentoring.SortByIdDesc | backend/app/api/v1/endpoints/mentoring.py:43 | `ORDER BY id DESC`: a permutation in descending id order, strictly so when ids are distinct |
| Mentoring.ListMyApplications | backend/app/api/v1/endpoints/mentoring.py:40-46 | exactly the rows of the email, each as often as in the table, newest id first |
| Mentoring.ListingStrictlyDescending | backend/app/api/v1/endpoints/mentoring.py:43 | with the table's distinct ids, the listing's ids strictly decrease |
| Mentoring.ApplicationTable.constructor | backend/app/models/mentee_application.py:9 | an empty table whose first id is 1 |
| Mentoring.ApplicationTable.CreateApplication | backend/app/api/v1/endpoints/mentoring.py:21-32 | always appends one row holding the submitted fields unchanged, status `pending` and a fresh id; earlier rows are unchanged and ids stay distinct |
| Mentoring.ApplicationTable.List | backend/app/api/v1/endpoints/mentoring.py:35-46 | the listing of this table |
| Mentoring.CreatedListedFirst | backend/app/api/v1/endpoints/mentoring.py:21-46 | a new application heads its email's listing, and other emails' listings do not change |

## Left out

- File, spreadsheet and process I/O are not modelled. This covers `fs` reads and writes, `xlsx` parsing and writing, gray-matter front-matter parsing, the `exec` of i18next-parser, and the backup and prefix handling of `generatePostsFile`. Catalogs, sheet rows, directory listings and the files under `public/` are inputs. A sheet is taken to come back as written (cells are scalars and the key column is a string).
- JS property order puts integer-like keys first; the model keeps plain insertion order.
- String lengths are counted in characters, not UTF-16 code units.
- Catalog values that are objects with a prototype, or JSON numbers with fractions, are not modelled; numbers are integers.
- Keys that name `Object.prototype` members (`constructor`, `toString`, `__proto__` and the like) are outside the model, whether they are catalog keys, sheet keys or post categories. In JS, `obj[key]` also finds the inherited member, and an assignment to `__proto__` sets the prototype. `JsObject.Get` finds only entries that are present. Such a key changes the result of the lookups in `DEFAULT_IMAGES[category]` (update-posts.js:98, where `imageExists` then throws), `flattenedLocale[key] || ''` and `!flattenedLocale[key]` (translation-manager.js:100 and 229), `flatVi[key] || flatEn[key]` (create-translation-template.js:34), the cursor step `current[k] || {}` (translation-manager.js:47, translate.js:12), and the reduce in `flattenObject` (translation-manager.js:28).
- A catalog file whose top level is not an object is not modelled.
- `unflattenObject` and `flatToNested` throw a TypeError when a key walks through a primitive more than one level deep; that case is outside the model. A write into a primitive or into an array is a no-op in the model (LocaleJson `AssignAt` and `SetPath`). JS drops the first in sloppy mode but writes the second as an array element: `{"a": ["x", "y"], "a.0": "z"}` rebuilds `a` as `["z", "y"]`, where the model keeps `["x", "y"]`.
- FlatRoundTrip.FlattenUnflatten: the reverse round trip `flattenObject(unflattenObject(m))` is stated as a lookup equality (the same keys with the same values), not entry for entry. Rebuilding groups keys by their first segment, so the flattened order can differ from that of `m`.
- Translate.TemplatePipeline: only the English half of the template-to-catalog pipeline is proved to round-trip; the Vietnamese half falls back per key and is covered by `TranslationTemplate.ViFallback` and `Translate.ViValue` separately.
- Front-matter values other than strings (and string lists for `tags`) are not modelled.
- Post dates are an ordering key given as a function; `new Date` parsing, NaN dates and `toLocaleDateString` (today's date is an input string) are left out.
- JSX, styling, animation, and the page shells around the selection logic are not modelled.
- frontend/components/impact/ProjectFilter.js is not part of this model. It reads the props `activeFilter` and `onFilterChange` (ProjectFilter.js:3), while impact.js:74-77 passes `categories`, `activeCategory` and `onCategoryChange`. On the shipped page a filter click therefore calls an undefined function, `activeCategory` never leaves `all`, and the component renders its own fixed list of five filters instead of `Impact.Categories`. The Impact members describe impact.js's selection for any active category; only `all` is reachable as shipped.
- The 500 ms timer in library.js is an explicit `Tick`; the effect's cleanup is the pending flag being reset.
- The `asyncio.Lock` in the rate limiter and `run_in_threadpool` in the v1 endpoint are modelled sequentially.
- RateLimiter.WindowCap: the cap is stated as "no call allowed, or the count stays within the maximum"; the first case only matters for a negative maximum, where no call is allowed.
- The email pattern is an explicit scanner proved equal to a declarative description, not a regex engine.
- The pydantic `EmailStr` validation that runs before the endpoints (a 422) is not modelled.
- The `Subscriber` model file is not part of this model; a new subscriber is taken to be active, as reactivation implies.
- The Firebase SDK is reduced to its observable results: whether an app exists, which files exist, whether Application Default Credentials or `initialize_app` fail (with their messages), and what `verify_id_token` returns for a token. Logging is left out.
- The second check of the disable flag inside the initialisation `except` (auth.py:77) always agrees with the first (auth.py:29), since the environment is one input; it is not modelled as a separate branch.
- Python's `str.lower()` is modelled on A to Z only; no other character lowercases to the letters of `true`, so the disable check is exact.
- `created_at` and `updated_at` are not modelled: the database sets them.
- Mentoring.ApplicationTable.CreateApplication: a failing `db.commit()` (mentoring.py:30) is not modelled; the row is always added. The lookup of the latest existing application (mentoring.py:21-26) has no effect on the result and is left out.
- The listing's result when two rows share an id is not specified: the table's ids are distinct.
- NewsletterV1.AgreesWithV0: the endpoints are not proved equal for every input. When the reactivation commit fails they differ, and the lemma states that difference exactly.

## Findings

| source | as written | input that shows it | evidently intended | confidence | as-written member | corrected member |
|---|---|---|---|---|---|---|
| backend/app/utils/auth.py:136-160 | the 401 for a token without an email is raised inside the `try`, whose final `except Exception` catches it and raises 401 `Token verification failed.` instead | a token that verifies but whose decoded claims carry no `email` | the client receives 401 `Token is valid but missing email. Ensure email is verified in Firebase.` | high; not executed | Auth.MissingEmailDetailLost | Auth.CheckToken |

`Auth.CheckTokenAsWritten` is the `try` block as written. `Auth.MissingEmailDetailLost` proves that it never produces the missing-email message. `Auth.CheckToken` lets that 401 through. It agrees with the as-written block on every other verifier result. The endpoint as written (`Auth.VerifyBearerSpec`, run by `Auth.AuthState.VerifyBearerToken`) uses `Auth.CheckTokenAsWritten`; `Auth.VerifyBearerSpecIntended` composes `Auth.CheckToken` instead, and `Auth.IntendedDiffersOnlyOnMissingEmail` proves that the two differ on exactly the requests the finding names.
