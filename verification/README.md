# rootsecops.dev — a Dafny model of the site's logic

rootsecops.dev is a Next.js portfolio site. It pulls its content from GitHub:
- blog posts and projects are Markdown files with front matter;
- class notes, coursework code and programs are directory trees.

This project models the logic around that content:
- the five-minute TTL cache in front of the blog list;
- the directory-listing normalisers and the full-tree search for notes, codes and programs;
- the blog and project list builders: Markdown filter, slugs, defaults, the automatic excerpt, newest-first order, lookup by slug;
- the client-side list shaping: the blog search filter, the home-page post limit and the "Read More" truncation;
- the state machines inside the `DecryptedText` and `AnimatedLogo` components;
- the navigation bar's link rewriting and scroll spy;
- the contact-form rules, the e-mail format pre-check and the parameter dispatch of `GET /api/academics`.

Everything is a pure function. Inputs replace everything outside the site's own code:
- the clock: `now`, or a `Clock` holding both the milliseconds and the ISO text;
- GitHub's replies: a status and a body, a contents response, or a recursive tree;
- each downloaded and front-matter-parsed file: a `Document`;
- `Buffer` decoding, `gray-matter` and `decodeURIComponent` (each of which may fail), `Math.random`, the DOM measurements and the language model's verdict: function parameters.

Modules follow the source files:

| module | source |
|---|---|
| `Cache` | `src/lib/cache.ts` |
| `Listing` (shared by `Notes`, `Codes`, `Programs`) | the normalise/sort/search pattern |
| `Remote` | the `fetchFromGitHub` status classification |
| `Content` | front matter, slugs, the Markdown filter |
| `Blogs`, `Projects` | the list builders |
| `BlogsPage`, `BlogSection`, `ReadMore` | client-side list shaping |
| `DecryptedText`, `AnimatedLogo`, `Navbar` | component state machines |
| `Contact`, `EmailFlow`, `AcademicsRoute` | validators and dispatch |

`Opt`, `Seqs`, `Sorting` and `Text` hold the JavaScript built-ins the code relies on:
- `Array.prototype.filter`/`map`/`find`;
- a stable sort;
- `toLowerCase`, `includes`, `trim`, `startsWith`, `split('/').pop()`.

Modelling choices:
- Strings are sequences of Unicode scalar values (code points). JavaScript strings are UTF-16 code units, so lengths and indices agree only on text without astral characters such as emoji.
- `localeCompare` is modelled as lexicographic order on code points (`Listing.NameLe`), proved to be a total order.
- `toLowerCase` is ASCII lower-casing.
- JavaScript's `\s` and `trim()` use exactly the ECMAScript white-space and line-terminator characters (`Text.IsSpace`).
- Dates are integer milliseconds. An unparseable front-matter date has no time value (`Content.DateValue.time == None`).
- An insertion sort stands in for `Array.prototype.sort`. Both are stable. The comparators are proved to be total preorders, and the sort is proved to return a sorted permutation of its input.

In `AnimatedLogo`, a typing tick on a complete word schedules the switch to deleting once more. The model counts these pending switches. `AnimatedLogo.StaleSwitchSkipsNextWord` shows the consequence: for a one-character word, the second switch fires on the next word, which is skipped. Whether that happens in the browser depends on timer delays, which are not modelled.

## Model

| member | source | states |
|---|---|---|
| Cache.Get | src/lib/cache.ts:11-21 | A read yields the data iff the key is present and younger than 300000 ms. An expired entry is removed. No other key is touched. |
| Cache.Set | src/lib/cache.ts:23-29 | Writing adds the key and leaves every other entry as it was. |
| Cache.GetAfterSet | src/lib/cache.ts:13-14 | A read at the instant of a write returns the value just written. |
| Cache.ExpiredOrMissingIsAbsent | src/lib/cache.ts:9-20 | A missing key, or an entry at least 300000 ms old, reads as null. |
| Cache.ExpiredReadEvicts | src/lib/cache.ts:17-19 | An expired read deletes the key, so any later read also finds nothing. |
| Cache.FreshReadKeepsStore | src/lib/cache.ts:12-15 | A fresh read leaves the map unchanged. |
| Cache.SetOverwrites | src/lib/cache.ts:24-28 | A write replaces any earlier value, and the timestamp becomes `now`. |
| Cache.OtherKeysUntouched | src/lib/cache.ts:12-28 | Reading or writing one key never changes another key's presence or entry. |
| Cache.ReplayTracks | src/lib/cache.ts:11-29 | After a chronological history of reads and writes, each present key holds its last write. A last write that has been evicted is expired. |
| Cache.ReadServesLastFreshWrite | src/lib/cache.ts:11-29 | Over any chronological history, a read returns the key's last written value iff that write is younger than the TTL, and null otherwise. |
| Listing.NameLeTotal | src/lib/notes.ts:64 | The name order stands in for `localeCompare`. It is total. |
| Listing.NameLeTransitive | src/lib/notes.ts:64 | The name order is transitive. |
| Listing.NameLeAntisymmetric | src/lib/notes.ts:64 | The name order is antisymmetric. |
| Listing.ItemLeIsTotalPreorder | src/lib/notes.ts:61-65 | The "directories first, then by name" comparator is a total preorder, so sorting by it is well defined. |
| Listing.ToItems | src/lib/notes.ts:53-59 | Each raw entry maps to one item at the same position, with the route prefix added to its path. |
| Listing.Normalise | src/lib/notes.ts:52-70 | A non-array response gives `[]`. Otherwise the output is a permutation of the mapped entries. Each output has the name, kind and URL of an input entry and the prefixed path of that entry. No file precedes a directory. Same-kind entries are in name order. |
| Listing.NormaliseStaysUnderPrefix | src/lib/notes.ts:53-59 | Every listed item's path starts with the route prefix. Without download URLs in the repository, no item has one. |
| Listing.DirectoriesThenFiles | src/lib/notes.ts:61-65 | Some split point has every directory before it and every file after it. |
| Listing.Search | src/lib/notes.ts:118-161 | An empty query or a failed tree fetch gives `[]`. Otherwise an item is in the result iff it is the hit for some tree entry whose lower-cased path contains the lower-cased query. |
| Listing.SearchSelectsMatchesInOrder | src/lib/notes.ts:142-153 | The results are exactly the matching tree entries, in tree order, each mapped to its hit. |
| Listing.SearchResultShape | src/lib/notes.ts:145-151 | A result is named by the last segment of its path. Its path is the prefix plus the tree path. It is a directory iff the node type is `tree`. |
| Listing.SearchStaysUnderPrefix | src/lib/notes.ts:145-151 | Every result's path starts with the route prefix. It has a download URL iff the repository hands them out. |
| Listing.TruncationOnlyWarns | src/lib/notes.ts:136-138 | A truncated tree gives the same results as a complete one. |
| Listing.EmptyQueryNeedsNoTree | src/lib/notes.ts:119 | An empty query answers `[]` whatever the remote tree is. |
| Notes.GetNotes | src/lib/notes.ts:42-80 | Every response other than a directory listing, including a 404 or any other error, gives `[]`. A listing gives a permutation of its entries under `academics/classnotes/`. |
| Notes.SearchNotes | src/lib/notes.ts:118-161 | An empty query gives `[]`. Every result lies under `academics/classnotes/` and carries a download URL. |
| Notes.GetNoteContent | src/lib/notes.ts:82-115 | Content exists iff the response is a file object with both content and encoding, the decoder accepts the encoding and the front matter parses. It then carries the parsed body, the parsed front matter and the file's name and URL. Everything else is null. |
| Notes.FailedDecodeIsNull | src/lib/notes.ts:93-95 | A decoder or `gray-matter` failure on a file object reads as null. |
| Codes.GetAllCodes | src/lib/codes.ts:33-70 | A non-directory response or an error gives `[]`. A listing gives a permutation of its entries under `academics/codes/`, without download URLs. |
| Codes.SearchCodes | src/lib/codes.ts:73-115 | An empty query or a failed search gives `[]`. Results lie under `academics/codes/` and have no download URL. |
| Programs.GetAllPrograms | src/lib/programs.ts:35-78 | A non-directory response or an error gives `[]`. Otherwise the result has the same length as the entries and is a permutation of them, with paths unprefixed. |
| Remote.FetchFromGitHub | src/lib/blogs.ts:27-57 | A 404 gives null. A 2xx status with a well-formed body gives that body. Any other status, or a malformed body, throws. |
| Remote.ListedFiles | src/lib/blogs.ts:67-72 | A file list exists iff the reply is a 2xx JSON array. |
| Content.OrElse | src/lib/blogs.ts:92 | JavaScript `\|\|` on a front-matter string: a missing or empty value falls back to the default. |
| Content.Slug | src/lib/blogs.ts:91 | The slug of a `.md` file plus `.md` is the file name. Other names are unchanged. |
| Content.SlugInjective | src/lib/blogs.ts:91 | Two Markdown files with the same slug have the same name. |
| Content.MarkdownFiles | src/lib/blogs.ts:74-75 | Exactly the files whose names end in `.md` are kept. |
| Text.Trim | src/lib/blogs.ts:88 | `trim()` returns the slice between the leading and trailing white space, and does not start or end with white space. |
| Text.LastSegment | src/lib/notes.ts:145 | `split('/').pop()` contains no `/`, is a suffix of the path, and is preceded by `/` unless it is the whole path. |
| Text.ContainsIsInfix | src/lib/notes.ts:143 | `includes` holds iff the text splits around the needle. |
| Seqs.FilterMapSelectsKept | src/lib/notes.ts:142-153 | `filter` then `map` keeps exactly the selected positions, in increasing order. |
| Seqs.FilterMapMembership | src/app/blogs/page.tsx:59-63 | An element is in the result iff it is the image of some kept element. |
| Seqs.AllSome | src/lib/blogs.ts:100 | The combined outcome succeeds iff every element succeeds. Then it holds each element's value at the element's position. |
| Seqs.Find | src/lib/blogs.ts:116 | `find` returns an element satisfying the predicate with no such element before it, or nothing iff none satisfies it. |
| Sorting.SortSorts | src/lib/blogs.ts:103 | Under a total preorder the sort returns a sorted permutation of its input. |
| Blogs.AutoExcerpt | src/lib/blogs.ts:88 | The automatic excerpt is a slice of the first 150 characters, followed by `...`, at most 153 characters long. Only white space is dropped around the slice, and the slice is empty or neither starts nor ends with white space. |
| Blogs.MakePost | src/lib/blogs.ts:88-96 | A post fails iff its front-matter date is non-empty and not a valid date. A missing or empty date gives the current time. The title is never empty, and the slug plus `.md` is the Markdown file name. |
| Blogs.EmptyDateTakesNow | src/lib/blogs.ts:93 | `date: ''` is falsy: the post is built exactly as without a date, with the current time. |
| Blogs.BuildPosts | src/lib/blogs.ts:74-100 | Building succeeds iff every file was downloaded and has no invalid non-empty date. Then each post is built from the file at the same position. |
| Blogs.FetchPosts | src/lib/blogs.ts:66-106 | A list comes back iff the reply is a 2xx array and every Markdown file builds into a post. The list is then a newest-first permutation of those posts. |
| Blogs.GetAllPosts | src/lib/blogs.ts:60-111 | A fresh cache entry is returned as is. Otherwise a fetched list is returned and cached with the current time. A failure returns `[]` and leaves the key uncached. Other cache keys are untouched. |
| Blogs.GetPostBySlug | src/lib/blogs.ts:113-121 | Returns the first listed post with the slug, or null iff no listed post has it. |
| Blogs.CacheHitSkipsFetch | src/lib/blogs.ts:61-64 | On a cache hit the result does not depend on the remote reply. |
| Blogs.SecondCallWithinTtlHitsCache | src/lib/blogs.ts:61-64 | After a successful fetch, a call within five minutes returns the same posts without fetching. |
| Blogs.PostsComeFromMarkdownFiles | src/lib/blogs.ts:74-100 | There is one post per Markdown file. Each post's slug plus `.md` names a listed Markdown file. |
| Blogs.PostDefaults | src/lib/blogs.ts:88-95 | Without front matter the title is `Untitled Post`, the tags are `[]`, the date is now and the excerpt is the automatic one. |
| Blogs.InvalidDateEmptiesList | src/lib/blogs.ts:93 | One Markdown file with a non-empty, unparseable date makes `toISOString` throw, so the whole list is `[]`. |
| Projects.MakeProject | src/lib/projects.ts:62-73 | A project's slug strips `.md`. Its title and image hint are never empty. A non-empty date is kept as given. A missing or empty one becomes the current ISO time. |
| Projects.EmptyDateTakesNow | src/lib/projects.ts:71 | `date: ''` is falsy: the project is built exactly as without a date, dated now. |
| Projects.BuildProjects | src/lib/projects.ts:52-76 | Building succeeds iff every file was downloaded. Then each project is built from the file at the same position. |
| Projects.NewerFirstIsTotalPreorder | src/lib/projects.ts:77 | The newest-first comparator is a total preorder. |
| Projects.GetAllProjects | src/lib/projects.ts:43-83 | A null, non-array or failed listing gives `[]`. Otherwise the result is a newest-first permutation of the projects of the Markdown files. |
| Projects.GetProjectBySlug | src/lib/projects.ts:85-88 | Returns the first project with the slug, or null iff none has it. |
| Projects.ProjectDefaults | src/lib/projects.ts:64-71 | Without front matter: title `Untitled Project`; description and image `''`; image hint `project image`; tags `[]`; date the current ISO time. |
| BlogsPage.GetPosts | src/app/blogs/page.tsx:18-28 | A non-ok response or a thrown fetch gives `[]`. An ok response gives its posts. |
| BlogsPage.FilteredPosts | src/app/blogs/page.tsx:57-64 | An empty term keeps all posts. Otherwise a post is kept iff the lower-cased term occurs in its lower-cased title, in its space-joined tags, or in its excerpt. |
| BlogsPage.FilteredKeepsOrder | src/app/blogs/page.tsx:59-63 | The filtered list is an order-preserving selection of exactly the matching posts. |
| BlogsPage.TermAcrossAdjacentTagsMatches | src/app/blogs/page.tsx:61 | The term `a b` matches a post tagged `a` and `b`. |
| BlogsPage.Render | src/app/blogs/page.tsx:133-192 | The spinner shows iff loading. After loading, "No Results" shows iff no post matches the term, or there are no posts and no term. |
| BlogSection.ShownPosts | src/components/sections/BlogSection.tsx:56-60 | Off the home page all posts are shown. On it, the first min(limit, n) posts are shown, with limit 3 on mobile and 4 otherwise. The shown list is always a prefix. |
| BlogSection.Render | src/components/sections/BlogSection.tsx:62-113 | The section is hidden iff on the home page with no posts. "View All Posts" appears iff the home page hides some posts, and then exactly `limit` are shown. |
| ReadMore.Render | src/components/ui/ReadMore.tsx:12-37 | Text no longer than the limit is shown plainly, without a button. Longer text, while truncated, shows the first `maxLength` characters plus `...` under "Read More". Expanded, it shows the full text under "Read Less". |
| ReadMore.ToggleTwiceRestores | src/components/ui/ReadMore.tsx:19-21 | Toggling twice gives back the same display. |
| ReadMore.RenderAsCalled | src/components/ui/ReadMore.tsx:15-26 | Without a `maxLength` the button is always offered, and the truncated text is the whole text plus `...`. |
| ReadMore.OmittedMaxLengthNeverShowsPlainText | src/app/blogs/page.tsx:113 | As the pages call it, every excerpt starts as itself plus `...` under "Read More", even an empty one. |
| ReadMore.GivenMaxLengthShowsShortTextPlain | src/components/ui/ReadMore.tsx:13-26 | With a length given, the initial display is the plain text for short text and the cut text plus `...` for long text. |
| DecryptedText.NextIndex | src/components/ui/DecryptedText.tsx:44-70 | `start` gives the revealed count. `end` gives length − 1 − count. `center` returns a hidden in-range index, and −1 only when every index is revealed. |
| DecryptedText.LowestUnrevealed | src/components/ui/DecryptedText.tsx:62-65 | Returns the lowest hidden index, or −1 iff none is hidden. |
| DecryptedText.CenterCandidatesDistinct | src/components/ui/DecryptedText.tsx:52-57 | The first `length` parity-chosen centre candidates (middle + offset, or middle − offset − 1) are distinct in-range positions. |
| DecryptedText.CenterFollowsCandidates | src/components/ui/DecryptedText.tsx:51-61 | Revealing from the centre always takes the parity candidate and never falls back. |
| DecryptedText.ScrambleRandom | src/components/ui/DecryptedText.tsx:104-111 | With a non-empty alphabet: same length; spaces and revealed positions equal the original; other positions come from the alphabet. |
| DecryptedText.Shuffle | src/components/ui/DecryptedText.tsx:89-92 | Fisher–Yates with any random choices yields a permutation. |
| DecryptedText.ScrambleOriginal | src/components/ui/DecryptedText.tsx:77-102 | Same length. Spaces and revealed positions are kept. The hidden positions hold a permutation of the hidden non-space characters. |
| DecryptedText.ScrambleOfRevealedIsText | src/components/ui/DecryptedText.tsx:98-108 | With every position revealed, either scramble returns the original text. |
| DecryptedText.Tick | src/components/ui/DecryptedText.tsx:119-166 | A stopped animation does not change. A non-sequential tick reveals nothing. Stopping always restores the original text. |
| DecryptedText.SequentialTickRevealsOne | src/components/ui/DecryptedText.tsx:123-149 | With a position still hidden, a tick adds exactly one new in-range index. It stops, showing the text, exactly when that was the last. |
| DecryptedText.SequentialProgress | src/components/ui/DecryptedText.tsx:120-154 | After n ≤ length ticks from a fresh start, exactly n in-range positions are revealed and scrambling continues while n < length. |
| DecryptedText.SequentialRunCompletes | src/components/ui/DecryptedText.tsx:145-154 | After `length` ticks (one for empty text) every index is revealed, scrambling has stopped and the original is shown. |
| DecryptedText.NonSequentialRun | src/components/ui/DecryptedText.tsx:155-163 | Non-sequential ticks count iterations and reveal nothing. Scrambling stops, with the original shown, when the count reaches `maxIterations`. |
| DecryptedText.Begin | src/components/ui/DecryptedText.tsx:236-239 | Starting clears the revealed set and the counter and sets scrambling. |
| DecryptedText.HoverOut | src/components/ui/DecryptedText.tsx:167-174 | Leaving while scrambling resets: original text, nothing revealed, counter zero. Otherwise nothing changes. |
| AnimatedLogo.Substring | src/components/ui/AnimatedLogo.tsx:59-61 | `substring(0, end)` clamps the end to the string and gives a prefix. |
| AnimatedLogo.Step | src/components/ui/AnimatedLogo.tsx:53-72 | A step leaves the text a prefix of the current word. `loopNum` changes only by one, when deleting reaches the empty text. |
| AnimatedLogo.Tick | src/components/ui/AnimatedLogo.tsx:56-57 | With an empty word list the step fails. |
| AnimatedLogo.DelayElapsed | src/components/ui/AnimatedLogo.tsx:67 | A pending switch turns deleting on. Text and `loopNum` are kept. |
| AnimatedLogo.EventsPreserveValid | src/components/ui/AnimatedLogo.tsx:56-71 | Both events keep the shown text a prefix of `texts[loopNum mod n]`. |
| AnimatedLogo.TypingStep | src/components/ui/AnimatedLogo.tsx:61-67 | Typing appends exactly the word's next character. Completing the word schedules a switch and keeps `loopNum`. |
| AnimatedLogo.DeletingStep | src/components/ui/AnimatedLogo.tsx:60-71 | Deleting drops exactly one character, clamped at empty. Reaching empty switches to typing with `loopNum + 1`. |
| AnimatedLogo.TypingSpellsWord | src/components/ui/AnimatedLogo.tsx:61-67 | n typing steps from empty show the word's first n characters. |
| AnimatedLogo.DeletingErasesWord | src/components/ui/AnimatedLogo.tsx:60-71 | n deleting steps remove the last n characters, and erasing everything moves to the next word. |
| AnimatedLogo.FullCycleMovesToNextWord | src/components/ui/AnimatedLogo.tsx:56-71 | Typing a word, the pause and deleting it leave an empty text, typing, on the next word cyclically. |
| AnimatedLogo.StaleSwitchSkipsNextWord | src/components/ui/AnimatedLogo.tsx:65-71 | A second switch scheduled on a one-character word makes the next word's first step skip it. |
| Navbar.LinkHref | src/components/layout/Navbar.tsx:128-134 | Off the home page a `#` link becomes `/` + link. Every other link is unchanged. |
| Navbar.NavLinksOffHome | src/components/layout/Navbar.tsx:12-18 | Off the home page the About anchor becomes `/#about`. The Projects and Blog routes stay. |
| Navbar.ScanFindsLastReached | src/components/layout/Navbar.tsx:82-90 | The handler's loop ends on the last id whose element exists and whose top is within the scroll position plus 150, or on its default when none is reached. |
| Navbar.ActiveSection | src/components/layout/Navbar.tsx:81-95 | The active section is one of the seven home-page ids. Within 50 px of the bottom it is `contact`. |
| Navbar.ActiveIsLastReached | src/components/layout/Navbar.tsx:20-95 | Away from the bottom the active section is the last reached section in page order, or `home` when none is reached. |
| Navbar.Scroll | src/components/layout/Navbar.tsx:74-104 | Within 50 ms of the last handled scroll, or without a listener, nothing changes. Otherwise the active section is recomputed and the hash becomes `#` + section. The history entry is replaced iff that hash differs from the current one. |
| Navbar.Enter | src/components/layout/Navbar.tsx:61-69 | Off the home page the pathname is active, no listener is installed, and a present hash is cleared. |
| Navbar.OffHomeIgnoresScrolling | src/components/layout/Navbar.tsx:62-69 | Off the home page, scrolling changes nothing. |
| Navbar.ThrottledScrollIsIgnored | src/components/layout/Navbar.tsx:75-79 | A scroll less than 50 ms after a handled one changes nothing. |
| Navbar.SameSectionDoesNotReplaceTwice | src/components/layout/Navbar.tsx:101-103 | Scrolling again onto the same section does not replace the history entry. |
| Contact.Errors | src/components/sections/ContactSection.tsx:18-25 | A field is reported iff its rule fails. Names need at least 2 ASCII letters and nothing else. The subject needs at least 3 characters, all letters or white space. The message needs at least 10 characters. The email check is external. |
| Contact.RuleExamples | src/components/sections/ContactSection.tsx:19-23 | `Jo` is a name, but `J`, `Jo3` and `O'Brien` are not. `Hi there` is a subject, but `Hi` and `Q&A` are not. Ten characters make a message; nine do not. |
| Contact.Submit | src/components/sections/ContactSection.tsx:37-57 | A request goes out iff the form is valid and the honeypot is empty. The form is cleared only after an ok response; otherwise it is kept. A toast appears iff a request went out. |
| Contact.HoneypotBlocksSending | src/components/sections/ContactSection.tsx:38 | A filled honeypot never sends and keeps the form. |
| Contact.SendOutcomeDecidesReset | src/components/sections/ContactSection.tsx:34-52 | A successful send resets all six fields to the empty string. A failed or thrown send leaves them untouched. |
| EmailFlow.FormatOkIffSplits | src/ai/flows/validate-email-flow.ts:43 | The format holds iff the address is `x@y.z` with x, y and z non-empty and free of white space (both directions). |
| EmailFlow.FormatExamples | src/ai/flows/validate-email-flow.ts:43-45 | Any white space, or no `@`, fails. `a@b@c.d` passes. |
| EmailFlow.CheckFormat | src/ai/flows/validate-email-flow.ts:43 | A one-pass scan decides the format exactly. |
| EmailFlow.Validate | src/ai/flows/validate-email-flow.ts:41-50 | A malformed address gets `{isValid: false, reason: 'Invalid email format.'}`. A well-formed one gets the model's verdict. |
| EmailFlow.ModelOnlySeesWellFormed | src/ai/flows/validate-email-flow.ts:44-49 | Two models can disagree on the result only for a well-formed address. |
| AcademicsRoute.DecodeTwice | src/app/api/academics/route.ts:9 | The path is percent-decoded exactly twice, and fails if either step fails. |
| AcademicsRoute.Get | src/app/api/academics/route.ts:5-33 | Status 500 `Failed to fetch notes` iff decoding fails; the only other error is 404 `Note content not found`. Content or 404 only come from `getContent` without a query. |
| AcademicsRoute.MissingPathIsEmpty | src/app/api/academics/route.ts:8 | A missing `path` behaves as `''`. |
| AcademicsRoute.QueryTakesPrecedence | src/app/api/academics/route.ts:13-16 | A non-empty query answers with the search result under `notes`, whatever the action. |
| AcademicsRoute.GetContentDispatch | src/app/api/academics/route.ts:18-27 | `getContent` with a non-empty decoded path gives the note or 404. With an empty path it gives the root listing. |
| AcademicsRoute.ListingUsesDecodedPath | src/app/api/academics/route.ts:26-27 | Otherwise the answer lists the decoded path. Anything but a directory lists nothing. |

## Left out

- HTTP, Octokit, the request headers and the throttle/retry callbacks are not modelled. Every remote result is an input value.
- The `Promise.all` fan-out of per-file downloads is modelled as a sequential map. If any download fails, the builder returns `[]`, as when the promise rejects.
- `gray-matter`, `Buffer` decoding and `decodeURIComponent` are function parameters that may fail. For blog posts and projects, a download or parse failure is the `None` of the file's fetched document.
- Locale-aware `localeCompare` and Unicode `toLowerCase` are not modelled. The model uses code-point order and ASCII lower-casing.
- UTF-16 lengths are not modelled: `substring(0, 150)` in the excerpt, the message's `min(10)`, `ReadMore`'s `length`/`slice` and the logo's `substring` count code points here. A character outside the Basic Multilingual Plane counts once, where JavaScript counts two units.
- Fractional scroll positions are not modelled: `Navbar.Page` holds `scrollY`, the heights and the section offsets as integers, where the browser reports `window.scrollY` as a fractional number.
- Date parsing, `toISOString` and `Date.now` are not modelled. They are replaced by integer milliseconds, an ISO text supplied with the clock, and one clock instant per call.
- Sorting.SortSorts: stability is not proved. Among posts or projects with equal dates, the model keeps listing order, as an ES2019 engine does, but no lemma states it.
- Projects.GetAllProjects: projects whose date does not parse are sorted after all dated ones. In the source the comparator yields NaN for them, and the resulting order is implementation-defined.
- Listing.Normalise: entry types other than `file` and `dir` (symlinks, submodules) are not modelled. For them the source's comparator is not an order.
- Timers are not modelled: `setInterval`, `setTimeout`, the animation speeds and delays, and React's re-render scheduling. Ticks and timeouts are explicit events. `AnimatedLogo.TickDelay` records only which delay applies.
- DOM measurement, `IntersectionObserver`, `history.replaceState` and the browser window are not modelled. They appear as inputs or as counters.
- `Math.random` is an oracle. A random index is `rand(i)` reduced modulo the range.
- The `email()` check of the contact schema is an input flag. The Formspree request is an input outcome.
- The Gemini prompt is a function from address to verdict.
- The thin API routes for blogs, projects, programs, codes and notes are not modelled. They are one-call wrappers around the modelled functions.
- Presentation components, static sections, layouts and configuration are not modelled.
- The spinner's inner `DecryptedText` text and the toast contents beyond their kind are not modelled.

## Findings

| source | as written | input that shows it | evidently intended | confidence | as-written member | corrected member |
|---|---|---|---|---|---|---|
| src/app/blogs/page.tsx:113 | `ReadMore` is rendered without its required `maxLength` prop (type errors are ignored in the build). `text.length <= undefined` is false and `slice(0, undefined)` keeps everything. | Any excerpt, e.g. `""`, renders as `...` under a "Read More" button, and expanding only removes the `...`. | Short excerpts shown plainly; long ones cut at `maxLength` with a toggle. | medium, not executed | ReadMore.OmittedMaxLengthNeverShowsPlainText | ReadMore.GivenMaxLengthShowsShortTextPlain |
