# Report catalog of the HSNEJ web application

This project models, in Dafny, the logic of `api/index.js` that is not web
framework plumbing: how the report routes turn the names of Markdown files in
the report directory into report records, and what each route answers.

Reports are files named `<language>.<time>.<title>.md`; the title may contain
dots. The listing routes (`/port-list`, rendered with the `port-list` view, and
the legacy `/port`, rendered with the `port` view) keep the directory entries
that end in `.md`, remove the first `.md` from each name, split the rest on
`.`, and build one record per entry, in listing order. `/port/:id` splits the
id itself, without removing anything, and shows a one-record list. `/page`
decides between 400, 404, a redirect and rendering a template. The
`renderMarkdown` helper offered to templates falls back to the empty string
when a fragment does not exist.

Files:

- `wrappers.dfy`: `Option`, standing for JavaScript's `undefined`.
- `js_builtins.dfy` (module `JsBuiltins`): the JavaScript built-ins the source
  is written with — `endsWith`, `indexOf`, `replace` with a string pattern (only
  the first occurrence), `split` on one character, `join`, `filter`, and `map`
  with a callback that may throw — with the round trip between `split` and
  `join` and the characterisation of `filter`.
- `report_catalog.dfy` (module `ReportCatalog`): the report record, the
  file-name parser and the listing-to-records step.
- `routes.dfy` (module `Routes`): one function per route, returning an
  `Outcome`.

Inputs that stand for I/O: a directory is a function `Dir` from entry name to
`Missing | Unreadable | Readable(text)` (what `fs.existsSync` and
`fs.readFileSync` see); a directory listing is `Option<seq<string>>`, `None`
when `fs.readdir` fails; `toHtml` stands for `marked.parse`.

Behaviour of the code that the model states and proves:

- `replace('.md', '')` removes the first `.md` in a name, not the suffix.
  `en.md-guide.md` lists as language `en-guide`, time `md`, title empty
  (`StripMdInnerOccurrence`, `InnerOccurrenceMisparsed`). When `.md` occurs
  only as the suffix, the stem is the name without it (`StripMdSuffix`,
  `StripMdOfStem`), and then `/port/:id` and the listing agree
  (`ReportByIdMatchesListing`).
- `time` is `undefined` (here `None`) exactly when the stem has no dot; the
  title is empty when the stem has fewer than three parts (`ParseStem`).
- A failing `readFileSync` inside the listing throws inside the `fs.readdir`
  callback, which Express does not catch; the model answers `Crash` for it
  (`ListReports`). In `/port/:id` the same throw happens in the route handler
  itself, which Express turns into a 500 (`ServerError`, `ReportById`).
- The legacy `/port` route renders the list itself with the `port` view and
  does not redirect (`PortLegacy`); it answers as `/port-list` does apart from
  the view (`ListingRoutesAgree`). `/port/:id` also renders with the `port`
  view.

One modelling choice concerns directories: the `/page` route checks for the
template in `api/views` (the path is joined from the module's own directory
and `views`), while the view engine renders from the top-level `views`
directory. The model has one `views` input and takes it to be the directory
the existence check looks in.

## Model

| member | source | states |
|---|---|---|
| `JsBuiltins.IndexOf` | api/index.js:54 | the result is the first position at or after `from` where the pattern occurs, or None when it occurs nowhere there |
| `JsBuiltins.EndsWith` | api/index.js:52 | a string ends with a suffix exactly when it is some prefix followed by that suffix |
| `JsBuiltins.RemoveFirst` | api/index.js:54 | with no occurrence of the pattern the string is unchanged; otherwise it loses exactly the pattern's length, and the result is the string with its earliest occurrence cut out |
| `JsBuiltins.Split` | api/index.js:54 | splitting on `.` always gives at least one part, exactly one when there is no separator, no part contains the separator, and the first part is a prefix of the string |
| `JsBuiltins.SplitCount` | api/index.js:54 | a split has exactly one more part than the string has separators |
| `JsBuiltins.SplitAfterFirst` | api/index.js:54 | a separator-free head, a separator and a rest split into the head followed by the split of the rest |
| `JsBuiltins.SplitAfterTwo` | api/index.js:54 | two separator-free fields in front split off as the first two parts, followed by the split of the rest |
| `JsBuiltins.Join` | api/index.js:55 | an empty list joins to the empty string; the first part followed by the separator begins the join of two or more parts; when no part holds the separator, the join holds it exactly when there are at least two parts |
| `JsBuiltins.JoinSplit` | api/index.js:54-55 | joining the parts of a split with the separator gives back the original string |
| `JsBuiltins.SplitJoin` | api/index.js:54-55 | splitting the join of one or more separator-free parts gives back those parts |
| `JsBuiltins.Filter` | api/index.js:52 | every kept element satisfies the predicate and no more elements are kept than given |
| `JsBuiltins.MapOrThrow` | api/index.js:53-60 | a map whose callback may throw yields results exactly when the callback succeeds on every element, one result per element in order, result k the callback's value on element k |
| `JsBuiltins.FilterAppend` | api/index.js:52 | filtering a concatenation is the concatenation of the filtered parts, so order is kept |
| `JsBuiltins.FilterCounts` | api/index.js:52 | an element satisfying the predicate is kept exactly as often as it occurs; any other element is never kept |
| `JsBuiltins.FilterSelectsAtPositions` | api/index.js:52 | the k-th kept element is the input element at the k-th selected position |
| `JsBuiltins.FilterPositionsIncrease` | api/index.js:52 | the selected positions strictly increase, so kept elements keep their relative order |
| `JsBuiltins.FilterPositionsExact` | api/index.js:52 | a position is selected exactly when its element satisfies the predicate |
| `ReportCatalog.Keep` | api/index.js:73 | every kept directory entry ends in `.md` |
| `ReportCatalog.IsReportFile` | api/index.js:52 | a name is a report file exactly when `.md` occurs at its last three positions |
| `ReportCatalog.KeepIsOrderedSelection` | api/index.js:52 | the kept entries are exactly the `.md` entries of the listing, each with its multiplicity, at strictly increasing listing positions, and a position is kept if and only if its entry ends in `.md` |
| `ReportCatalog.StripMd` | api/index.js:54 | a name without `.md` is left as it is; a report file's stem is three characters shorter than its name |
| `ReportCatalog.StripMdRemovesFirst` | api/index.js:54 | stripping removes the first occurrence of `.md` wherever it is, and leaves the name three characters shorter |
| `ReportCatalog.StripMdSuffix` | api/index.js:75 | for a `.md` file whose only `.md` is the suffix, the stem is the name minus its last three characters |
| `ReportCatalog.StripMdOfStem` | api/index.js:54 | a stem with no `.md` in it, with `.md` appended, strips back to that stem |
| `ReportCatalog.StripMdInnerOccurrence` | api/index.js:54 | `en.md-guide.md` strips to `en-guide.md`: an inner `.md` is removed instead of the suffix |
| `ReportCatalog.InnerOccurrenceMisparsed` | api/index.js:54-55 | that file is listed with language `en-guide`, time `md` and an empty title |
| `ReportCatalog.Destructure` | api/index.js:54-55 | the language is the first part; the time is the second part and is undefined exactly when there is one part; fewer than three parts give an empty title; for dot-free parts the title holds a dot exactly when there are at least four parts |
| `ReportCatalog.ParseStem` | api/index.js:92-93 | language and time contain no dot, language is a prefix of the stem, time is absent exactly when the stem has no dot (then language is the whole stem), and the title is empty when there are fewer than three parts, that is, when the stem has fewer than two dots |
| `ReportCatalog.JoinDestructured` | api/index.js:54-55 | the destructured fields joined back with dots equal the dot-join of all the parts, for two parts and for three or more |
| `ReportCatalog.ReassembleStem` | api/index.js:75-76 | for a stem with a dot, `language.time.title` (three or more parts) or `language.time` (two parts) rebuilds the stem exactly, dotted titles included |
| `ReportCatalog.ParseStemOfFields` | api/index.js:92-93 | a stem assembled from a dot-free language, a dot-free time and any title parses back into exactly those fields |
| `ReportCatalog.SplitOfFields` | api/index.js:54 | such a stem splits into the language, the time, then the parts of the title |
| `ReportCatalog.ParseReportFileName` | api/index.js:54-55 | a file `<language>.<time>.<title>.md` with no inner `.md` is listed with exactly those three fields |
| `ReportCatalog.ReportOfFields` | api/index.js:54-60 | a record's HTML is the converted content; its language is a dot-free prefix of the stem; its time is undefined exactly when the stem has no dot and is dot-free otherwise |
| `ReportCatalog.Reports` | api/index.js:53-61 | records exist exactly when every kept file is readable; then there is one record per kept entry and record k is parsed from the stripped name of entry k with the HTML of that entry's content |
| `ReportCatalog.ExampleName` | api/index.js:54-55 | `en.2023-01-01.My.Report.md` parses to language `en`, time `2023-01-01`, title `My.Report` |
| `ReportCatalog.ExampleListing` | api/index.js:73-82 | a listing of `notes.txt` and that file yields exactly one record, with the converted body |
| `Routes.Page` | api/index.js:32-43 | a missing or empty name is a bad request whatever templates exist; otherwise a missing template is not found; otherwise `port` redirects to `/port-list` and no other name redirects; every other name renders its own template |
| `Routes.ListReports` | api/index.js:50-61 | the body both listing routes share: a failed directory read is a server error and nothing else is; otherwise an unreadable kept file crashes the callback; otherwise the view gets one record per kept entry, record k built from kept entry k |
| `Routes.PortLegacy` | api/index.js:48-67 | `/port` never redirects; a failed directory read is a server error and nothing else is; on a successful listing it crashes exactly when some kept file is unreadable and otherwise renders the `port` view with the records of the kept entries |
| `Routes.PortList` | api/index.js:69-84 | `/port-list` never redirects; a failed directory read is a server error and nothing else is; on a successful listing it crashes exactly when some kept file is unreadable and otherwise renders the `port-list` view with the records of the kept entries |
| `Routes.ListingRoutesAgree` | api/index.js:48-84 | the two listing routes render on the same inputs, with the same records, and crash on the same inputs |
| `Routes.NoReportFilesListsNothing` | api/index.js:71-73 | a listing with no `.md` entry renders an empty report list rather than an error, for the shared body and for both `/port` and `/port-list` |
| `Routes.ReportById` | api/index.js:86-98 | a missing `<id>.md` is not found, an unreadable one a server error, and a readable one renders the `port` view with exactly one record whose fields are parsed from the id itself, without stripping |
| `Routes.ReportByIdMatchesListing` | api/index.js:92-93 | for an id without `.md` in it, the record shown by id is the one the listing builds for `<id>.md` |
| `Routes.RenderMarkdown` | api/index.js:14-21 | a missing fragment gives the empty string, an existing readable one its HTML, and only an unreadable one fails |

## Left out

- Express application set-up, middleware, static file serving and response
  objects (api/index.js:7-13, 22): framework plumbing.
- The `/` route (api/index.js:25-30): it only renders the `index` template.
- Template rendering and the variables passed to templates (the query
  parameters forwarded by `/page`, `t`, `title`): the template engine is
  external. `Outcome` records only which view is rendered and, for report
  views, the report list.
- `marked.parse`: the Markdown converter is a parameter `toHtml`; nothing is
  proved about HTML structure.
- File-system access and `path.join`: directory contents, existence and
  readability are inputs. Path normalisation of an id holding `/` or `..` is
  not modelled; `<id>.md` is looked up as one entry name.
- Character encoding: names and contents are sequences of `char`; UTF-8
  decoding and JavaScript's UTF-16 code units are not modelled.
- `Routes.Page`: a `name` query parameter given as an array or object (which
  the query parser can produce) is not modelled; `name` is either absent or a
  string.
- `Routes.ListReports`: a `readFileSync` failure inside the listing is modelled
  as `Crash`; what the hosting platform then answers is not modelled.
- The asynchronous `fs.readdir` callback is one sequential step; no
  concurrency is modelled.
- The serverless handler and the commented-out local listener
  (api/index.js:101-110): deployment adapters.
