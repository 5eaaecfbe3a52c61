# Portfolio publisher: the `/add-project` handler

A Dafny model of the one request handler of the portfolio server
(`server.js`). A client posts a form with a title, two descriptions, a page
file name, optional GitHub and Itch.io links and an optional image. The
handler then does four things:

- it names the uploaded image `<Date.now()>-<original name>`;
- it builds the two link buttons and the page's image path;
- it renders the project page by replacing six `{{...}}` placeholders of a
  template, one after the other;
- it appends a record to the catalog `projects.json`, treating a missing
  file as an empty list.

The model is pure except where the source mutates state: the catalog's
array and its `push` become a small class, and the handler becomes a
method. Disk reads become inputs (`template`, `stored`). Disk writes become
outputs (`page`, `pagePath`, `catalog`). `Date.now()` is the parameter
`now`, and `marked.parse` is the function parameter `markdown`.

Modules, leaf first:

- `Wrappers`: Option and Result.
- `Text`: literal global replacement (`ReplaceAll`). It is characterised by
  `Split`/`Join`, which is the exact sense in which the `/g` replacement is
  global.
- `Template`: the six placeholders, the chained substitution `Render`, and
  the lemmas that pin down what chaining does.
- `Request`: the form and the upload.
- `Fragments`: the decimal timestamp, the stored image name and its inverse
  parse, the image path, and the two buttons with their inverse `LinkOf`.
- `Catalog`: the record, the `ProjectList` array with `Push`, the append
  step and the catalog after a run of submissions.
- `Publish`: the handler `AddProject`.

Behaviour of the code that the model makes explicit:

- Substitution is chained, not a single pass. Six `.replace` calls run one
  after the other, so a later placeholder inside an earlier value is
  expanded (`Play {{ITCH_BUTTON}} now` as a title shows the Itch.io
  button: `LaterPlaceholderInValueExpands`, `TitleNamingItchButton`). The
  same or an earlier placeholder inside a value stays literal
  (`EarlierPlaceholderInValueStays`).
- A record without an image does not leave its image empty: it names
  `img/projects/null`, while the page gets `""` (`RecordImageVersusPage`).
- A placeholder can survive rendering even when no value holds it:
  deleting `{{TITLE}}` from `{{TI{{TITLE}}TLE}}` leaves `{{TITLE}}`
  (`TitleCanReform`). None survives when the template's only braces are
  those of the six placeholders and no value holds a brace
  (`RenderLeavesNoPlaceholder`). Such a template renders chunk by chunk,
  each placeholder becoming its fill and all other text kept
  (`RenderChunked`). When the fills are themselves brace-free text and
  placeholders, the page is still each chunk rendered on its own, so a
  placeholder inside a fill is expanded in place (`RenderChunkedValues`,
  `ValueThenLaterPlaceholder`, `TitleThenItchButton`).
- Each `/g` replacement replaces every occurrence its left-to-right scan
  meets, and resumes after it (`ReplaceAllIsJoin`, `JoinSplit`,
  `SplitPiecesLackToken`). An occurrence the scan skips must overlap one it
  replaced. Two occurrences of a `{{...}}` placeholder never overlap
  (`PlaceholdersDoNotOverlap`), so for the six placeholders every
  occurrence is replaced.
- No value is sanitised. The long description always goes through
  `marked.parse`, and the other values are inserted as they are.

## Model

| member | source | states |
|---|---|---|
| Text.ReplaceAll | server.js:45-50 | one `.replace(/TOKEN/g, value)`: a left-to-right scan that copies a character where no occurrence starts, and replaces an occurrence that starts where it stands and resumes after it, never rescanning the value; characterised by `ReplaceAllIsJoin`, `JoinSplit` and `SplitPiecesLackToken` |
| Text.ReplaceAllWithoutToken | server.js:45-50 | replacing a token that does not occur in the text leaves the text unchanged |
| Text.Split | server.js:45-50 | the first piece between replaced occurrences is a prefix of the text |
| Text.JoinSplit | server.js:45-50 | joining the pieces with the token gives back the text, so the pieces and the replaced occurrences cover it |
| Text.ReplaceAllIsJoin | server.js:45-50 | global replacement equals the pieces joined with the value, as in `split(tok).join(v)` |
| Text.SplitPiecesLackToken | server.js:45-50 | no piece left between replaced stretches contains the token: every occurrence the scan meets is replaced, and one it skips overlaps a replaced one |
| Text.ReplaceAllLacksChar | server.js:45-50 | a character absent from the value and from the text with the token deleted is absent from the result |
| Text.ReplaceAllClearsToken | server.js:45-50 | no occurrence of the token remains when one of its characters is absent from the value and from the text with the token deleted |
| Text.SkipPrefix | server.js:45-50 | text before the first occurrence is copied unchanged |
| Text.ReplaceAllSelf | server.js:45-50 | the token alone becomes exactly the value |
| Template.TokensAreDistinctPlaceholders | server.js:45-50 | the six tokens are distinct `{{NAME}}` placeholders |
| Template.PlaceholderNesting | server.js:45-50 | a placeholder never occurs inside a different one |
| Template.PlaceholdersDoNotOverlap | server.js:45-50 | two occurrences of `{{...}}` placeholders never overlap unless they are the same occurrence, so the scan meets every occurrence of a placeholder |
| Template.BraceFreeLacksPlaceholder | server.js:45-50 | text without braces holds no placeholder |
| Template.ReplaceAllBraceFreeSuffix | server.js:45-50 | brace-free text after the scanned text is copied unchanged by a placeholder's replacement |
| Template.Substitute | server.js:44-50 | the chained `.replace` calls, each on the previous call's result; characterised by `SubstituteAtToken`, `SubstituteInContext` and `SubstituteChunks` |
| Template.Render | server.js:44-50 | the six replacements in source order; characterised by `RenderPlaceholder`, `RenderInContext` and `RenderChunked` |
| Template.SubstituteWithoutTokens | server.js:44-50 | text holding none of the tokens passes through a substitution chain unchanged |
| Template.SubstituteAtToken | server.js:44-50 | the k-th placeholder becomes its value and then only the later replacements act on it |
| Template.SubstituteLaterToken | server.js:44-50 | placeholder j, met by the replacements after an earlier one, becomes what it becomes in the whole chain |
| Template.SubstituteInContext | server.js:44-50 | brace-free text on either side of substituted text is kept; the replacements act on the middle alone |
| Template.RenderWithoutPlaceholders | server.js:44-50 | a template with none of the six placeholders is returned unchanged |
| Template.RenderPlaceholder | server.js:44-50 | the k-th placeholder renders as its value, exposed only to the replacements after it, in the order TITLE, SHORT_DESC, LONG_DESC, IMAGE_PATH, GITHUB_BUTTON, ITCH_BUTTON |
| Template.LaterPlaceholderInValueExpands | server.js:44-50 | a later placeholder inside an earlier value, between brace-free text, is expanded exactly as that placeholder is in the template |
| Template.EarlierPlaceholderInValueStays | server.js:44-50 | a value holding the same or an earlier placeholder between brace-free text reaches the page unchanged |
| Template.ItchButtonVerbatim | server.js:50 | the Itch.io button, substituted last, reaches the page verbatim |
| Template.RenderInContext | server.js:44-50 | a placeholder with brace-free text around it renders as that text around the placeholder's rendering |
| Template.ChunkBoundary | server.js:45-50 | a placeholder's replacement splits at the boundary after a brace-free or placeholder chunk; the chunk becomes the value if it is the placeholder and is kept otherwise |
| Template.ReplaceAllChunks | server.js:45-50 | in text made of brace-free and placeholder chunks, a placeholder is replaced chunk by chunk |
| Template.SubstituteChunks | server.js:44-50 | with brace-free values, a chunked template is substituted chunk by chunk: each placeholder chunk becomes its value, all else is kept |
| Template.SubstituteChunkedValues | server.js:44-50 | a chunked template whose values (all but the last) are chunked too is substituted chunk by chunk, placeholders inside values included |
| Template.ChunkKept | server.js:44-50 | a chunk that is none of the tokens passes through the chain unchanged |
| Template.RenderChunkedValues | server.js:44-50 | when the first five fills are brace-free text and placeholders, a page template of brace-free text and placeholders renders as each chunk rendered on its own; chunks other than the six placeholders are kept |
| Template.ValueThenLaterPlaceholder | server.js:44-50 | in a page with placeholder i and then a later placeholder j, a value i holding placeholder j shows value j's rendering twice: inside value i and in j's own place |
| Template.TitleThenItchButton | server.js:44-50 | a page with the title and then the Itch.io button, whose title holds `{{ITCH_BUTTON}}`, shows the button inside the title and again after it |
| Template.RenderChunked | server.js:44-50 | with brace-free fills, a page template of brace-free text and placeholders renders each of the six placeholders as its fill and keeps every other chunk |
| Template.SubstituteLeavesNoBrace | server.js:44-50 | a template whose only braces are those of substituted placeholders, with brace-free values, leaves no brace |
| Template.RenderLeavesNoPlaceholder | server.js:44-50 | when the template's only braces are those of the six placeholders and the fills hold no brace, none of the six placeholders remains in the page |
| Template.TitleCanReform | server.js:45 | deleting `{{TITLE}}` from `{{TI{{TITLE}}TLE}}` with the empty value leaves `{{TITLE}}` |
| Fragments.Decimal | server.js:23 | the timestamp text is non-empty, all digits, with no leading zero |
| Fragments.DecimalRoundTrip | server.js:23 | the timestamp text reads back as the timestamp |
| Fragments.SplitAtDashAppend | server.js:23 | the first dash of `<digits>-<name>` separates the digits from the name |
| Fragments.ImageName | server.js:23 | `<Date.now()>-<originalname>` when a file was uploaded, else null; characterised by `ImageNameRoundTrip` and `ImageNameCollision` |
| Fragments.ImageNameRoundTrip | server.js:22-23 | an image name exists exactly when a file was uploaded, and it parses back to the timestamp and the original name |
| Fragments.ImageNameCollision | server.js:23 | two uploads get the same name exactly when both the millisecond and the original name agree |
| Fragments.ImagePath | server.js:48 | the `{{IMAGE_PATH}}` value: `img/projects/<name>`, or `""` without a name; characterised by `ImagePathOfUpload` |
| Fragments.ImagePathOfUpload | server.js:48 | the page's image path is empty exactly when no file was uploaded, and is otherwise `img/projects/<timestamp>-<name>` |
| Fragments.Button | server.js:36-42 | a fixed anchor around the link, or `""` for an empty link; characterised by `ButtonRoundTrip` |
| Fragments.GithubButton | server.js:36-38 | the GitHub button; characterised by `Publish.ButtonsFollowLinks` |
| Fragments.ItchButton | server.js:40-42 | the Itch.io button; characterised by `Publish.ButtonsFollowLinks` |
| Fragments.ButtonRoundTrip | server.js:36-42 | a button is empty exactly when its link is, and otherwise gives back exactly the link, unescaped |
| Catalog.RecordImage | server.js:68 | `img/projects/${imageName}`, with null written as `null`; characterised by `RecordImageVersusPage` |
| Catalog.NewRecord | server.js:64-72 | the pushed record literal; characterised by `RecordImageVersusPage` and `Publish.AddProject` |
| Catalog.NotNullPath | server.js:68 | an image name starting with a digit never yields `img/projects/null` |
| Catalog.RecordImageVersusPage | server.js:64-72 | the record's image equals the page's image path when a file was uploaded; without one the page gets `""` and the record `img/projects/null`, and only then |
| Catalog.ProjectList.constructor | server.js:60-62 | the array starts with the given records |
| Catalog.ProjectList.Push | server.js:64 | `push` adds the record at the end and changes nothing else |
| Catalog.Prior | server.js:60-63 | the stored catalog, or `[]` when the file does not exist; characterised by `AppendProject` |
| Catalog.Appended | server.js:60-64 | the catalog after one push; characterised by `AppendProject` |
| Catalog.AppendProject | server.js:60-72 | the new catalog is the stored one, or the empty list when there is none, with exactly the new record appended; earlier records are unchanged and in order |
| Catalog.CatalogAfter | server.js:60-73 | the catalog after a run of submissions, each reading what the previous one wrote; characterised by `CatalogAfterSubmissions` |
| Catalog.CatalogAfterSubmissions | server.js:60-73 | after a run of submissions the catalog is the prior records followed by the new ones in submission order; from no file, exactly those records |
| Publish.PageFills | server.js:26-50 | the six values substituted into the page; characterised by `ButtonsFollowLinks` and `AddProject` |
| Publish.AddProject | server.js:20-76 | fails exactly when the template is missing (checked first, l.34) or the page name is empty (l.56, where the path is the page directory itself); otherwise it names the image, renders the template with the fills, writes the page to `html/<htmlFile>`, and appends a record whose `htmlFile` is that path and whose `longDesc` is the raw text |
| Publish.ButtonsFollowLinks | server.js:36-42 | each button is present exactly when its link is given, and it carries that link unchanged |
| Publish.TitleNamingItchButton | server.js:44-50 | a title holding `{{ITCH_BUTTON}}` between brace-free text shows the Itch.io button in its place |

## Left out

- Express and multer setup, routing, static serving, `app.listen` and the JSON response `{success: true}` (server.js:1-18, 75, 78). The response becomes the `Success` result.
- File-system effects: writing the image (l.29-32), creating `html/` (l.52-55), writing the page (l.56) and writing `projects.json` (l.73). They are outputs of `AddProject`. The bytes of the image are not modelled.
- Publish.AddProject: on a missing template or an empty page name the source has already written the image (l.29-32 run before l.34 and l.56). The model's `Failure` result does not record that orphaned image. Other I/O errors are not modelled: a page name that `path.join` resolves to the page directory itself (`.`, `a/..`) or to a missing subdirectory also throws at l.56, and the model returns `Success` for it.
- `marked.parse` (l.26) is a foreign Markdown library. It is the uninterpreted parameter `markdown`.
- Text.ReplaceAll: treats the value literally. JavaScript's `replace` would interpret `$&`, `$$`, `` $` `` and `$'` inside user-supplied values.
- Fields missing from the form are modelled as empty strings. In the source a missing `title` or `shortDesc` puts the text `undefined` into the page (l.45-46), and a missing `longDesc` becomes `''` before `marked.parse` (l.26). `JSON.stringify` drops every missing field from the record (l.73). An empty and a missing link both give no button, as in the source.
- A missing `htmlFile` makes `path.join` throw a TypeError at l.56; an empty one makes the write at l.56 fail because the path is the page directory. Both come after the image is written (l.29-32) and before the page and the catalog are. The model has one error, `PageFileInvalid`, for both, because a missing field is an empty string here.
- Fragments.Decimal: writes every timestamp in plain digits. JavaScript switches to exponent notation from 10^21 on, far beyond any `Date.now()` value.
- `path.join` normalisation of `html/<htmlFile>` and of the image path. The path-traversal risk of `htmlFile` is therefore not modelled.
- JSON formatting of `projects.json` and a catalog file that does not parse (l.62). The stored catalog is given as an already-parsed list of records.
- Concurrent requests racing on `projects.json` (lost updates). The source has no concurrency logic to model.
