# markdown-anki-decks in Dafny

A Dafny model of the card-building core of `markdown-anki-decks`. The tool turns a markdown
document into an Anki deck and can push that deck to a running Anki through the
AnkiConnect add-on. The model covers these parts:

- **Segmentation** (module `Segment`, on `Html`). Comments are stripped from the parsed
  tree. Each root-level question node (an `h2`, or any tag with a `data-question`
  attribute) starts a card. The card's answer is the maximal run of following root-level
  siblings, up to the next question, wrapped in a `section`.
- **Cloze detection** (module `Cloze`). This is the search of `{{c\d+::[\s\S]+?}}`. It
  decides whether a note uses the cloze model.
- **Identities and names** (module `Identity`). This covers `integer_hash` (a digest
  reduced mod 2^31), the `.md` filter, and the file stem used for deck titles and
  package names.
- **Stylesheet merge** (module `Styles`). This is `read_css`: base, light and dark sheets,
  then the user sheets from the frontmatter, joined by newlines.
- **Deck assembly** (module `Decks`). This is `parse_markdown` and
  `FrontIdentifierNote`: the deck title and ids, the two note models and which of them
  are registered, and one note per question with fields `[question, answer, guid]`.
- **Sync decisions** (modules `Sync` and `Dicts`). This covers the request envelope, the
  validation of a decoded response, the note ids to delete, and the template and
  styling updates pushed for each model.

Collaborators whose insides are not modelled are function-valued parameters, bundled in
`Decks.Externals`:

- the SHA-256 digest behind `integer_hash`;
- `genanki.guid_for`;
- `str(tag)`;
- `tag.prettify()`.

Reading user stylesheets is a parameter `read: string -> Option<string>`. The bundled
stylesheets are passed in as their contents. `get_text()` is modelled concretely. Each text
node records the string type the parser gave it. That type is plain, or the special type of
the nearest enclosing `script`, `style`, `template`, `rt` or `rp` tag. `get_text()` on a tag
concatenates, in document order, the strings of the one type the tag accepts. A container
tag accepts its own type and every other tag accepts plain strings. Comments contribute
nothing. So an `h1` nested inside a `template` has no text of its own.

## Model

| member | source | states |
|---|---|---|
| Html.IsQuestion | markdown_anki_decks/cli.py:94-96 | a node is a question iff it is a tag named `h2` or a tag with a `data-question` attribute; text is never a question |
| Html.StripComments | markdown_anki_decks/cli.py:111-114 | after stripping, no comment is left at any depth, and no node is added |
| Html.StripCommentsKeepsNodes | markdown_anki_decks/cli.py:111-114 | every non-comment root node survives, in order, with its tag name and attributes (or its text) unchanged, and its children are stripped the same way |
| Html.StripCommentsIdempotent | markdown_anki_decks/cli.py:111-114 | stripping a comment-free tree changes nothing |
| Html.StripCommentsKeepsText | markdown_anki_decks/cli.py:111-114 | stripping comments never changes the strings of any type that `get_text` reads |
| Html.FirstNamedInPreorder | markdown_anki_decks/cli.py:118 | `soup.h1` returns the element at the least document-order position whose tag is `h1`, and nothing iff no `h1` occurs at any depth |
| Html.GetText | markdown_anki_decks/cli.py:232-234 | a container tag's text is the strings of its own container type below it; any other tag's text is the plain strings below it, which for a well-typed tag outside every container is its visible text (all text not inside a container) |
| Html.StringsOfKindConcat | markdown_anki_decks/cli.py:232-234 | the strings of a forest are the strings of its parts, concatenated in order |
| Html.PlainStringsAreVisibleText | markdown_anki_decks/cli.py:232-234 | for a tag outside every container, `get_text()` is all text not inside a `script`, `style`, `template`, `rt` or `rp` tag |
| Html.ContainedTextSkipped | markdown_anki_decks/cli.py:232-234 | a non-container tag directly inside container `c`, whose strings are all typed by `c`, has empty `get_text()`, while the container's own `get_text()` returns those strings |
| Segment.AnswerRun | markdown_anki_decks/cli.py:170-175 | the run is a prefix of the following siblings, holds no question, and stops only at a question or at the end |
| Segment.Answer | markdown_anki_decks/cli.py:177-182 | the answer is a bare `section` whose children are exactly the run (none when the run is empty), and it is not a question |
| Segment.StripCommentsKeepsQuestions | markdown_anki_decks/cli.py:111-114 | stripping comments keeps the root-level questions: as many, in order, each with its tag name and attributes |
| Segment.QuestionsAreRootQuestions | markdown_anki_decks/cli.py:165 | the question list holds only root-level questions, and every root-level question is in it |
| Segment.Segments | markdown_anki_decks/cli.py:165-182 | exactly one fragment per root-level question |
| Segment.SegmentsFollowQuestions | markdown_anki_decks/cli.py:165-175 | the k-th fragment belongs to the k-th root-level question, in document order, and no answer run contains a question |
| Segment.SegmentsPartition | markdown_anki_decks/cli.py:165-182 | the preamble before the first question, then each question followed by its run, gives back the root nodes exactly: nothing is lost, repeated or reordered |
| Segment.NoQuestionNoFragment | markdown_anki_decks/cli.py:165-166 | with no root-level question, whatever the nested nodes hold, there is no card and the whole document is preamble |
| Segment.FragmentPosition | markdown_anki_decks/cli.py:166-175 | each fragment's question sits at some root index i, and its run is exactly the siblings from i+1 up to the next question or the end |
| Cloze.MatchesAt | markdown_anki_decks/cli.py:85 | the scan at one position accepts iff `{{c`, one or more digits, `::`, a body of at least one character, and `}}` can be placed there |
| Cloze.HasClozes | markdown_anki_decks/cli.py:85-90 | `has_clozes(t)` holds iff some substring of t matches the cloze pattern |
| Cloze.SimpleClozeMatches | markdown_anki_decks/cli.py:85 | `{{c1::x}}` is a cloze |
| Cloze.ClozeNeedsNumber | markdown_anki_decks/cli.py:85 | `{{c::x}}` is not a cloze |
| Cloze.ClozeNeedsBody | markdown_anki_decks/cli.py:85 | `{{c1::}}` is not a cloze |
| Cloze.ClozeSurvivesContext | markdown_anki_decks/cli.py:88-90 | the test is a search, not an anchored match: text around a cloze never hides it |
| Identity.IntegerHash | markdown_anki_decks/cli.py:251-257 | the id is in [0, 2^31) and congruent to the digest mod 2^31; a digest already below 2^31 is kept |
| Identity.MarkdownFileExactly | markdown_anki_decks/cli.py:245-248 | a name is a markdown file iff it is some string followed by `.md` |
| Identity.MarkdownFiles | markdown_anki_decks/cli.py:67-69 | the files converted are exactly the listed names that end in `.md` |
| Identity.MarkdownStem | markdown_anki_decks/cli.py:117 | the stem of a markdown file in any directory is its name without `.md` |
| Identity.DotfileStem | markdown_anki_decks/cli.py:117 | a file named just `.md` keeps `.md` as its stem |
| Identity.PackageFileName | markdown_anki_decks/cli.py:76 | the package name is a bare file name ending in `.apkg` |
| Identity.PackageNamedAfterStem | markdown_anki_decks/cli.py:67-76 | the package for markdown file `name` is `name` without `.md` plus `.apkg`, whatever directory the walk found it in |
| Styles.SplitJoin | markdown_anki_decks/cli.py:301 | a newline join of newline-free pieces splits back into the same pieces |
| Styles.ReadEach | markdown_anki_decks/cli.py:296-299 | the user sheets are read in order; reading fails iff some path is unreadable, and then with the first such path |
| Styles.ReadCss | markdown_anki_decks/cli.py:286-303 | the stylesheet is base, light, dark and the user sheets in frontmatter order, newline-joined; an unreadable user sheet is a failure naming it |
| Styles.ScalarCssIsSingleton | markdown_anki_decks/cli.py:292-295 | a scalar `css` entry is read exactly like a one-element list |
| Styles.NoUserCss | markdown_anki_decks/cli.py:291-303 | without a `css` entry the stylesheet is the three bundled sheets with a trailing newline |
| Styles.StylesheetOrder | markdown_anki_decks/cli.py:301-303 | when no sheet contains a newline, splitting the merged sheet on newlines gives base, light, dark, then each user sheet in order, or one empty piece when there are none |
| Decks.TemplateHeadingIgnored | markdown_anki_decks/cli.py:116-121 | an `h1` whose only text sits inside a `template` leaves the title as prefix plus stem |
| Decks.DeckTitle | markdown_anki_decks/cli.py:116-121 | the title starts with the prefix; with no `h1` at any depth it is prefix plus the file stem; otherwise it is prefix plus the `get_text()` of the first `h1` in document order, or plus the stem when that text is empty |
| Decks.MakeModel | markdown_anki_decks/cli.py:124-153 | a model is named `title + " model"` (plain) or `title + " cloze model"`, and its id is `integer_hash` of that name; it has fields Question, Answer, Guid, the merged stylesheet, and one template `Card 1` whose formats show `{{Question}}` or, for cloze, `{{cloze:Question}}`, and then `{{Answer}}` |
| Decks.FrontIdentifierNote | markdown_anki_decks/cli.py:200-212 | the guid is appended after the given fields, and that last field equals the note's guid |
| Decks.RegisterModels | markdown_anki_decks/cli.py:159-162 | without cloze mode only the plain model is registered; with it, both ids are present, the cloze model is under its id, and the plain one is under its own id unless the ids collide |
| Decks.ParseMarkdown | markdown_anki_decks/cli.py:99-197 | conversion fails iff a user stylesheet is unreadable; the deck is named by the title, its id is `integer_hash(title)`, and it has one note per root-level question |
| Decks.NoteOfQuestion | markdown_anki_decks/cli.py:184-195 | note k has fields [str(question k), str(its section), guid]; guid = guid_for(prettify(question), deck id); it uses the cloze model iff cloze mode is on and the question's `get_text()` has a cloze; its model is registered on the deck |
| Decks.ModelsOfDeck | markdown_anki_decks/cli.py:124-162 | the model ids are hashes of `title + " model"` and `title + " cloze model"`; the cloze model is registered only in cloze mode; both carry the merged stylesheet |
| Decks.GuidsIgnoreAnswers | markdown_anki_decks/cli.py:185-186 | two documents with the same title and the same root-level questions, attribute values included, get the same guids, whatever their answers |
| Dicts.FromPairs | markdown_anki_decks/sync.py:86-88 | a dict comprehension has one key per distinct key, holding the value of the last pair with that key |
| Dicts.FromPairsLast | markdown_anki_decks/sync.py:86-88 | the last pair carrying a key is the one the dict holds under it |
| Dicts.FromPairsDistinct | markdown_anki_decks/sync.py:117-123 | with distinct keys, every pair is found under its own key |
| Sync.Request | markdown_anki_decks/sync.py:15-16 | the envelope has exactly the keys `action`, `params` and `version`, and `version` is 6 |
| Sync.Validate | markdown_anki_decks/sync.py:37-45 | validation succeeds iff the response is an object with exactly the fields `error` and `result` and a null `error`, and then returns `result` unchanged; a wrong field count fails as such |
| Sync.ValidateResponse | markdown_anki_decks/sync.py:43-45 | a two-field response yields its result when the error is null, and fails carrying the error otherwise |
| Sync.ValidateMissingField | markdown_anki_decks/sync.py:39-42 | with two fields, a missing `error` is reported first, then a missing `result` |
| Sync.GuidPairs | markdown_anki_decks/sync.py:86-88 | each remote note is paired with its `Guid` field, in order; a note without that field aborts |
| Sync.LocalGuids | markdown_anki_decks/sync.py:92-93 | the local guid set is exactly the guids of the deck's notes |
| Sync.GuidsToDelete | markdown_anki_decks/sync.py:94-95 | a remote guid is deleted iff it is not local; no local guid is ever deleted |
| Sync.IdsOf | markdown_anki_decks/sync.py:99-101 | the ids sent are exactly the note ids the index holds for the doomed guids |
| Sync.NoteIdsToDeleteAsWritten | markdown_anki_decks/sync.py:86-102 | as written: fails iff a note lacks `Guid`; each id sent is the id of the last remote note carrying a non-local guid, and every such note is sent |
| Sync.StaleNoteIds | markdown_anki_decks/sync.py:94-101 | corrected: the ids are exactly those of the remote notes whose guid is not local |
| Sync.StaleDeletionConverges | markdown_anki_decks/sync.py:74-102 | corrected: after deleting the stale notes, only local guids remain remotely |
| Sync.StaleDeletionKeepsLocal | markdown_anki_decks/sync.py:74-102 | corrected: with distinct remote note ids, the surviving remote guids are exactly the remote guids that are local |
| Sync.StaleDeletionReachesLocal | markdown_anki_decks/sync.py:64-102 | corrected: the notes are read after the import; when they carry every local guid and their ids are distinct, deleting the stale notes leaves exactly the local guids |
| Sync.AsWrittenAgreesOnDistinctGuids | markdown_anki_decks/sync.py:86-101 | when no guid appears on two remote notes, the code as written deletes exactly the stale notes |
| Sync.AsWrittenDeletesLater | markdown_anki_decks/sync.py:86-101 | for two remote notes sharing a guid that is not local, the code as written deletes only the later note |
| Sync.StaleDeletesBoth | markdown_anki_decks/sync.py:94-101 | for the same two notes, the stale set holds both ids |
| Sync.AsWrittenKeepsDuplicate | markdown_anki_decks/sync.py:86-101 | for two distinct notes sharing a removed guid, the code as written keeps the earlier note, although it is stale |
| Sync.DeleteNotesRequest | markdown_anki_decks/sync.py:96-102 | `deleteNotes` is built iff there is something to delete, and it lists every doomed id exactly once |
| Sync.DeletionRequest | markdown_anki_decks/sync.py:74-102 | corrected: the delete step fails iff a remote note lacks `Guid`; otherwise it sends `deleteNotes` iff some remote note is stale, and the request lists exactly the stale note ids |
| Sync.TemplateMap | markdown_anki_decks/sync.py:117-123 | the template map has one entry per template name, and each entry holds the `qfmt` and `afmt` of the last template with that name |
| Sync.TemplateMapKeepsFormats | markdown_anki_decks/sync.py:117-123 | with distinct names, each template's `qfmt` and `afmt` are sent unchanged |
| Sync.ModelUpdates | markdown_anki_decks/sync.py:110-138 | `sync_model` sends `updateModelTemplates` and then `updateModelStyling`, both naming the model; the templates sent are keyed by template name, each holding the `qfmt` and `afmt` of the last template with that name, and the stylesheet is sent unchanged |

## Left out

- Markdown rendering and frontmatter parsing are not modelled. The model starts from the
  parsed root nodes and the frontmatter map.
- HTML parsing is abstracted. A node is a tag (name, attribute values by attribute name,
  children), a text node or a comment. Doctypes, CDATA sections and processing
  instructions are not modelled.
- Html.GetText: the container tags are BeautifulSoup's default string containers for the
  `html.parser` builder, in the releases that have string containers. Older releases give
  every string the plain type. The string types are taken as parsed; the parser that
  assigns them is not modelled (`Html.ParsedKinds` states the rule it follows).
- `str(tag)`, `tag.prettify()`, `genanki.guid_for` and SHA-256 are opaque parameters.
  So "editing the question changes the guid" is not provable: it depends on how those
  functions behave.
- Media discovery (`image_files`, `sound_files`, cli.py:260-283) is filesystem globbing.
  The code bundles every matching file under the input directory (cli.py:75), with no
  filter on what the document references. No "referenced media" set is modelled, because
  the code has none.
- I/O is not modelled:
  - reading the markdown file;
  - reading the bundled stylesheets (their contents are parameters);
  - writing the `.apkg` package;
  - the typer command and its directory walk. Only the per-directory `.md` filter and
    the package name are modelled.
- Decks.ParseMarkdown: `read_css` runs twice, once per model. The model reads once. This
  assumes a user stylesheet does not change between the two reads.
- The AnkiConnect transport is not modelled:
  - the HTTP POST;
  - `anki_connect_is_live`;
  - the global URL;
  - JSON encoding and decoding;
  - the catch-and-print around each call, and the console output in utils.py.
- The `importPackage`, `findCards`, `cardsToNotes` and `notesInfo` round trips are
  transport. The deletion model starts from the decoded `notesInfo` entries. Each entry
  is a note id and a map from field name to string value.
- Sync.DeleteNotesRequest: `sync_deck` sends the ids in Python's set iteration order. The
  model allows any order.
- Sync.Json: numbers are integers. JSON floats are not modelled.
- Cloze.HasClozes: Python's `\d` also matches non-ASCII decimal digits. The model accepts
  only `0`-`9`, so a cloze numbered with other digits is not recognised.
- Cloze.MatchesAt: the same ASCII-only reading of `\d`, through `Cloze.IsDigit`.
- Identity.Stem: paths are split on `/` only, with no path normalisation. The stem rule is
  the one where a leading or trailing dot starts no suffix.
- Styles.ReadCss: resolving a user path against the document's directory is left to the `read` parameter.
- Styles.ReadCss: frontmatter values are strings or lists of strings. A non-string `css`
  value makes `read_css` raise `TypeError`, which is not modelled.
- Html.StripComments: its own contract states only that no comment is left and no node is
  added. That every other node is kept is stated by `Html.StripCommentsKeepsNodes`.
- The genanki `Note` defaults (sort field, tags) are not modelled. The `fields=None` path
  of `FrontIdentifierNote` is not modelled either, because `parse_markdown` always passes
  fields.

## Findings

| source | as written | input that shows it | evidently intended | confidence | as-written member | corrected member |
|---|---|---|---|---|---|---|
| markdown_anki_decks/sync.py:86-101 | remote notes go into a dict keyed by their `Guid` field, so of several notes sharing one guid only the last is deleted | two remote notes with distinct ids 1 and 2, both with `Guid` "Y", and no local note "Y" (for example after Anki's "Create Copy" of a note) | every remote note whose guid is not local is deleted, so ids 1 and 2 | medium; not executed | Sync.NoteIdsToDeleteAsWritten, Sync.AsWrittenKeepsDuplicate | Sync.StaleNoteIds, Sync.StaleDeletionConverges, Sync.DeletionRequest |

`Sync.DeletionRequest` uses the corrected `Sync.StaleNoteIds`. `Sync.AsWrittenAgreesOnDistinctGuids`
shows that the two computations agree whenever no guid appears on two remote notes.
