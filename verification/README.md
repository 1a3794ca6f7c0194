# Sheets to Posts — a Dafny model of the sync core

The WordPress plugin `sheets-to-posts.php` keeps posts in step with the rows of a public Google
Sheet. A saved sheet entry names a sheet link, a mode (`simple` or `developer`), a template and a
post type. One sync:

- turns the link into a CSV export URL, fetches it, and drops blank lines and rows whose cells
  are all blank;
- takes the first row as the header;
- for every data row, builds the post content: Markdown rendered to HTML in simple mode, a
  `{{column}}` template filled in developer mode;
- hashes the row's values;
- creates a post, updates the post with the same title, or leaves it alone when the stored hash
  matches.

A dry run previews a single row instead.

This project models that core as pure functions over immutable data. The modules are:

| module | file | models |
|---|---|---|
| `PhpText` | `php_text.dfy` | The PHP string built-ins the code relies on: `trim`, `rtrim`, ASCII `strtolower`, `empty()`, `explode`, `str_replace` (leftmost, non-overlapping), and integer-to-string. |
| `CsvUrl` | `csv_url.dfy` | `s2p_to_csv_url`, including the leftmost, greedy match of `/\/d\/([a-zA-Z0-9-_]+)/`. |
| `SheetRows` | `sheet_rows.dfy` | `s2p_fetch_sheet_rows`, `s2p_header_map` (a PHP array: insertion order, last write wins), `s2p_cell` and `s2p_load_sheet_data`. |
| `Tags` | `tags.dfy` | `s2p_parse_tags`. |
| `Markdown` | `markdown.dfy` | `s2p_markdown_to_html`: line classification by the heading and bullet patterns, the `$in_list` state machine, and the two lazy `preg_replace` passes for bold and italic. |
| `Template` | `template.dfy` | `s2p_apply_template`: the per-column `str_replace` loop and the raw `content_html` pass. |
| `RowHash` | `row_hash.dfy` | The record that `s2p_build_row_hash` digests. |
| `SheetConfig` | `sheet_config.dfy` | `s2p_default_sheet` and `s2p_save_sheets`. |
| `Sync` | `sync.dfy` | `s2p_process_sheet`: settings defaults, the required-column check, the dry run of one row, and the per-row decision and counters of the real sync. |

Support modules are `Options` (`options.dfy`: `Option`, `Result`) and `WordPress`
(`wordpress.dfy`). `WordPress` holds the WordPress and PHP functions whose code is not part of
this model as function-valued fields:

- the sanitisers and escapers;
- `wp_unslash`;
- `str_getcsv`;
- the body returned by `wp_remote_get`.

`Sync.Env` does the same for three other effects:

- whether a post write succeeds;
- whether attaching a featured image succeeds;
- the `md5(json_encode(...))` digest.

The posts of the sheet's post type are a `Store`: a map from title to post id and stored row hash.

All source references below are to `sheets-to-posts.php`.

A Dafny `string` stands for a PHP byte string, one `char` per byte. That is why the model's
`trim` character set, the ASCII-only `strtolower`, and PCRE's `.` and `\s` (one byte each,
without the `u` modifier) match PHP's behaviour. Multibyte encodings are not interpreted.

Some of the code's behaviour is easy to miss. The model follows the code in each case:

- **Saving a non-array value.** `s2p_save_sheets` returns an empty list when the submitted value
  is not an array at all (lines 352-355). Only an array with no array elements falls back to the
  default sheet (lines 380-382).
- **Dry run and the content check.** The dry-run branch (lines 447-512) does not make the
  blank-`content` check that the sync makes at line 525. A row the sync would skip can therefore
  be previewed with a planned action.
- **Dry run without a row index.** The doc comment of `s2p_process_sheet` (line 412) says a dry
  run creates and updates no posts. The preview branch is taken only when a test-row index is
  also given (line 447). With `$dry_run` set and a `null` index, the function runs the real sync.
- **Error wording.** The missing-columns message tests for `simple` (lines 433-435), so any mode
  other than `simple` gets the developer-mode wording.

## Model

| member | source | states |
|---|---|---|
| PhpText.TrimEmptyIff | sheets-to-posts.php:36-37 | A string trims to `""` exactly when all its characters are `trim` whitespace. |
| PhpText.TrimIdempotent | sheets-to-posts.php:211-212 | Trimming twice is trimming once. |
| PhpText.Split | sheets-to-posts.php:146 | `explode` yields at least one piece. No piece holds the delimiter, and the pieces joined by it give back the input. |
| PhpText.SplitJoin | sheets-to-posts.php:146 | Exploding a join of delimiter-free parts gives back exactly those parts. |
| PhpText.SplitAppend | sheets-to-posts.php:146 | Exploding `a`, a delimiter and `b` gives the pieces of `a` followed by the pieces of `b`. |
| PhpText.TrimPadded | sheets-to-posts.php:142 | `trim` whitespace added at either end does not change the trimmed result. |
| PhpText.ReplaceAbsent | sheets-to-posts.php:275 | `str_replace` leaves a string without the needle unchanged. |
| PhpText.ReplaceAppend | sheets-to-posts.php:275 | `str_replace` distributes over concatenation when the left part cannot end in a partial needle. |
| CsvUrl.ToCsvUrl | sheets-to-posts.php:35-44 | The result is `""` exactly when the trimmed link is blank or has no `/d/` followed by an id character. Otherwise it is the export URL around the maximal id run after the leftmost such `/d/`. |
| CsvUrl.FindIdStartLeftmost | sheets-to-posts.php:39 | The search finds the leftmost position where the pattern matches. |
| CsvUrl.IdRunOf | sheets-to-posts.php:39 | The greedy id class stops exactly at the first non-id character. |
| CsvUrl.ToCsvUrlIdempotent | sheets-to-posts.php:35-44 | Converting an already converted link gives the same link. |
| CsvUrl.ExportUrlIsFixed | sheets-to-posts.php:40-41 | An export URL with any non-empty id converts to itself. |
| SheetRows.Lines | sheets-to-posts.php:63 | Splitting on `\r\n`, `\n` or `\r` gives at least one piece. No piece holds a line break, and the pieces joined by `\n` are the text with its line breaks normalised. |
| SheetRows.NormalizeEolWithoutCr | sheets-to-posts.php:204 | Text without `\r` is left as it is by the line-break normalisation. |
| SheetRows.NormalizeEolReference | sheets-to-posts.php:204 | The two `str_replace` passes equal a left-to-right reading in which `\r\n` and a lone `\r` each become one `\n` and every other character is copied. |
| SheetRows.FilterRows | sheets-to-posts.php:66-82 | Every row is the parse of a kept line, and the parse of every kept line is among the rows. There are no more rows than lines, and none is dropped when every line is kept. |
| SheetRows.FilterRowsOne | sheets-to-posts.php:66-82 | A single line gives its `str_getcsv` parse when the line is not blank and some cell is not blank, and nothing otherwise. |
| SheetRows.FilterRowsAppend | sheets-to-posts.php:66-82 | The filter works line by line in order: the rows of two line lists joined are the rows of the first followed by those of the second. |
| SheetRows.FilterRowsHaveContent | sheets-to-posts.php:72-79 | Every surviving row has a cell that is not blank after trimming. |
| SheetRows.FetchRows | sheets-to-posts.php:49-85 | An `empty()` URL fails with no URL. A missing response fails with the remote error, and an `empty()` body fails with an empty sheet. Otherwise the result is the filtered rows of the lines of the trimmed body. Every returned row has content. |
| SheetRows.PutLookup | sheets-to-posts.php:94 | `$map[$key] = $i` makes the key read the new index and leaves every other key unchanged. |
| SheetRows.PutKeys | sheets-to-posts.php:94 | Assigning keeps the key order; a new key is appended at the end. |
| SheetRows.PutKeepsUnique | sheets-to-posts.php:94 | Assigning never duplicates a key. |
| SheetRows.KeyMapLookup | sheets-to-posts.php:90-97 | The map sends a non-empty key to the last column that has that key, and knows nothing of `""`. |
| SheetRows.HeaderMapLookup | sheets-to-posts.php:90-97 | The header map has distinct keys and in-range indices. A name maps to the rightmost column whose trimmed, lower-cased header equals it. |
| SheetRows.Cell | sheets-to-posts.php:102-107 | A cell read is always trimmed. |
| SheetRows.CellByHeader | sheets-to-posts.php:102-107 | Reading by column name is the trimmed cell at the rightmost header column with the lower-cased name. It is `""` when there is no such column or the row is too short. |
| SheetRows.LoadSheetData | sheets-to-posts.php:391-408 | Loading succeeds exactly when the fetch succeeds with at least two rows. The header is the first row, the data rows are the rest (at least one), and the map is built from the header. A fetch error is passed through unchanged, and fewer than two rows give the not-enough-rows error. |
| Tags.TrimmedNonEmpty | sheets-to-posts.php:147-151 | Trimming the parts and dropping empty ones gives well-formed tag names, no more than there are parts. |
| Tags.ParseTags | sheets-to-posts.php:142-153 | Parsing yields only non-empty, trimmed, comma-free tag names, and a blank cell yields none. |
| Tags.ParseTagsReference | sheets-to-posts.php:142-153 | The outer `trim` and blank check change nothing: parsing equals exploding the raw cell at commas and keeping the non-empty trimmed parts. |
| Tags.ParseTagsComma | sheets-to-posts.php:142-153 | Parsing a cell that has a comma between `a` and `b` gives the tags of `a` followed by the tags of `b`. |
| Tags.ParseTagsPart | sheets-to-posts.php:142-153 | A comma-free cell gives its trimmed text as the one tag, or no tag when it is blank. |
| Tags.TrimmedNonEmptyOfTags | sheets-to-posts.php:147-151 | Well-formed tag names pass the trim-and-drop step unchanged. |
| Tags.ParseTagsJoin | sheets-to-posts.php:142-153 | Joining tag names with commas and parsing the result gives back the same list. |
| Markdown.HeadingLevelUnique | sheets-to-posts.php:224 | At most one count of `#` lets the heading pattern match a line. |
| Markdown.ParseHeading | sheets-to-posts.php:224-229 | A heading is recognised exactly when some count of 1 to 3 hashes followed by whitespace matches. The level is that count and the text is what follows the whitespace run. |
| Markdown.ParseBullet | sheets-to-posts.php:236-241 | A bullet is recognised exactly when `-` and whitespace begin the line. The item is what follows the whitespace run. |
| Markdown.TrimAfterTrimRight | sheets-to-posts.php:211-212 | `trim(rtrim($line))` equals `trim($line)`. |
| Markdown.ClassifyKinds | sheets-to-posts.php:210-253 | Blank, heading, bullet item and paragraph are told apart exactly as the ordered tests do, with the text each one carries. |
| Markdown.BlocksNested | sheets-to-posts.php:207-258 | The `$in_list` loop emits `<ul>` only outside a list and `</ul>` only inside one. Items are always inside a list, and no list is left open. |
| Markdown.BlocksTight | sheets-to-posts.php:207-258 | `<ul>` is always followed at once by an item, and `</ul>` always follows an item and precedes a non-item line or the end. So consecutive bullets share one list and no list is empty. |
| Markdown.BlocksUnique | sheets-to-posts.php:207-258 | Well-nested, tight markup around given lines is unique. With the lemmas above, this fixes the loop's output on every input. |
| Markdown.BlocksStrip | sheets-to-posts.php:210-258 | With the list markup removed, the output is the classified lines in order, none lost or added. |
| Markdown.RenderBlocksAppend | sheets-to-posts.php:207-258 | The HTML of two block lists joined is the HTML of the first followed by that of the second. |
| Markdown.Spans | sheets-to-posts.php:261-262 | The lazy `preg_replace` scan reads text back exactly. Every match body is non-empty and holds no earlier closing marker. |
| Markdown.SpansLeftmost | sheets-to-posts.php:261-262 | The scan takes a match wherever one can start, with the shortest body, and copies a single character only where no match can start. |
| Markdown.LeftmostUnique | sheets-to-posts.php:261-262 | Only one reading of a text satisfies that description, so it fixes the scan on every input. |
| Markdown.MarkedMatch | sheets-to-posts.php:261-262 | A match closes at the first marker after the first body character, and its body is lazy. |
| Markdown.SpansWithoutMarker | sheets-to-posts.php:261-262 | Text without the marker is read as plain characters only and renders back to itself. |
| Markdown.Emphasize | sheets-to-posts.php:261-262 | Text without the marker is not changed by the bold or italic pass. |
| Markdown.EmphasizeMatch | sheets-to-posts.php:261-262 | A marker, a lazy body and a marker at the front become the opening tag, the body and the closing tag, and the pass continues after them. |
| Markdown.EmphasizePlain | sheets-to-posts.php:261-262 | Where no match can start, the first character is copied and the pass continues after it. |
| Markdown.MarkdownToHtmlPlain | sheets-to-posts.php:202-265 | When the rendered lines hold no `*`, the bold and italic passes change nothing and the result is the rendered lines. |
| Markdown.PlainRenderIgnoresTags | sheets-to-posts.php:261-262 | Rendering plain characters does not depend on the replacement tags. |
| Template.LitIsInert | sheets-to-posts.php:275 | Brace-free text holds no token and cannot end in the start of one. |
| Template.TokOccurs | sheets-to-posts.php:275 | One `{{name}}` token never contains another with a different brace-free name. |
| Template.ReplacePiece | sheets-to-posts.php:275 | Replacing `{{k}}` in a single literal or token changes exactly the token `k`. |
| Template.ReplaceToken | sheets-to-posts.php:275 | One `str_replace` of `{{k}}` over a well-formed template fills exactly the `k` tokens. |
| Template.SubstituteMatchesReference | sheets-to-posts.php:273-276 | The sequential `foreach` of replacements equals resolving every token once, independently, when keys and escaped values hold no braces. |
| Template.RawPassInert | sheets-to-posts.php:279-282 | Once all keys are resolved, the raw `content_html` replacement finds nothing to change. |
| Template.ApplyTemplateMatchesReference | sheets-to-posts.php:270-284 | Under the same conditions the output is `wp_kses_post` of the independent reading. A key's token becomes its escaped cell (empty for a short row), and other tokens stay verbatim. |
| Template.ResubstitutionExample | sheets-to-posts.php:273-276 | Without those conditions the loop re-substitutes: a cell holding `{{b}}` is itself replaced by column `b`. |
| RowHash.TemplateIgnoredOutsideDeveloper | sheets-to-posts.php:290-303 | Outside developer mode, editing the template never changes a row hash. |
| RowHash.HashInputSeparates | sheets-to-posts.php:290-303 | Two rows give the same hash record exactly when all fields agree. The template counts only in developer mode. |
| SheetConfig.DefaultSheet | sheets-to-posts.php:309-317 | The default entry is a valid sheet: a known mode and a non-empty name, template and post type. |
| SheetConfig.NormalizeSheet | sheets-to-posts.php:358-375 | A saved entry is always valid. The mode is `developer` exactly when the sanitised submission says so. A missing or empty name becomes `Sheet n` and a non-empty one is kept. An empty template becomes the default one, and an empty post type becomes `post`; non-empty values are kept. The URL is the trimmed, escaped link. |
| SheetConfig.SaveSheets | sheets-to-posts.php:349-386 | A non-array gives `[]`. Otherwise the array elements are normalised in order, each numbered by its output position, or the default sheet is used when there is none. Every entry is valid. |
| Sync.ReadSettings | sheets-to-posts.php:414-421 | Each missing setting takes its documented default, and each present one is taken as given. |
| Sync.PublishExactly | sheets-to-posts.php:532-533 | The status is `publish` exactly when the trimmed cell is `publish` in any letter case. |
| Sync.Prepare | sheets-to-posts.php:516-535 | A row passes the title and content checks only with a non-empty sanitised title. Its values are the rendered content, the sanitised category, the raw tags cell, the escaped image URL, and the status read from its cell. The hash is built from these, the title and the sheet settings. |
| Sync.FindPostByTitle | sheets-to-posts.php:112-121 | A post is found exactly when the trimmed title and post type are not blank and a post with the trimmed title and a non-zero id exists. |
| Sync.AttachImage | sheets-to-posts.php:587-590 | No image step happens exactly when the URL is empty. Success needs a non-blank URL that the attachment accepts. |
| Sync.SyncRow | sheets-to-posts.php:516-575 | A row is unchanged exactly when it is kept and a found post has a truthy, equal hash. A row failing the checks is skipped. Skipped and unchanged rows leave the store alone. A kept row that is not unchanged is skipped exactly when its own write fails: the update of the post found by title, or else the insert. |
| Sync.SyncRowWrites | sheets-to-posts.php:536-590 | A created post gets the next id under the row's title. An updated post keeps its id. Both record the row's hash, and the image step runs on the written post's id. |
| Sync.TallyCounts | sheets-to-posts.php:516-590 | Each row adds one to exactly one of created, updated, unchanged and skipped. An image counter moves only for a write. |
| Sync.SyncRows | sheets-to-posts.php:514-591 | Over a whole sheet the four counters sum to the number of data rows, and image attempts never exceed writes. |
| Sync.ClampIndex | sheets-to-posts.php:448-451 | The test row index is clamped into `1..max`, and an in-range request is kept. |
| Sync.PreviewOf | sheets-to-posts.php:453-512 | The preview reports an empty title exactly when the sanitised title is empty. Otherwise it plans the action the stored hash implies. It reports the row's title, status, category, image and content, the sheet's post type, and the parsed tags. |
| Sync.PreviewRow | sheets-to-posts.php:447-512 | The dry run reports the clamped row of `max`, with the same empty-title and action facts. A planned preview carries that row's title and values, and the parsed tags. |
| Sync.RunPrepared | sheets-to-posts.php:446-603 | A preview happens exactly for a dry run with a row index. It is the preview of the clamped row and leaves the store alone. Otherwise the store and counts afterwards are those of deciding every row in order, and the counts cover every data row. |
| Sync.ProcessLoaded | sheets-to-posts.php:426-603 | Missing `title`, or `content` outside developer mode, fails with the mode's message and writes nothing. With the columns present, a preview happens exactly for a dry run with a row index, and it is the clamped row's preview. Otherwise the store and counts are those of the row-by-row sync of the prepared data rows, and the counts cover every data row. |
| Sync.ProcessSheet | sheets-to-posts.php:414-603 | A sheet that cannot be loaded fails with the loading error. For a loaded sheet the column check, the choice between preview and sync, the preview of the clamped row, and the row-by-row sync with its counts are those of the lower levels. Only a real sync changes the store. |
| Sync.PreviewAgreesWithSync | sheets-to-posts.php:481-495 | For a row the sync keeps, with writes succeeding, the preview announces create, update or nothing exactly when the sync does that. |
| Sync.PreviewIgnoresBlankContent | sheets-to-posts.php:455-471 | Outside developer mode, a titled row with a blank content cell is skipped by the sync but previewed with a planned action. |
| Sync.PreparedSettled | sheets-to-posts.php:290-304 | With a truthy digest and a sanitiser that trims, every prepared row is settled. |
| Sync.SyncRowFrame | sheets-to-posts.php:536-571 | A row's step touches no title but its own. |
| Sync.SyncRowRecords | sheets-to-posts.php:536-571 | After its step, a kept row's post is stored under its title with its hash. |
| Sync.SyncRowQuiet | sheets-to-posts.php:536-545 | Over a store that already records it, a row's step is unchanged or skipped and writes nothing. |
| Sync.SyncRowsFrame | sheets-to-posts.php:514-591 | A whole pass touches only the titles of kept rows. |
| Sync.SyncRowsRecords | sheets-to-posts.php:514-591 | After a pass over rows with distinct titles, every kept row is recorded. |
| Sync.SyncRowsQuiet | sheets-to-posts.php:514-591 | Over a store recording every row, a pass writes nothing. It counts kept rows unchanged and the others skipped. |
| Sync.SecondSyncIsQuiet | sheets-to-posts.php:514-591 | Running the sync a second time over the same rows creates and updates nothing and leaves the store as the first run left it. |
| Sync.SecondProcessIsQuiet | sheets-to-posts.php:414-603 | Calling `s2p_process_sheet` a second time without a dry run leaves the store as the first call left it, and creates and updates nothing. |

## Left out

- The HTTP request (`wp_remote_get`, `wp_remote_retrieve_body`) is an oracle from URL to optional body. The request timeout is not modelled.
- `str_getcsv` is an uninterpreted function from line to cells; CSV quoting is not modelled.
- The sanitisers and escapers (`sanitize_text_field`, `esc_html`, `esc_url_raw`, `sanitize_key`, `wp_kses_post`, `wp_unslash`) are uninterpreted.
- `md5(json_encode(...))` is an uninterpreted digest of the hash record.
- Post persistence (`get_page_by_title`, `get_post_meta`, `wp_insert_post`, `wp_update_post`, `update_post_meta`) is a map from title to id and hash. A write's success is an oracle.
- Post content, status and type are passed to the write but not kept in the store.
- Sync.SyncRow: with a post type that is blank after trimming, `s2p_find_post_by_title` returns 0 (lines 112-114), so every run inserts another post with the same title. The store is keyed by title, so the model's insert replaces the earlier entry: the counters agree, but the store holds one post where WordPress holds several.
- Category and tag assignment after a write (`s2p_ensure_category`, lines 126-137; lines 577-584) is left out. It affects neither the counters nor the store of titles and hashes.
- `s2p_set_featured_image_from_url` beyond its first test is one oracle: URL validation, the same-URL shortcut, the download, the sideload and the thumbnail meta.
- The options storage is left out: `get_option`/`update_option`, `s2p_get_sheets` with its migration from the single-sheet options (lines 322-344), and the option write in `s2p_save_sheets`.
- The admin page, the form handlers and nonces, and the preview's rendering (lines 609 onwards) are left out.
- The human-readable `action` and `meta` strings of the preview and the error message texts are left out. They are represented by the `Action` and `SyncError` constructors.
- Hooks, activation and constants beyond the default template are left out.
- The bold and italic `preg_replace` calls (lines 261-262) return `null` when PCRE reaches its backtracking or recursion limit. `Markdown.Emphasize` always returns the replaced text, because resource limits of the regex engine are not modelled.
- Markdown.BlocksNested: the list structure is stated over the emitted blocks. It is not stated over the final HTML string, because `esc_html` is uninterpreted and could itself produce `<ul>`-like text.
- Markdown.Emphasize: the contract covers only text without the marker. The general case is stated by `Markdown.EmphasizeMatch` and `Markdown.EmphasizePlain`.
- Tags.ParseTags: the contract gives the shape of the result. Its exact content is given by `Tags.ParseTagsComma` and `Tags.ParseTagsPart`.
- Tags.ParseTagsJoin: stated for non-empty lists. The empty list is not a value `explode` produces, and a blank cell parses to `[]` by `Tags.ParseTags`.
- Template.ApplyTemplateMatchesReference: stated only for templates and values without braces. Outside that, the loop's re-substitution is exhibited by `Template.ResubstitutionExample` rather than described in general.
- Sync.SecondSyncIsQuiet: the rows are taken as already prepared, and the lemma assumes:
  - writes succeed;
  - the post type is not blank after trimming;
  - digests are truthy;
  - the sanitised titles are trimmed;
  - kept rows have distinct titles.

  Two kept rows with the same title would update one post twice, and the second run would then still update it.
- Sync.SecondProcessIsQuiet: the same assumptions, stated for the rows the loaded sheet prepares.
- Sync.AttachImage: success or failure of a non-blank URL is an oracle, so the contract states only when the step is attempted.
- Sync.ProcessSheet: `$sheet_key` and `$name` are passed through unchanged, as in the source. PHP's `(string)` and `(int)` casts of non-string settings and of the test-row index are not modelled; the index is an `int`.
