# QR code generator: decision logic

A Dafny model of the request logic of a small QR-code web utility and of its PHP API
tester. The service (`app_qrgen.py`) turns a text into a PNG download, turns an uploaded
text file into a ZIP archive with one PNG per non-blank line, and offers a token-protected
`/api/generate` endpoint. The tester (`tester/index.php`) calls that endpoint
server-to-server and shows the image or a connection error. QR symbol encoding, UTF-8
decoding, ZIP packing, HTTP and templating are libraries; the model takes them as
function-valued parameters and proves properties of the logic around them.

Files:

- `common.dfy` (module `Common`): `Option`, bytes, and the substring test used by both
  locale rules (`'fr' in s` in Python, `strpos(...) !== false` in PHP).
- `pytext.dfy` (module `PyText`): the Python `str` operations the upload branch relies on.
  These are `strip` (with Python's `isspace` table), `splitlines` (with its line-boundary
  table and the `\r\n` rule), `lower`, and `str(n)` for the member names.
- `qrgen.dfy` (module `QrGen`): `get_current_locale`, `index` with its batch loop, and
  `api_generate`.
- `tester.dfy` (module `Tester`): the tester's locale rule and its request/outcome block.

`index` is a pure decision function, `QrGen.Index`, except for its upload branch. That
branch is a loop that counts members and appends them to the archive. It is the method
`QrGen.HandleUpload`, proved to compute `QrGen.UploadOutcome`. That function is built on
`QrGen.Batch`, the archive the loop writes, and the lemmas state what `Batch` is: one
member per line with content, in line order, named after the line's original 1-based
number, all names distinct. The tester's block assigns `$qr_base64` and `$error` step by
step, so it is a method, `Tester.HandleTester`.

Two details of the code that the model follows literally:

- Archive member numbers follow the original line index, so blank lines use up numbers
  (`["a", "", "b"]` gives `qr_1.png` and `qr_3.png`).
- `api_generate` rejects an empty `data` as well as a missing one (`if not data`).

## Model

| member | source | states |
|---|---|---|
| `Common.ContainsIff` | app_qrgen.py:125 | the substring scan succeeds exactly when the needle occurs at some position |
| `PyText.StripSlice` | app_qrgen.py:149 | `strip()` returns the slice left after removing the maximal whitespace prefix and suffix; everything removed is whitespace and a non-empty result starts and ends with non-whitespace |
| `PyText.StripEmptyIffBlank` | app_qrgen.py:149-150 | the stripped line is empty exactly when the line is all whitespace |
| `PyText.StripIdempotent` | app_qrgen.py:149 | stripping a stripped line changes nothing |
| `PyText.StripUnchanged` | app_qrgen.py:149 | a line that neither starts nor ends with whitespace is returned unchanged |
| `PyText.SplitLinesNoBoundary` | app_qrgen.py:141 | no line returned by `splitlines()` contains a line boundary; only the empty text has no lines |
| `PyText.SplitTerminated` | app_qrgen.py:141 | `splitlines` inverts writing boundary-free lines each followed by one terminator (`\n`, `\r\n`, `\r` or any other boundary) |
| `PyText.SplitWritten` | app_qrgen.py:141 | the general round trip: boundary-free lines each written with its own terminator (kinds may be mixed), plus an optional last line with no terminator, come back from `splitlines` unchanged; the one exclusion is a lone `\r` followed by an empty line ended by `\n`, which the text cannot distinguish from `\r\n` |
| `PyText.SplitLinesMixedExample` | app_qrgen.py:141 | `"a\r\n\nb\rc"` splits into `["a", "", "b", "c"]`: mixed breaks, and a last line without one is kept |
| `PyText.SplitLinesExample` | app_qrgen.py:141 | `"a\r\n\r\nb\r\n"` splits into `["a", "", "b"]`: `\r\n` is one break, inner empty lines stay, a final break adds nothing |
| `PyText.LowerContainsFr` | app_qrgen.py:125 | `"fr" in h.lower()` holds exactly when `h` contains `fr` in some mix of upper and lower case |
| `PyText.Decimal` | app_qrgen.py:152 | `str(n)` is a non-empty string of digits with no leading zero |
| `PyText.ParseDecimalInverse` | app_qrgen.py:152 | reading the decimal rendering back gives the number |
| `PyText.DecimalInjective` | app_qrgen.py:152 | different numbers render differently |
| `QrGen.CurrentLocale` | app_qrgen.py:119-125 | result is always a key of `I18N`; a `lang` of `fr` or `en` is returned unchanged whatever the header; otherwise `fr` exactly when the lower-cased header (empty if missing) contains `fr`, else `en` |
| `QrGen.CurrentLocaleIgnoresCase` | app_qrgen.py:124-125 | without a supported `lang`, the result is `fr` exactly when the header contains `fr` in any case |
| `QrGen.CurrentLocaleExamples` | app_qrgen.py:119-125 | `lang=fr` wins over any header; header `en-US,en;q=0.9` gives `en`, `fr-FR` gives `fr` |
| `QrGen.QrNameInjective` | app_qrgen.py:152 | `qr_<a>.png` and `qr_<b>.png` are equal only when `a == b` |
| `QrGen.HasContentIff` | app_qrgen.py:149-150 | the test the model uses for “produces a member” holds exactly when `line.strip()` is non-empty, that is, when the line is not all whitespace |
| `QrGen.KeptExactly` | app_qrgen.py:148-150 | the lines that produce a member are exactly those whose stripped content is non-empty, each once, in increasing order |
| `QrGen.BatchByLine` | app_qrgen.py:148-153 | member `k` of the archive comes from the `k`-th kept line `i`: it is named `qr_<i+1>.png` and holds `Encode(strip(line i))`; there are as many members as kept lines |
| `QrGen.BatchNamesDistinct` | app_qrgen.py:148-152 | no two members of the archive share a name |
| `QrGen.BatchEmptyIffAllBlank` | app_qrgen.py:148-154 | the archive is empty exactly when every line (possibly none) is blank |
| `QrGen.BatchSkipsBlankNumbers` | app_qrgen.py:148-153 | lines `["a", "", "b"]` give exactly `qr_1.png` and `qr_3.png`: blank lines use up their numbers |
| `QrGen.HandleUpload` | app_qrgen.py:140-157 | the decode, the counting loop and the empty check produce exactly `UploadOutcome`; the loop keeps the archive equal to `Batch` of the lines seen and the counter equal to its length |
| `QrGen.UploadOutcomeCases` | app_qrgen.py:140-157 | non-UTF-8 bytes give `err_encoding` with 400 and no archive; otherwise `err_empty` with 400 exactly when all lines are blank, and a non-empty `qrcodes_batch.zip` of `Batch` exactly when some line has content |
| `QrGen.Index` | app_qrgen.py:128-159 | every answer of the page has status 200 or 400 |
| `QrGen.IndexGetRendersForm` | app_qrgen.py:127-159 | any method but POST (GET, or the HEAD the framework adds to the route) renders the form in the resolved locale |
| `QrGen.IndexTextFirst` | app_qrgen.py:133-136 | a POST with non-empty `text_data` answers `qrcode.png` of the unstripped text as an attachment, and the file field makes no difference |
| `QrGen.IndexFallThrough` | app_qrgen.py:138-159 | a POST with no usable text and no file, or a file with an empty filename, renders the form |
| `QrGen.IndexUpload` | app_qrgen.py:138-139 | a POST with no text and a named file is answered by the upload branch |
| `QrGen.IndexErrorsAreUploadErrors` | app_qrgen.py:140-157 | a 400 answer comes exactly from an upload that is not UTF-8 or has no non-blank line; a ZIP answer always has members with distinct names |
| `QrGen.ApiGenerate` | app_qrgen.py:162-173 | 403 exactly when the token is missing or differs from `API_TOKEN`; with the right token, 400 `{"error": "Missing 'data' parameter"}` exactly when `data` is missing or empty; otherwise an inline (non-attachment) PNG of `data` |
| `QrGen.ApiTokenBeforeData` | app_qrgen.py:164-166 | with a wrong token the answer is 403 whatever `data` is |
| `Tester.TesterLocale` | tester/index.php:39-42 | result is always a key of `$i18n`; a given `lang` decides alone, unknown values becoming `en`; without it, `fr` exactly when the header contains `fr` case-sensitively |
| `Tester.TesterLangArgIgnoresHeader` | tester/index.php:40-41 | with `lang` set, the header makes no difference, and an unsupported value gives `en` |
| `Tester.LocaleRulesDiffer` | tester/index.php:40 | the two locale rules disagree: header `FR` gives `fr` in the service and `en` in the tester; `lang=de` with header `fr` gives `fr` in the service and `en` in the tester |
| `Tester.HandleTester` | tester/index.php:44-62 | a request is made exactly on a POST whose `data` is not PHP-empty (`"0"` is empty); then the target is `api_url?token=<token>&data=<urlencode(data)>` and exactly one of `qr_base64` (base64 of a truthy body) and `error` (`error_conn`, when the body is `false`, empty or `"0"`) is set; without a request both stay null |

## Left out

- QR encoding and PNG rendering (`generate_qr_buffer`, app_qrgen.py:108-117) are the parameter `encode`. The model treats it as total, so the failure the `qrcode` library raises for a text too long for any symbol version (an unhandled 500) is not modelled.
- UTF-8 decoding is the parameter `decodeUtf8` (`None` for malformed bytes); the decoder itself is not modelled.
- The ZIP container format: the archive is the sequence of its members (name and PNG bytes), not bytes.
- Flask routing, `send_file`, `abort`, CORS, `render_template_string` and the HTML templates of both files (app_qrgen.py:56-106, tester/index.php:63-117). The rendered page is the response `Form(lang)`. The tester's output is the values of `$lang`, `$qr_base64` and `$error`.
- OPTIONS, which Flask and the CORS extension answer without running `index`, and the other methods the route does not accept, which get 405. HEAD runs `index` like GET and is modelled; that the server then drops the body is not.
- Environment loading (`load_dotenv`, `os.getenv`, `PORT`, `getenv` in the tester). `API_TOKEN` is a parameter. The tester's `QR_API_URL` and `QR_API_TOKEN` are optional strings, and an unset one concatenates as `""`.
- `PyText.Lower` maps only ASCII letters; Python's full Unicode lower-casing is not modelled.
- `PyText.IsSpace` and `PyText.IsLineBoundary` are fixed tables of code points, not a Unicode database.
- The tester's server-to-server `file_get_contents` call is the parameter `fetch`, and `urlencode` and `base64_encode` are parameters too; their internals are not modelled.
- PHP strings are sequences of characters; the accented letters of the message tables are kept as single characters rather than their UTF-8 bytes, which no property depends on. Query or form values sent as arrays (`lang[]=x`) are not modelled.
- Concurrency: requests share no mutable state, so each is modelled on its own.
