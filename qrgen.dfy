/** The Flask QR-code service: locale selection, the `/` page (single text or batch file
    upload) and the token-protected `/api/generate` endpoint. The QR encoder and the UTF-8
    decoder are libraries, passed in as functions. */
module QrGen {

  import opened Common
  import opened PyText

  // ---------------------------------------------------------------------------
  // Configuration and collaborators

  /** The foreign code the service calls: `generate_qr_buffer` (text to PNG bytes, through
      the `qrcode` library) and `bytes.decode('utf-8')`, which fails on malformed input. */
  datatype Libraries = Libraries(encode: string -> Bytes, decodeUtf8: Bytes -> Option<string>)

  /** The user-visible strings, per locale. */
  const I18N: map<string, map<string, string>> := map[
    "fr" := map[
      "title" := "Générateur de QR Code",
      "subtitle" := "Outil interne - Unitaire & Batch",
      "single_title" := "Génération Unique",
      "single_label" := "Texte ou URL :",
      "single_btn" := "Télécharger le PNG",
      "batch_title" := "Import par fichier (Batch)",
      "batch_label" := "Fichier .txt ou .csv (un QR par ligne) :",
      "batch_btn" := "Générer le Pack ZIP",
      "footer" := "Point d'entrée API activé et sécurisé.",
      "err_encoding" := "Erreur d'encodage : le fichier doit être en UTF-8",
      "err_empty" := "Le fichier est vide.",
      "switch" := "English"
    ],
    "en" := map[
      "title" := "QR Code Generator",
      "subtitle" := "Internal tool - Single & Batch",
      "single_title" := "Single Generation",
      "single_label" := "Text or URL:",
      "single_btn" := "Download PNG",
      "batch_title" := "Batch Import",
      "batch_label" := "File .txt or .csv (one QR per line):",
      "batch_btn" := "Generate ZIP Pack",
      "footer" := "API endpoint active and secured.",
      "err_encoding" := "Encoding error: file must be UTF-8",
      "err_empty" := "File is empty.",
      "switch" := "Français"
    ]
  ]

  /** The message of `key` in the table of `lang`. */
  function Message(lang: string, key: string): string
    requires lang in I18N && key in I18N[lang]
  {
    I18N[lang][key]
  }

  // ---------------------------------------------------------------------------
  // Requests and responses

  /** The methods the `/` route accepts: the two it lists, and HEAD, which the
      framework adds to every route that accepts GET. */
  datatype HttpMethod = GET | HEAD | POST

  /** An uploaded file; a missing filename reads as `""`. */
  datatype Upload = Upload(filename: string, content: Bytes)

  /** What `index` reads from a request: the method, `?lang=`, the `Accept-Language`
      header and the two form fields. */
  datatype IndexRequest = IndexRequest(
    verb: HttpMethod,
    langArg: Option<string>,
    acceptLanguage: Option<string>,
    textData: Option<string>,
    fileData: Option<Upload>)

  /** What `api_generate` reads: the `token` and `data` query parameters. */
  datatype ApiRequest = ApiRequest(token: Option<string>, data: Option<string>)

  /** One member of the ZIP archive. */
  datatype Entry = Entry(name: string, image: Bytes)

  /** The responses the service produces. */
  datatype Response =
    | Form(lang: string)                                // the rendered HTML page
    | PngFile(image: Bytes, attachment: Option<string>)  // image/png; Some(name): an attachment
    | ZipFile(entries: seq<Entry>, downloadName: string) // application/zip attachment
    | Text(status: nat, body: string)                   // a plain message with a status
    | JsonError(status: nat, error: string)             // {"error": ...} with a status
    | Abort(status: nat)                                // abort(status)

  function Status(r: Response): nat {
    match r
    case Text(status, _) => status
    case JsonError(status, _) => status
    case Abort(status) => status
    case _ => 200
  }

  // ---------------------------------------------------------------------------
  // get_current_locale

  /** A supported `?lang=` value wins; otherwise French exactly when the lower-cased
      `Accept-Language` header (empty when missing) contains `fr`. */
  function CurrentLocale(langArg: Option<string>, acceptLanguage: Option<string>): (lang: string)
    ensures lang in I18N
    ensures (langArg == Some("fr") || langArg == Some("en")) ==> lang == langArg.value
    ensures !(langArg == Some("fr") || langArg == Some("en")) ==>
              (lang == "fr" <==> Contains(Lower(acceptLanguage.GetOr("")), "fr"))
  {
    if langArg == Some("fr") || langArg == Some("en") then langArg.value
    else if Contains(Lower(acceptLanguage.GetOr("")), "fr") then "fr"
    else "en"
  }

  /** Without a supported `?lang=`, the header test ignores case: French exactly when
      the header holds `fr`, `fR`, `Fr` or `FR`. */
  lemma CurrentLocaleIgnoresCase(langArg: Option<string>, acceptLanguage: Option<string>)
    requires langArg != Some("fr") && langArg != Some("en")
    ensures CurrentLocale(langArg, acceptLanguage) == "fr" <==> exists i :: FrAt(acceptLanguage.GetOr(""), i)
  {
    LowerContainsFr(acceptLanguage.GetOr(""));
  }

  /** A `?lang=` of `fr` wins over any header; `en-US,en;q=0.9` gives English and
      `fr-FR` French. */
  lemma CurrentLocaleExamples(header: Option<string>)
    ensures CurrentLocale(Some("fr"), header) == "fr"
    ensures CurrentLocale(None, Some("en-US,en;q=0.9")) == "en"
    ensures CurrentLocale(None, Some("fr-FR")) == "fr"
  {
    var h := "en-US,en;q=0.9";
    assert Lower(h) == "en-us,en;q=0.9";
    assert !exists i :: FrAt(h, i);
    LowerContainsFr(h);
    assert Lower("fr-FR")[..2] == "fr";
  }

  // ---------------------------------------------------------------------------
  // The batch archive

  /** Name of the archive member of line number `n` (1-based): `qr_<n>.png`. */
  function QrName(n: nat): string {
    "qr_" + Decimal(n) + ".png"
  }

  /** Different line numbers give different member names. */
  lemma QrNameInjective(a: nat, b: nat)
    ensures QrName(a) == QrName(b) ==> a == b
  {
    if QrName(a) == QrName(b) {
      assert QrName(a)[3..|QrName(a)| - 4] == Decimal(a);
      assert QrName(b)[3..|QrName(b)| - 4] == Decimal(b);
      DecimalInjective(a, b);
    }
  }

  /** The archive the upload loop writes, one line at a time: for the 0-based line `i`
      whose stripped content is non-empty, the member `qr_<i+1>.png` holding the QR code
      of that stripped content. */
  function Batch(lines: seq<string>, encode: string -> Bytes): seq<Entry>
    decreases |lines|
  {
    if lines == [] then []
    else
      var i := |lines| - 1;
      Batch(lines[..i], encode) + (if HasContent(lines[i]) then [Entry(QrName(i + 1), encode(Strip(lines[i])))] else [])
  }

  /** The 0-based indices of the lines that produce a member, in line order. */
  function Kept(lines: seq<string>): seq<nat>
    decreases |lines|
  {
    if lines == [] then []
    else
      var i := |lines| - 1;
      Kept(lines[..i]) + (if HasContent(lines[i]) then [i] else [])
  }

  /** A line produces a member when some character of it is not whitespace, that is,
      when its stripped content is non-empty (`HasContentIff`). */
  predicate HasContent(line: string)
    decreases |line|
  {
    line != [] && (!IsSpace(line[0]) || HasContent(line[1..]))
  }

  /** `HasContent` is the source's test `if line.strip():`. */
  lemma {:induction false} HasContentIff(line: string)
    ensures HasContent(line) <==> Strip(line) != []
    ensures HasContent(line) <==> !IsBlank(line)
    decreases |line|
  {
    StripEmptyIffBlank(line);
    if line != [] {
      HasContentIff(line[1..]);
      if IsBlank(line[1..]) && IsSpace(line[0]) {
        forall k | 0 <= k < |line| ensures IsSpace(line[k]) {
          if k > 0 { assert line[k] == line[1..][k - 1]; }
        }
      }
      if IsBlank(line) {
        forall k | 0 <= k < |line| - 1 ensures IsSpace(line[1..][k]) {
          assert line[1..][k] == line[k + 1];
        }
      }
    }
  }

  /** Every line is whitespace only (vacuously so when there are no lines). */
  predicate AllBlank(lines: seq<string>) {
    forall i :: 0 <= i < |lines| ==> IsBlank(lines[i])
  }

  /** `Kept` holds exactly the lines with content, each once, in increasing order. */
  lemma {:induction false} KeptExactly(lines: seq<string>)
    ensures forall k :: 0 <= k < |Kept(lines)| ==> Kept(lines)[k] < |lines| && HasContent(lines[Kept(lines)[k]])
    ensures forall j, k :: 0 <= j < k < |Kept(lines)| ==> Kept(lines)[j] < Kept(lines)[k]
    ensures forall i :: 0 <= i < |lines| && HasContent(lines[i]) ==> i in Kept(lines)
    decreases |lines|
  {
    if lines != [] {
      var i := |lines| - 1;
      var front := lines[..i];
      var kf := Kept(front);
      KeptExactly(front);
      var tail := if HasContent(lines[i]) then [i] else [];
      assert Kept(lines) == kf + tail;
      forall k | 0 <= k < |Kept(lines)|
        ensures Kept(lines)[k] < |lines| && HasContent(lines[Kept(lines)[k]])
      {
        if k < |kf| {
          assert Kept(lines)[k] == kf[k] && lines[kf[k]] == front[kf[k]];
        }
      }
      forall j | 0 <= j < i && HasContent(lines[j]) ensures j in Kept(lines) {
        assert lines[j] == front[j];
      }
    }
  }

  /** Member `k` of the archive comes from line `Kept(lines)[k]`: it is named after that
      line's 1-based number and holds the QR code of its stripped content. */
  lemma {:induction false} BatchByLine(lines: seq<string>, encode: string -> Bytes)
    ensures |Batch(lines, encode)| == |Kept(lines)|
    ensures forall k :: 0 <= k < |Kept(lines)| ==>
              Kept(lines)[k] < |lines| &&
              Batch(lines, encode)[k] == Entry(QrName(Kept(lines)[k] + 1), encode(Strip(lines[Kept(lines)[k]])))
    decreases |lines|
  {
    if lines != [] {
      var i := |lines| - 1;
      var front := lines[..i];
      BatchByLine(front, encode);
      var kf, bf := Kept(front), Batch(front, encode);
      var tail := if HasContent(lines[i]) then [i] else [];
      var entry := Entry(QrName(i + 1), encode(Strip(lines[i])));
      assert Kept(lines) == kf + tail;
      assert Batch(lines, encode) == bf + (if HasContent(lines[i]) then [entry] else []);
      forall k | 0 <= k < |Kept(lines)|
        ensures Kept(lines)[k] < |lines|
        ensures Batch(lines, encode)[k] == Entry(QrName(Kept(lines)[k] + 1), encode(Strip(lines[Kept(lines)[k]])))
      {
        if k < |kf| {
          assert Kept(lines)[k] == kf[k];
          assert lines[kf[k]] == front[kf[k]];
        } else {
          assert Kept(lines)[k] == i;
        }
      }
    }
  }

  /** Every member of the archive has its own name. */
  lemma BatchNamesDistinct(lines: seq<string>, encode: string -> Bytes)
    ensures forall j, k :: 0 <= j < k < |Batch(lines, encode)| ==>
              Batch(lines, encode)[j].name != Batch(lines, encode)[k].name
  {
    BatchByLine(lines, encode);
    KeptExactly(lines);
    forall j, k | 0 <= j < k < |Batch(lines, encode)|
      ensures Batch(lines, encode)[j].name != Batch(lines, encode)[k].name
    {
      QrNameInjective(Kept(lines)[j] + 1, Kept(lines)[k] + 1);
    }
  }

  /** The archive is empty exactly when every line is blank (no lines at all included). */
  lemma BatchEmptyIffAllBlank(lines: seq<string>, encode: string -> Bytes)
    ensures Batch(lines, encode) == [] <==> AllBlank(lines)
  {
    BatchByLine(lines, encode);
    KeptExactly(lines);
    if Kept(lines) != [] {
      HasContentIff(lines[Kept(lines)[0]]);
    } else {
      forall i | 0 <= i < |lines| ensures IsBlank(lines[i]) {
        HasContentIff(lines[i]);
      }
    }
  }

  /** Blank lines use up their numbers: `["a", "", "b"]` gives `qr_1.png` and `qr_3.png`. */
  lemma BatchSkipsBlankNumbers(encode: string -> Bytes)
    ensures Batch(["a", "", "b"], encode) == [Entry("qr_1.png", encode("a")), Entry("qr_3.png", encode("b"))]
  {
    BatchOfFirstTwo(encode);
    StripUnchanged("b");
    QrNameExamples();
    var lines := ["a", "", "b"];
    assert lines[..2] == ["a", ""];
  }

  lemma BatchOfFirstTwo(encode: string -> Bytes)
    ensures Batch(["a", ""], encode) == [Entry("qr_1.png", encode("a"))]
  {
    StripUnchanged("a");
    QrNameExamples();
    assert ["a", ""][..1] == ["a"] && ["a"][..0] == [];
    assert Batch(["a"], encode) == [Entry("qr_1.png", encode("a"))];
  }

  lemma QrNameExamples()
    ensures QrName(1) == "qr_1.png" && QrName(3) == "qr_3.png"
  {
    assert Decimal(1) == "1" && Decimal(3) == "3";
  }

  /** Lines 140-157 of `index`: decode the upload, write one member per non-blank line
      while counting them, and refuse an empty archive. */
  function UploadOutcome(content: Bytes, lang: string, libs: Libraries): Response
    requires lang in I18N
  {
    match libs.decodeUtf8(content)
    case None => Text(400, Message(lang, "err_encoding"))
    case Some(text) =>
      var entries := Batch(SplitLines(text), libs.encode);
      if |entries| == 0 then Text(400, Message(lang, "err_empty"))
      else ZipFile(entries, "qrcodes_batch.zip")
  }

  /** The upload branch, run as the source runs it: a loop over the lines with a counter
      and a growing archive. */
  method HandleUpload(content: Bytes, lang: string, libs: Libraries) returns (resp: Response)
    requires lang in I18N
    ensures resp == UploadOutcome(content, lang, libs)
  {
    var decoded := libs.decodeUtf8(content);
    if decoded.None? {
      return Text(400, Message(lang, "err_encoding"));
    }
    var lines := SplitLines(decoded.value);
    var archive: seq<Entry> := [];
    var count := 0;
    for i := 0 to |lines|
      invariant archive == Batch(lines[..i], libs.encode)
      invariant count == |archive|
    {
      assert lines[..i + 1][..i] == lines[..i];
      var stripped := Strip(lines[i]);
      HasContentIff(lines[i]);
      if stripped != [] {
        var image := libs.encode(stripped);
        archive := archive + [Entry(QrName(i + 1), image)];
        count := count + 1;
      }
    }
    assert lines[..|lines|] == lines;
    if count == 0 {
      return Text(400, Message(lang, "err_empty"));
    }
    return ZipFile(archive, "qrcodes_batch.zip");
  }

  /** What an upload leads to: a 400 message when the bytes are not UTF-8; otherwise the
      empty-file 400 message exactly when every line is blank, and else the ZIP archive
      `qrcodes_batch.zip` of `Batch` over the decoded lines, which is never empty. */
  lemma UploadOutcomeCases(content: Bytes, lang: string, libs: Libraries)
    requires lang in I18N
    ensures libs.decodeUtf8(content).None? ==>
              UploadOutcome(content, lang, libs) == Text(400, Message(lang, "err_encoding"))
    ensures libs.decodeUtf8(content).Some? ==>
              var lines := SplitLines(libs.decodeUtf8(content).value);
              (AllBlank(lines) ==> UploadOutcome(content, lang, libs) == Text(400, Message(lang, "err_empty"))) &&
              (!AllBlank(lines) ==>
                 UploadOutcome(content, lang, libs) == ZipFile(Batch(lines, libs.encode), "qrcodes_batch.zip") &&
                 Batch(lines, libs.encode) != [])
  {
    if libs.decodeUtf8(content).Some? {
      BatchEmptyIffAllBlank(SplitLines(libs.decodeUtf8(content).value), libs.encode);
    }
  }

  // ---------------------------------------------------------------------------
  // index

  /** `index`: a POST with non-empty `text_data` downloads that text's QR code as
      `qrcode.png`; otherwise a POST with a named file runs the upload; everything else,
      GET and HEAD included, renders the form. */
  function Index(req: IndexRequest, libs: Libraries): (r: Response)
    ensures Status(r) == 200 || Status(r) == 400
  {
    var lang := CurrentLocale(req.langArg, req.acceptLanguage);
    if req.verb == POST && req.textData.Some? && req.textData.value != "" then
      PngFile(libs.encode(req.textData.value), Some("qrcode.png"))
    else if req.verb == POST && req.fileData.Some? && req.fileData.value.filename != "" then
      UploadOutcome(req.fileData.value.content, lang, libs)
    else
      Form(lang)
  }

  /** Any method but POST (GET, and HEAD, whose body the server then drops) renders
      the form, whatever the fields hold. */
  lemma IndexGetRendersForm(req: IndexRequest, libs: Libraries)
    requires req.verb != POST
    ensures Index(req, libs) == Form(CurrentLocale(req.langArg, req.acceptLanguage))
  {
  }

  /** Text wins over the file: with non-empty `text_data` the response is the QR code of
      the text as given (not stripped), and the file field makes no difference. */
  lemma IndexTextFirst(req: IndexRequest, libs: Libraries, otherFile: Option<Upload>)
    requires req.verb == POST && req.textData.Some? && req.textData.value != ""
    ensures Index(req, libs) == PngFile(libs.encode(req.textData.value), Some("qrcode.png"))
    ensures Index(req.(fileData := otherFile), libs) == Index(req, libs)
  {
  }

  /** A POST with neither usable field falls through to the form. */
  lemma IndexFallThrough(req: IndexRequest, libs: Libraries)
    requires req.verb == POST
    requires req.textData.None? || req.textData.value == ""
    requires req.fileData.None? || req.fileData.value.filename == ""
    ensures Index(req, libs) == Form(CurrentLocale(req.langArg, req.acceptLanguage))
  {
  }

  /** A POST with no text and a named file is answered by the upload branch. */
  lemma IndexUpload(req: IndexRequest, libs: Libraries)
    requires req.verb == POST
    requires req.textData.None? || req.textData.value == ""
    requires req.fileData.Some? && req.fileData.value.filename != ""
    ensures Index(req, libs) ==
              UploadOutcome(req.fileData.value.content, CurrentLocale(req.langArg, req.acceptLanguage), libs)
  {
  }

  /** The page answers 400 exactly for an upload that is not UTF-8 or has no non-blank
      line; every archive it sends has at least one member, all names distinct. */
  lemma IndexErrorsAreUploadErrors(req: IndexRequest, libs: Libraries)
    ensures Status(Index(req, libs)) == 400 ==>
              req.verb == POST && (req.textData.None? || req.textData.value == "") &&
              req.fileData.Some? && req.fileData.value.filename != "" &&
              (libs.decodeUtf8(req.fileData.value.content).None? ||
               AllBlank(SplitLines(libs.decodeUtf8(req.fileData.value.content).value)))
    ensures req.verb == POST && (req.textData.None? || req.textData.value == "") &&
            req.fileData.Some? && req.fileData.value.filename != "" &&
            (libs.decodeUtf8(req.fileData.value.content).None? ||
             AllBlank(SplitLines(libs.decodeUtf8(req.fileData.value.content).value))) ==>
              Status(Index(req, libs)) == 400
    ensures Index(req, libs).ZipFile? ==>
              Index(req, libs).entries != [] &&
              forall j, k :: 0 <= j < k < |Index(req, libs).entries| ==>
                Index(req, libs).entries[j].name != Index(req, libs).entries[k].name
  {
    var lang := CurrentLocale(req.langArg, req.acceptLanguage);
    if req.verb == POST && !(req.textData.Some? && req.textData.value != "") &&
       req.fileData.Some? && req.fileData.value.filename != "" {
      UploadOutcomeCases(req.fileData.value.content, lang, libs);
      var decoded := libs.decodeUtf8(req.fileData.value.content);
      if decoded.Some? {
        BatchNamesDistinct(SplitLines(decoded.value), libs.encode);
      }
    }
  }

  // ---------------------------------------------------------------------------
  // api_generate

  /** The body of the 400 answer to a call without `data`. */
  const MissingData := "Missing 'data' parameter"

  /** `api_generate`: the token is checked first (403 unless it equals `apiToken`),
      then `data` must be present and non-empty (400 with a JSON error), and the QR code
      of `data` is sent inline. */
  function ApiGenerate(req: ApiRequest, apiToken: string, encode: string -> Bytes): (r: Response)
    ensures r == Abort(403) <==> req.token != Some(apiToken)
    ensures r == JsonError(400, MissingData) <==>
              req.token == Some(apiToken) && (req.data.None? || req.data.value == "")
    ensures r.PngFile? <==> req.token == Some(apiToken) && req.data.Some? && req.data.value != ""
    ensures r.PngFile? ==> r == PngFile(encode(req.data.value), None)
  {
    if req.token != Some(apiToken) then Abort(403)
    else if req.data.None? || req.data.value == "" then JsonError(400, MissingData)
    else PngFile(encode(req.data.value), None)
  }

  /** The token is checked before the data: a wrong or missing token gives 403 whatever
      `data` is. */
  lemma ApiTokenBeforeData(req: ApiRequest, apiToken: string, encode: string -> Bytes, otherData: Option<string>)
    requires req.token != Some(apiToken)
    ensures ApiGenerate(req.(data := otherData), apiToken, encode) == ApiGenerate(req, apiToken, encode) == Abort(403)
  {
  }
}
