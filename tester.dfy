/** The PHP tester page: it picks a locale and, on a POST with data, calls the QR
    service's API server-to-server and keeps either the image (base64) or an error
    message. PHP strings are modelled as `string` (the accented letters of the message
    tables are single characters, not their UTF-8 bytes); `urlencode`,
    `base64_encode` and the HTTP fetch are passed in as functions. */
module Tester {

  import opened Common
  import PyText
  import QrGen

  /** The user-visible strings of the tester, per locale. */
  const TesterI18n: map<string, map<string, string>> := map[
    "fr" := map[
      "title" := "Testeur de Microservice",
      "subtitle" := "Test de connexion vers l'hôte : <code>qrgen</code>",
      "form_title" := "Générer un QR via l'API",
      "label" := "Contenu à encoder :",
      "placeholder" := "Tapez un texte ou une URL...",
      "submit" := "Envoyer la requête",
      "success" := "Succès !",
      "msg" := "Image reçue via le proxy sécurisé :",
      "error_conn" := "La connexion a échoué. Vérifiez que les conteneurs sont sur le même réseau.",
      "switch" := "English"
    ],
    "en" := map[
      "title" := "Microservice Tester",
      "subtitle" := "Testing connection to internal host: <code>qrgen</code>",
      "form_title" := "Generate QR via API",
      "label" := "Content to encode:",
      "placeholder" := "Type text or URL...",
      "submit" := "Submit Request",
      "success" := "Success!",
      "msg" := "Image received via secure proxy:",
      "error_conn" := "API connection failed. Ensure both containers are on the same Docker network.",
      "switch" := "Français"
    ]
  ]

  /** The locale: `$_GET['lang']` when given, forced to `en` unless it is a table key;
      without it, `fr` exactly when the `Accept-Language` header (empty when missing)
      contains `fr`, compared case-sensitively. */
  function TesterLocale(langArg: Option<string>, acceptLanguage: Option<string>): (lang: string)
    ensures lang in TesterI18n
    ensures langArg.Some? ==> lang == (if langArg.value in TesterI18n then langArg.value else "en")
    ensures langArg.None? ==> (lang == "fr" <==> Contains(acceptLanguage.GetOr(""), "fr"))
  {
    var chosen :=
      if langArg.Some? then langArg.value
      else if Contains(acceptLanguage.GetOr(""), "fr") then "fr"
      else "en";
    if chosen in TesterI18n then chosen else "en"
  }

  /** PHP's `empty()` on a possibly missing string: missing, `""` and `"0"` are empty. */
  predicate PhpEmpty(v: Option<string>) {
    v.None? || v.value == "" || v.value == "0"
  }

  /** What `file_get_contents` returns: `false` on failure, or the body. */
  datatype FetchResult = Failed | Body(bytes: string)

  /** PHP truthiness of that result: `false`, `""` and `"0"` are falsy. */
  predicate Truthy(r: FetchResult) {
    r.Body? && r.bytes != "" && r.bytes != "0"
  }

  /** Configuration read with `getenv`; an unset variable is `false`, which
      concatenates as `""`. */
  datatype TesterEnv = TesterEnv(apiUrl: Option<string>, apiToken: Option<string>)

  /** Library and network calls of the page. */
  datatype PhpCalls = PhpCalls(
    urlencode: string -> string,
    base64Encode: string -> string,
    fetch: string -> FetchResult)

  /** The URL the page requests: only the data is URL-encoded, the token is not. */
  function Target(env: TesterEnv, text: string, urlencode: string -> string): string {
    env.apiUrl.GetOr("") + "?token=" + env.apiToken.GetOr("") + "&data=" + urlencode(text)
  }

  /** Lines 39-62 of the page: choose the locale, then, on a POST whose `data` is not
      empty, request the API and keep either the base64 image or the connection error.
      `target` is the URL requested, if any. */
  method HandleTester(
    requestMethod: string,
    langArg: Option<string>,
    acceptLanguage: Option<string>,
    postData: Option<string>,
    env: TesterEnv,
    php: PhpCalls)
    returns (lang: string, qrBase64: Option<string>, error: Option<string>, target: Option<string>)
    ensures lang == TesterLocale(langArg, acceptLanguage) && lang in TesterI18n
    ensures target.Some? <==> requestMethod == "POST" && !PhpEmpty(postData)
    ensures target.None? ==> qrBase64.None? && error.None?
    ensures target.Some? ==>
              target.value == Target(env, postData.value, php.urlencode) &&
              (qrBase64.Some? <==> error.None?) &&
              (Truthy(php.fetch(target.value)) ==>
                 qrBase64 == Some(php.base64Encode(php.fetch(target.value).bytes))) &&
              (!Truthy(php.fetch(target.value)) ==> error == Some(TesterI18n[lang]["error_conn"]))
  {
    lang := TesterLocale(langArg, acceptLanguage);
    var t := TesterI18n[lang];

    qrBase64 := None;
    error := None;
    target := None;

    if requestMethod == "POST" && !PhpEmpty(postData) {
      var text := postData.value;
      var url := Target(env, text, php.urlencode);
      target := Some(url);
      var imageData := php.fetch(url);
      if Truthy(imageData) {
        qrBase64 := Some(php.base64Encode(imageData.bytes));
      } else {
        error := Some(t["error_conn"]);
      }
    }
  }

  /** A given `lang` decides alone: the header is ignored, and an unknown value gives
      `en` rather than falling back to the header. */
  lemma TesterLangArgIgnoresHeader(v: string, h1: Option<string>, h2: Option<string>)
    ensures TesterLocale(Some(v), h1) == TesterLocale(Some(v), h2)
    ensures v != "fr" && v != "en" ==> TesterLocale(Some(v), h1) == "en"
  {
  }

  /** The two locale rules disagree: the tester's header test is case-sensitive, and an
      unsupported `lang` does not fall back to the header as it does in the service. */
  lemma LocaleRulesDiffer()
    ensures QrGen.CurrentLocale(None, Some("FR")) == "fr" && TesterLocale(None, Some("FR")) == "en"
    ensures QrGen.CurrentLocale(Some("de"), Some("fr")) == "fr" && TesterLocale(Some("de"), Some("fr")) == "en"
  {
    UpperCaseHeader();
    assert Contains("fr", "fr");
  }

  /** Header `FR`: found by the service's lower-cased test, missed by `strpos`. */
  lemma UpperCaseHeader()
    ensures Contains(PyText.Lower("FR"), "fr") && !Contains("FR", "fr")
  {
    assert PyText.Lower("FR") == "fr";
    assert "FR"[..2] == "FR" && "FR"[1..] == "R";
  }
}
