/**
 * The checks the `/summarize` route of app.py makes on a request before any
 * model is called: the summary level and question count fall back to their
 * defaults, and the input (pasted text, a URL or an uploaded file) is
 * accepted only when it yields at least 50 characters of text.
 */
module Request {
  import opened Strings
  import opened Wrappers

  const DefaultLevel := "summary"
  const DefaultQuestionCount := 5
  const MinTextLength := 50

  predicate IsLevel(level: string) {
    level == "abstract" || level == "summary" || level == "article"
  }

  predicate IsQuestionCount(n: int) {
    n == 3 || n == 5 || n == 10
  }

  /** The route reassigns an unknown level to "summary" and an unknown
      question count to 5, and keeps the values it knows. */
  method DefaultParameters(level: string, numQuestions: int) returns (lvl: string, n: int)
    ensures IsLevel(lvl) && IsQuestionCount(n)
    ensures lvl == level <==> IsLevel(level)
    ensures lvl != level ==> lvl == DefaultLevel
    ensures n == numQuestions <==> IsQuestionCount(numQuestions)
    ensures n != numQuestions ==> n == DefaultQuestionCount
  {
    lvl, n := level, numQuestions;
    if !IsLevel(lvl) {
      lvl := DefaultLevel;
    }
    if !IsQuestionCount(n) {
      n := DefaultQuestionCount;
    }
  }

  /** An uploaded file as the route sees it: its name as sent by the client. */
  datatype Upload = Upload(filename: string)

  /** The submitted form: its text fields and the uploaded file, if any. */
  datatype Form = Form(fields: map<string, string>, file: Option<Upload>)

  /** request.form.get(key, default). */
  function Get(form: Form, key: string, default: string): string {
    if key in form.fields then form.fields[key] else default
  }

  /** The three text extractors; None stands for the exception each raises
      when the page, PDF or text file cannot be read. */
  datatype Extractors = Extractors(
    fromUrl: string -> Option<string>,
    fromPdf: Upload -> Option<string>,
    fromTxt: Upload -> Option<string>)

  datatype Rejection =
    | TextTooShort
    | UrlMissing
    | ExtractionFailed
    | ExtractedTooShort
    | NoFile
    | NoFileSelected
    | UnsupportedFileType
    | InvalidInputType

  /** The HTTP status the route answers a rejection with: a failed extraction
      reaches the route's exception handler (500); every other check answers 400. */
  function Status(reason: Rejection): (status: nat)
    ensures status == 500 <==> reason == ExtractionFailed
    ensures status == 400 || status == 500
  {
    if reason == ExtractionFailed then 500 else 400
  }

  datatype Intake = Accepted(text: string, sourceInfo: string) | Rejected(reason: Rejection)

  /** The extractor the file's name selects, by its lower-cased extension. */
  function FileKind(filename: string): (kind: Option<bool>)
    ensures kind == Some(true) <==> |filename| >= 4 && Lower(filename[|filename| - 4..]) == ".pdf"
    ensures kind == Some(false) <==> |filename| >= 4 && Lower(filename[|filename| - 4..]) == ".txt"
  {
    LowerSuffix(filename, 4);
    var name := Lower(filename);
    if EndsWith(name, ".pdf") then Some(true)
    else if EndsWith(name, ".txt") then Some(false)
    else None
  }

  /** Lower-casing commutes with taking the last `n` characters. */
  lemma LowerSuffix(s: string, n: nat)
    ensures n <= |s| ==> Lower(s)[|s| - n..] == Lower(s[|s| - n..])
  {
  }

  /** Extracted text is accepted when it has at least 50 characters. */
  function CheckExtracted(text: Option<string>, sourceInfo: string): (r: Intake)
    ensures r.Accepted? <==> text.Some? && |text.value| >= MinTextLength
    ensures r.Accepted? ==> r == Accepted(text.value, sourceInfo)
    ensures r.Rejected? ==> (r.reason == ExtractionFailed <==> text.None?)
  {
    if text.None? then Rejected(ExtractionFailed)
    else if |text.value| < MinTextLength then Rejected(ExtractedTooShort)
    else Accepted(text.value, sourceInfo)
  }

  /** The input branch of the route: the text to summarise and where it came
      from, or the reason the request is turned away. */
  function ValidateInput(form: Form, extract: Extractors): (r: Intake)
    ensures r.Accepted? ==> |r.text| >= MinTextLength
  {
    var inputType := Get(form, "input_type", "text");
    if inputType == "text" then
      var text := Strip(Get(form, "text", ""));
      if |text| < MinTextLength then Rejected(TextTooShort)
      else Accepted(text, "Direct text input")
    else if inputType == "url" then
      var url := Strip(Get(form, "url", ""));
      if url == "" then Rejected(UrlMissing)
      else CheckExtracted(extract.fromUrl(url), url)
    else if inputType == "file" then
      if form.file.None? then Rejected(NoFile)
      else
        var file := form.file.value;
        if file.filename == "" then Rejected(NoFileSelected)
        else
          var kind := FileKind(file.filename);
          if kind.None? then Rejected(UnsupportedFileType)
          else if kind.value then CheckExtracted(extract.fromPdf(file), file.filename)
          else CheckExtracted(extract.fromTxt(file), file.filename)
    else Rejected(InvalidInputType)
  }

  /** Pasted text is accepted exactly when it has at least 50 characters once
      stripped, and it is then the stripped text that is summarised. */
  lemma PastedText(form: Form, extract: Extractors)
    requires Get(form, "input_type", "text") == "text"
    ensures var r := ValidateInput(form, extract);
      var text := Strip(Get(form, "text", ""));
      (r.Accepted? <==> |text| >= MinTextLength)
      && (r.Accepted? ==> r == Accepted(text, "Direct text input"))
      && (r.Rejected? ==> r.reason == TextTooShort)
  {
  }

  /** Only a URL or file request can fail with status 500, and only when its
      extractor fails. */
  lemma ServerErrorOnlyFromExtraction(form: Form, extract: Extractors)
    ensures var r := ValidateInput(form, extract);
      var inputType := Get(form, "input_type", "text");
      r.Rejected? && Status(r.reason) == 500 ==>
        (inputType == "url" && extract.fromUrl(Strip(Get(form, "url", ""))).None?)
        || (inputType == "file" && form.file.Some?
            && (extract.fromPdf(form.file.value).None? || extract.fromTxt(form.file.value).None?))
  {
  }

  /** An accepted upload has a name ending in ".pdf" or ".txt" in any letter
      case, and the name is reported as the source. */
  lemma AcceptedUpload(form: Form, extract: Extractors)
    requires Get(form, "input_type", "text") == "file"
    ensures var r := ValidateInput(form, extract);
      r.Accepted? ==>
        form.file.Some? && r.sourceInfo == form.file.value.filename
        && (EndsWith(Lower(r.sourceInfo), ".pdf") || EndsWith(Lower(r.sourceInfo), ".txt"))
  {
  }

  /** An input type other than "text", "url" or "file" is always turned away. */
  lemma UnknownInputType(form: Form, extract: Extractors)
    requires Get(form, "input_type", "text") !in {"text", "url", "file"}
    ensures ValidateInput(form, extract) == Rejected(InvalidInputType)
  {
  }

  /** Lower-casing twice is lower-casing once. */
  lemma {:induction false} LowerIdempotent(s: string)
    ensures Lower(Lower(s)) == Lower(s)
  {
    if s != [] {
      LowerIdempotent(s[1..]);
      assert Lower(s)[1..] == Lower(s[1..]);
    }
  }

  /** The extension test ignores letter case: a name and its lower-cased
      form select the same extractor. */
  lemma FileKindIgnoresCase(filename: string)
    ensures FileKind(Lower(filename)) == FileKind(filename)
  {
    LowerIdempotent(filename);
  }
}
