/** The Moodle course-content extractor: its configuration checks, the
    request payload, the checks on what the two web-service calls return,
    and the turning of a course's sections and modules into an ordered list
    of typed documents for indexing. The web-service responses are inputs. */
module MoodleExtractor {
  import opened Wrappers
  import opened Text
  import opened Html

  // ---------------------------------------------------------------------
  // Configuration

  /** The environment variables the constructor reads; `None` where a
      variable is unset. */
  datatype Env = Env(
    url: Option<string>,
    token: Option<string>,
    extractPages: Option<string>,
    extractFiles: Option<string>,
    extractForums: Option<string>,
    maxFileSizeMb: Option<string>)

  /** The extractor's settings once constructed. */
  datatype Config = Config(
    baseUrl: string,
    token: string,
    wsEndpoint: string,
    extractPages: bool,
    extractFiles: bool,
    extractForums: bool,
    maxFileSizeMb: int)

  /** The sentence that stands in for a file's contents in its document. */
  const FileNotice: string :=
    "This is a file resource. File content extraction can be added in future updates."

  /** Why extraction (or construction) stops. */
  datatype ExtractError =
    | InvalidMaxFileSize
    | UrlNotConfigured
    | TokenNotConfigured
    | CourseNotFound(courseId: int)
    | BadEntity(cause: HtmlError)

  const EndpointPath: string := "/webservice/rest/server.php"

  /** `value.lower() == "true"`. No character outside ASCII lowers to one of
      the letters of "true", so ASCII lowering decides the comparison. */
  predicate IsTrue(value: string): (r: bool)
    ensures r ==> |value| == 4
    ensures value == "true" || value == "True" || value == "TRUE" ==> r
    ensures value == "1" || value == "yes" || value == "false" ==> !r
  {
    |value| == 4 && forall i | 0 <= i < 4 :: AsciiLower(value[i]) == "true"[i]
  }

  /** `MoodleExtractor.__init__`: read the settings with their defaults,
      convert the size limit with `int()` first, then insist on a URL (after
      trailing slashes are removed) and a token. */
  function NewExtractor(env: Env): (r: Result<Config, ExtractError>)
    ensures r.Success? <==>
      ParseInt(env.maxFileSizeMb.GetOr("50")).Some?
      && TrimEndChar(env.url.GetOr(""), '/') != []
      && env.token.GetOr("") != []
    ensures ParseInt(env.maxFileSizeMb.GetOr("50")).None? ==> r == Failure(InvalidMaxFileSize)
    ensures r.Success? ==>
      && r.value.baseUrl != [] && r.value.baseUrl[|r.value.baseUrl| - 1] != '/'
      && r.value.wsEndpoint == r.value.baseUrl + EndpointPath
      && r.value.maxFileSizeMb == ParseInt(env.maxFileSizeMb.GetOr("50")).value
    ensures r.Success? ==>
      && r.value.baseUrl == TrimEndChar(env.url.GetOr(""), '/')
      && r.value.token == env.token.GetOr("")
    ensures r.Success? ==>
      && r.value.extractPages == IsTrue(env.extractPages.GetOr("true"))
      && r.value.extractFiles == IsTrue(env.extractFiles.GetOr("true"))
      && r.value.extractForums == IsTrue(env.extractForums.GetOr("false"))
    ensures ParseInt(env.maxFileSizeMb.GetOr("50")).Some? && TrimEndChar(env.url.GetOr(""), '/') == [] ==>
      r == Failure(UrlNotConfigured)
    ensures
      (ParseInt(env.maxFileSizeMb.GetOr("50")).Some? && TrimEndChar(env.url.GetOr(""), '/') != []
       && env.token.GetOr("") == []) ==>
      r == Failure(TokenNotConfigured)
  {
    var baseUrl := TrimEndChar(env.url.GetOr(""), '/');
    var token := env.token.GetOr("");
    var pages := IsTrue(env.extractPages.GetOr("true"));
    var files := IsTrue(env.extractFiles.GetOr("true"));
    var forums := IsTrue(env.extractForums.GetOr("false"));
    match ParseInt(env.maxFileSizeMb.GetOr("50"))
    case None => Failure(InvalidMaxFileSize)
    case Some(maxMb) =>
      if baseUrl == [] then Failure(UrlNotConfigured)
      else if token == [] then Failure(TokenNotConfigured)
      else Success(Config(baseUrl, token, baseUrl + EndpointPath, pages, files, forums, maxMb))
  }

  /** `int("50")` is 50. */
  lemma DefaultMaxFileSize()
    ensures ParseInt("50") == Some(50)
  {
    ParseIntRoundTrip(50);
    assert NatToString(50) == "50";
  }

  /** With only a URL and a token set, pages and files are extracted,
      forums are not, and the size limit is 50 MB. */
  lemma DefaultSettings(url: string, token: string)
    requires TrimEndChar(url, '/') != [] && token != []
    ensures NewExtractor(Env(Some(url), Some(token), None, None, None, None)).Success?
    ensures var c := NewExtractor(Env(Some(url), Some(token), None, None, None, None)).value;
      c.extractPages && c.extractFiles && !c.extractForums && c.maxFileSizeMb == 50
  {
    DefaultMaxFileSize();
  }

  /** A URL made only of slashes counts as not configured. */
  lemma {:induction false} SlashesOnlyUrl(url: string)
    requires forall i | 0 <= i < |url| :: url[i] == '/'
    ensures TrimEndChar(url, '/') == []
  {
    if url != [] {
      SlashesOnlyUrl(url[..|url| - 1]);
    }
  }

  /** The base URL is the configured URL with its trailing slashes removed:
      appending more slashes changes nothing. */
  lemma {:induction false} TrailingSlashIgnored(url: string, extra: nat)
    ensures TrimEndChar(url + seq(extra, _ => '/'), '/') == TrimEndChar(url, '/')
    decreases extra
  {
    if extra > 0 {
      var s := url + seq(extra, _ => '/');
      assert s[..|s| - 1] == url + seq(extra - 1, _ => '/');
      TrailingSlashIgnored(url, extra - 1);
    } else {
      assert url + seq(extra, _ => '/') == url;
    }
  }

  // ---------------------------------------------------------------------
  // Web-service requests

  /** The form body `_call_api` posts: the token, the function name and the
      JSON format, then the call's own parameters, which win on a clash. */
  function Payload(token: string, wsFunction: string, params: map<string, string>): (p: map<string, string>)
    ensures p.Keys == params.Keys + {"wstoken", "wsfunction", "moodlewsrestformat"}
    ensures forall k | k in params :: p[k] == params[k]
    ensures "wstoken" !in params ==> p["wstoken"] == token
    ensures "wsfunction" !in params ==> p["wsfunction"] == wsFunction
    ensures "moodlewsrestformat" !in params ==> p["moodlewsrestformat"] == "json"
  {
    map["wstoken" := token, "wsfunction" := wsFunction, "moodlewsrestformat" := "json"] + params
  }

  /** The request `get_course_info` makes. */
  function CourseInfoRequest(config: Config, courseId: int): map<string, string> {
    Payload(config.token, "core_course_get_courses", map["options[ids][0]" := IntToString(courseId)])
  }

  /** The request `get_course_contents` makes. */
  function CourseContentsRequest(config: Config, courseId: int): map<string, string> {
    Payload(config.token, "core_course_get_contents", map["courseid" := IntToString(courseId)])
  }

  /** Both course requests carry the configured token, name their function,
      ask for JSON and carry the course id as decimal text. */
  lemma CourseRequests(config: Config, courseId: int)
    ensures var info := CourseInfoRequest(config, courseId);
      && info.Keys == {"wstoken", "wsfunction", "moodlewsrestformat", "options[ids][0]"}
      && info["wstoken"] == config.token && info["wsfunction"] == "core_course_get_courses"
      && info["moodlewsrestformat"] == "json"
      && ParseInt(info["options[ids][0]"]) == Some(courseId)
    ensures var contents := CourseContentsRequest(config, courseId);
      && contents.Keys == {"wstoken", "wsfunction", "moodlewsrestformat", "courseid"}
      && contents["wstoken"] == config.token && contents["wsfunction"] == "core_course_get_contents"
      && contents["moodlewsrestformat"] == "json"
      && ParseInt(contents["courseid"]) == Some(courseId)
  {
    ParseIntRoundTrip(courseId);
  }

  // ---------------------------------------------------------------------
  // Course data as the web service returns it

  /** One entry of a module's `contents`; a missing key is given as the
      default the code reads it with ("" or 0). */
  datatype ContentItem = ContentItem(
    itemType: string,
    content: string,
    fileUrl: string,
    filename: string,
    filesize: int)

  /** A course module; `modname` and `description` missing are "". */
  datatype CourseModule = CourseModule(
    id: Option<int>,
    modname: string,
    name: Option<string>,
    description: string,
    contents: seq<ContentItem>)

  /** A course section; a missing `summary` is "". */
  datatype Section = Section(
    id: Option<int>,
    name: Option<string>,
    summary: string,
    modules: seq<CourseModule>)

  /** An entry of `core_course_get_courses`. */
  datatype CourseInfo = CourseInfo(fullname: Option<string>)

  /** `get_course_info`: the first course of the answer; an empty answer
      means the course does not exist. */
  function GetCourseInfo(courseId: int, courses: seq<CourseInfo>): (r: Result<CourseInfo, ExtractError>)
    ensures r.Failure? <==> courses == []
    ensures r.Failure? ==> r.error == CourseNotFound(courseId)
    ensures r.Success? ==> r.value == courses[0]
  {
    if courses == [] then Failure(CourseNotFound(courseId)) else Success(courses[0])
  }

  /** `get_course_contents`: an empty or null answer is no sections. */
  function GetCourseContents(response: Option<seq<Section>>): (r: seq<Section>)
    ensures response.None? ==> r == []
    ensures response.Some? ==> r == response.value
  {
    match response
    case None => []
    case Some(sections) => sections
  }

  /** The course's name, or "Course <id>" when it has none. */
  function CourseName(info: CourseInfo, courseId: int): (name: string)
    ensures info.fullname.Some? ==> name == info.fullname.value
    ensures info.fullname.None? ==> name == "Course " + IntToString(courseId)
  {
    info.fullname.GetOr("Course " + IntToString(courseId))
  }

  /** A section's name, or "Section <n>" counting from one. */
  function SectionName(section: Section, index: nat): (name: string)
    ensures section.name.Some? ==> name == section.name.value
    ensures section.name.None? ==> name == "Section " + NatToString(index + 1)
  {
    section.name.GetOr("Section " + IntToString(index + 1))
  }

  // ---------------------------------------------------------------------
  // Documents

  /** A document's metadata; its variant is the document's type. */
  datatype Metadata =
    | SectionMeta(sectionId: Option<int>, sectionName: string, courseId: int, courseName: string, source: string)
    | PageMeta(moduleId: Option<int>, moduleName: string, sectionName: string, courseId: int, courseName: string, source: string)
    | FileMeta(moduleId: Option<int>, moduleName: string, sectionName: string, filename: string, filesize: int,
               fileUrl: string, courseId: int, courseName: string, source: string)
    | UrlMeta(moduleId: Option<int>, moduleName: string, sectionName: string, externalUrl: string,
              courseId: int, courseName: string, source: string)
    | LabelMeta(moduleId: Option<int>, sectionName: string, courseId: int, courseName: string, source: string)

  datatype Document = Document(content: string, metadata: Metadata) {
    /** The document's "type" field. */
    function TypeName(): string {
      match metadata
      case SectionMeta(_, _, _, _, _) => "section"
      case PageMeta(_, _, _, _, _, _) => "page"
      case FileMeta(_, _, _, _, _, _, _, _, _) => "file"
      case UrlMeta(_, _, _, _, _, _, _) => "url"
      case LabelMeta(_, _, _, _, _) => "label"
    }
  }

  /** `_clean_html`, with its error as an extraction error. */
  function Clean(html: string): (r: Result<string, ExtractError>)
    ensures html == [] ==> r == Success([])
    ensures r.Success? ==> IsTidy(r.value)
    ensures r.Failure? ==> r.error.BadEntity? && IsRejection(r.error.cause)
  {
    match CleanHtml(html)
    case Success(text) => Success(text)
    case Failure(e) => Failure(BadEntity(e))
  }

  /** Tidy text is blank exactly when it is empty. */
  lemma TidyBlank(s: string)
    requires IsTidy(s)
    ensures IsBlank(s) <==> s == []
  {
    if s != [] {
      assert !IsSpace(s[0]);
    }
  }

  /** Tidy text is its own stripped form. */
  lemma TidyStripped(s: string)
    requires IsTidy(s)
    ensures Strip(s) == s
  {
    StripUnchanged(s);
  }

  /** The size limit in bytes: `filesize / (1024 * 1024) > max_file_size_mb`
      is `filesize > max_file_size_mb * 1024 * 1024` for integer sizes. */
  function LimitBytes(maxFileSizeMb: int): int {
    maxFileSizeMb * 1024 * 1024
  }


  /** The text of a section-summary document. */
  function SectionContent(sectionName: string, summary: string): string {
    "Section: " + sectionName + "\n\n" + summary
  }

  /** The text of a page document. */
  function PageContent(name: string, text: string): string {
    "Page: " + name + "\n\n" + text
  }

  /** The text of a file document. */
  function ResourceContent(name: string, filename: string): string {
    "Resource: " + name + "\nFilename: " + filename + "\n\n" + FileNotice
  }

  /** The section-summary document: made when the raw summary, stripped, is
      longer than 50 characters and its cleaned form is not blank. */
  function SummaryDocument(section: Section, sectionName: string, courseId: int, courseName: string)
    : (r: Result<Option<Document>, ExtractError>)
    ensures r.Success? && r.value.Some? ==>
      r.value.value.TypeName() == "section" && r.value.value.metadata.sectionName == sectionName
  {
    if section.summary != [] && |Strip(section.summary)| > 50 then
      var clean :- Clean(section.summary);
      if Strip(clean) != [] then
        Success(Some(Document(SectionContent(sectionName, clean),
          SectionMeta(section.id, sectionName, courseId, courseName, "Section: " + sectionName))))
      else Success(None)
    else Success(None)
  }

  /** A summary document exists exactly when the stripped raw summary is
      longer than 50 characters and cleans to non-empty text; it reads
      "Section: <name>", a blank line, the cleaned summary. Extraction fails
      on the summary exactly when a long enough summary fails to clean. */
  lemma SummaryKept(section: Section, sectionName: string, courseId: int, courseName: string)
    ensures var r := SummaryDocument(section, sectionName, courseId, courseName);
      var clean := Clean(section.summary);
      && (r.Failure? <==> |Strip(section.summary)| > 50 && clean.Failure?)
      && ((r.Success? && r.value.Some?) <==> |Strip(section.summary)| > 50 && clean.Success? && clean.value != [])
      && (r.Success? && r.value.Some? ==>
            && r.value.value.content == SectionContent(sectionName, clean.value)
            && r.value.value.metadata == SectionMeta(section.id, sectionName, courseId, courseName, "Section: " + sectionName))
  {
    var clean := Clean(section.summary);
    if clean.Success? {
      TidyBlank(clean.value);
    }
  }

  /** The text of a page: the `content` of the first item whose type is
      "content", or "" when there is none. */
  function PageText(items: seq<ContentItem>): (text: string)
    ensures (exists i | 0 <= i < |items| :: items[i].itemType == "content") ==>
      exists i | 0 <= i < |items| ::
        && items[i].itemType == "content" && text == items[i].content
        && forall j | 0 <= j < i :: items[j].itemType != "content"
    ensures (forall i | 0 <= i < |items| :: items[i].itemType != "content") ==> text == []
  {
    if items == [] then []
    else if items[0].itemType == "content" then items[0].content
    else
      var rest := PageText(items[1..]);
      assert forall i | 1 <= i < |items| :: items[1..][i - 1] == items[i];
      rest
  }

  /** The search of `_extract_page_module` for the page's text. */
  method FindPageContent(items: seq<ContentItem>) returns (text: string)
    ensures text == PageText(items)
  {
    text := "";
    var i := 0;
    while i < |items|
      invariant 0 <= i <= |items|
      invariant text == [] && PageText(items) == PageText(items[i..])
    {
      if items[i].itemType == "content" {
        text := items[i].content;
        break;
      }
      assert items[i..][1..] == items[i + 1..];
      i := i + 1;
    }
  }

  /** `_extract_page_module`: a page with text whose cleaned form has at
      least 50 characters. */
  function PageDocument(m: CourseModule, courseId: int, courseName: string, sectionName: string)
    : (r: Result<Option<Document>, ExtractError>)
    ensures r.Success? && r.value.Some? ==>
      r.value.value.TypeName() == "page" && r.value.value.metadata.sectionName == sectionName
  {
    var name := m.name.GetOr("Unnamed Page");
    if m.contents == [] then Success(None)
    else
      var text := PageText(m.contents);
      if text == [] then Success(None)
      else
        var clean :- Clean(text);
        if |Strip(clean)| < 50 then Success(None)
        else Success(Some(Document(PageContent(name, clean),
          PageMeta(m.id, name, sectionName, courseId, courseName, "Page: " + name))))
  }

  /** A page document exists exactly when the page has text whose cleaned
      form has at least 50 characters; it reads "Page: <name>", a blank line,
      the cleaned text. Extraction fails on a page exactly when its text
      fails to clean. */
  lemma PageKept(m: CourseModule, courseId: int, courseName: string, sectionName: string)
    ensures var r := PageDocument(m, courseId, courseName, sectionName);
      var text := PageText(m.contents);
      var name := m.name.GetOr("Unnamed Page");
      && (r.Failure? <==> text != [] && Clean(text).Failure?)
      && ((r.Success? && r.value.Some?) <==> text != [] && Clean(text).Success? && |Clean(text).value| >= 50)
      && (r.Success? && r.value.Some? ==>
            && r.value.value.content == PageContent(name, Clean(text).value)
            && r.value.value.metadata == PageMeta(m.id, name, sectionName, courseId, courseName, "Page: " + name))
  {
    var text := PageText(m.contents);
    if Clean(text).Success? {
      TidyStripped(Clean(text).value);
    }
  }

  /** `_extract_page_module`, with its search loop. */
  method ExtractPageModule(m: CourseModule, courseId: int, courseName: string, sectionName: string)
    returns (r: Result<Option<Document>, ExtractError>)
    ensures r == PageDocument(m, courseId, courseName, sectionName)
  {
    var name := m.name.GetOr("Unnamed Page");
    if m.contents == [] {
      return Success(None);
    }
    var text := FindPageContent(m.contents);
    if text == [] {
      return Success(None);
    }
    var clean :- Clean(text);
    if |Strip(clean)| < 50 {
      return Success(None);
    }
    r := Success(Some(Document(PageContent(name, clean),
      PageMeta(m.id, name, sectionName, courseId, courseName, "Page: " + name))));
  }

  /** `_extract_resource_module`: a document describing the first file of
      the module, unless that file is larger than the limit. */
  function ResourceDocument(config: Config, m: CourseModule, courseId: int, courseName: string, sectionName: string)
    : (r: Option<Document>)
    ensures r.Some? ==> r.value.TypeName() == "file" && r.value.metadata.sectionName == sectionName
  {
    var name := m.name.GetOr("Unnamed Resource");
    if m.contents == [] then None
    else
      var file := m.contents[0];
      if file.filesize > LimitBytes(config.maxFileSizeMb) then None
      else Some(Document(ResourceContent(name, file.filename),
        FileMeta(m.id, name, sectionName, file.filename, file.filesize, file.fileUrl,
                 courseId, courseName, "File: " + file.filename)))
  }

  /** A file document exists exactly when the module has a first file no
      larger than the limit in MiB; it names the module and the file and
      gives "File: <filename>" as its source. */
  lemma ResourceKept(config: Config, m: CourseModule, courseId: int, courseName: string, sectionName: string)
    ensures var r := ResourceDocument(config, m, courseId, courseName, sectionName);
      && (r.Some? <==> m.contents != [] && m.contents[0].filesize <= LimitBytes(config.maxFileSizeMb))
      && (r.Some? ==>
            var name := m.name.GetOr("Unnamed Resource");
            var file := m.contents[0];
            && r.value.content == ResourceContent(name, file.filename)
            && r.value.metadata == FileMeta(m.id, name, sectionName, file.filename, file.filesize, file.fileUrl,
                                            courseId, courseName, "File: " + file.filename))
  {
  }

  /** Only the first content item of a resource is consulted. */
  lemma ResourceReadsFirstItem(config: Config, m: CourseModule, more: seq<ContentItem>, courseId: int,
                               courseName: string, sectionName: string)
    requires m.contents != []
    ensures ResourceDocument(config, m.(contents := m.contents + more), courseId, courseName, sectionName)
         == ResourceDocument(config, m, courseId, courseName, sectionName)
  {
  }

  /** The text of a link document. */
  function UrlContent(name: string, externalUrl: string, description: string): (content: string)
    ensures StartsWith(content, "Link: " + name + "\n")
  {
    "Link: " + name + "\n"
    + (if externalUrl != [] then "URL: " + externalUrl + "\n" else "")
    + (if description != [] then "\n" + description else "")
  }

  /** `_extract_url_module`: the link's name, its address if it has one
      and its cleaned description if not empty, kept when that text,
      stripped, has at least 30 characters. */
  function UrlDocument(m: CourseModule, courseId: int, courseName: string, sectionName: string)
    : (r: Result<Option<Document>, ExtractError>)
    ensures r.Success? && r.value.Some? ==>
      r.value.value.TypeName() == "url" && r.value.value.metadata.sectionName == sectionName
  {
    var name := m.name.GetOr("Unnamed URL");
    var url := if m.contents != [] then m.contents[0].fileUrl else "";
    var clean :- if m.description != [] then Clean(m.description) else Success("");
    var content := UrlContent(name, url, clean);
    if |Strip(content)| < 30 then Success(None)
    else Success(Some(Document(content,
      UrlMeta(m.id, name, sectionName, url, courseId, courseName, "Link: " + name))))
  }

  /** A link document exists exactly when its text, stripped, has at least
      30 characters; the text is the name line, the "URL:" line when the
      first content item has an address, and the cleaned description when it
      is not empty. Extraction fails on a link exactly when its description
      fails to clean. */
  lemma UrlKept(m: CourseModule, courseId: int, courseName: string, sectionName: string)
    ensures var r := UrlDocument(m, courseId, courseName, sectionName);
      && (r.Failure? <==> Clean(m.description).Failure?)
      && (r.Success? ==>
            var name := m.name.GetOr("Unnamed URL");
            var url := if m.contents != [] then m.contents[0].fileUrl else "";
            var content := UrlContent(name, url, Clean(m.description).value);
            && (r.value.Some? <==> |Strip(content)| >= 30)
            && (r.value.Some? ==>
                  && r.value.value.content == content
                  && r.value.value.metadata == UrlMeta(m.id, name, sectionName, url, courseId, courseName, "Link: " + name)))
  {
  }

  /** `_extract_label_module`: the cleaned description itself, kept when it
      has at least 50 characters. */
  function LabelDocument(m: CourseModule, courseId: int, courseName: string, sectionName: string)
    : (r: Result<Option<Document>, ExtractError>)
    ensures r.Success? && r.value.Some? ==>
      r.value.value.TypeName() == "label" && r.value.value.metadata.sectionName == sectionName
  {
    if m.description == [] then Success(None)
    else
      var clean :- Clean(m.description);
      if |Strip(clean)| < 50 then Success(None)
      else Success(Some(Document(clean, LabelMeta(m.id, sectionName, courseId, courseName, "Label in " + sectionName))))
  }

  /** A label document exists exactly when the cleaned description has at
      least 50 characters; its text is that description with no prefix and
      its source is "Label in <section>". */
  lemma LabelKept(m: CourseModule, courseId: int, courseName: string, sectionName: string)
    ensures var r := LabelDocument(m, courseId, courseName, sectionName);
      && (r.Failure? <==> Clean(m.description).Failure?)
      && ((r.Success? && r.value.Some?) <==> Clean(m.description).Success? && |Clean(m.description).value| >= 50)
      && (r.Success? && r.value.Some? ==>
            && r.value.value.content == Clean(m.description).value
            && r.value.value.metadata == LabelMeta(m.id, sectionName, courseId, courseName, "Label in " + sectionName))
  {
    if Clean(m.description).Success? {
      TidyStripped(Clean(m.description).value);
    }
  }

  // ---------------------------------------------------------------------
  // Thresholds, on text that cleaning leaves as it is

  /** A long enough summary is at least 51 characters: a plain summary of
      exactly 50 gives no document, one of 51 gives one. */
  lemma PlainSummary(section: Section, sectionName: string, courseId: int, courseName: string)
    requires PlainWord(section.summary)
    ensures var r := SummaryDocument(section, sectionName, courseId, courseName);
      && r.Success?
      && (r.value.Some? <==> |section.summary| > 50)
      && (r.value.Some? ==> r.value.value.content == SectionContent(sectionName, section.summary))
  {
    if section.summary != [] {
      CleanPlainWord(section.summary);
      StripUnchanged(section.summary);
    }
    SummaryKept(section, sectionName, courseId, courseName);
  }

  /** A page of exactly 50 plain characters is kept, one of 49 is not. */
  lemma PlainPage(m: CourseModule, courseId: int, courseName: string, sectionName: string)
    requires PlainWord(PageText(m.contents))
    ensures var r := PageDocument(m, courseId, courseName, sectionName);
      var text := PageText(m.contents);
      && r.Success?
      && (r.value.Some? <==> |text| >= 50)
      && (r.value.Some? ==> r.value.value.content == PageContent(m.name.GetOr("Unnamed Page"), text))
  {
    var text := PageText(m.contents);
    if text != [] {
      CleanPlainWord(text);
    }
    PageKept(m, courseId, courseName, sectionName);
  }

  /** A label of exactly 50 plain characters is kept, one of 49 is not. */
  lemma PlainLabel(m: CourseModule, courseId: int, courseName: string, sectionName: string)
    requires PlainWord(m.description)
    ensures var r := LabelDocument(m, courseId, courseName, sectionName);
      && r.Success?
      && (r.value.Some? <==> |m.description| >= 50)
      && (r.value.Some? ==> r.value.value.content == m.description)
  {
    if m.description != [] {
      CleanPlainWord(m.description);
    }
    LabelKept(m, courseId, courseName, sectionName);
  }

  /** A link with no address and no description is kept exactly when its
      plain name has at least 24 characters: "Link: " and the name make the
      30 the stripped text needs. */
  lemma BareLink(m: CourseModule, name: string, courseId: int, courseName: string, sectionName: string)
    requires m.name == Some(name) && name != [] && PlainWord(name)
    requires m.contents == [] && m.description == []
    ensures var r := UrlDocument(m, courseId, courseName, sectionName);
      && r.Success?
      && (r.value.Some? <==> |name| >= 24)
  {
    var line := "Link: " + name;
    var content := UrlContent(name, "", "");
    assert content == line + "\n";
    assert !IsSpace(line[|line| - 1]) by {
      assert line[|line| - 1] == name[|name| - 1];
    }
    assert content[..|content| - 1] == line;
    assert TrimEnd(content) == line;
    assert TrimStart(content) == content;
    assert Strip(content) == line;
    UrlKept(m, courseId, courseName, sectionName);
  }

  /** The document types a module can give under a configuration. */
  function ModuleTypes(config: Config): (types: set<string>)
    ensures "section" !in types
  {
    {"url", "label"}
    + (if config.extractPages then {"page"} else {})
    + (if config.extractFiles then {"file"} else {})
  }

  /** The dispatch on the module's `modname`: pages only when page
      extraction is on, resources only when file extraction is on, links and
      labels always, anything else (forums included) never. */
  function ModuleDocument(config: Config, m: CourseModule, courseId: int, courseName: string, sectionName: string)
    : (r: Result<Option<Document>, ExtractError>)
    ensures m.modname !in {"page", "resource", "url", "label"} ==> r == Success(None)
    ensures m.modname == "page" && !config.extractPages ==> r == Success(None)
    ensures m.modname == "resource" && !config.extractFiles ==> r == Success(None)
    ensures m.modname == "page" && config.extractPages ==> r == PageDocument(m, courseId, courseName, sectionName)
    ensures m.modname == "resource" && config.extractFiles ==>
      r == Success(ResourceDocument(config, m, courseId, courseName, sectionName))
    ensures m.modname == "url" ==> r == UrlDocument(m, courseId, courseName, sectionName)
    ensures m.modname == "label" ==> r == LabelDocument(m, courseId, courseName, sectionName)
    ensures r.Success? && r.value.Some? ==>
      var t := r.value.value.TypeName();
      && t in ModuleTypes(config)
      && (t == "page" ==> m.modname == "page")
      && (t == "file" ==> m.modname == "resource")
      && (t == "url" ==> m.modname == "url")
      && (t == "label" ==> m.modname == "label")
      && r.value.value.metadata.sectionName == sectionName
  {
    if m.modname == "page" && config.extractPages then PageDocument(m, courseId, courseName, sectionName)
    else if m.modname == "resource" && config.extractFiles then
      Success(ResourceDocument(config, m, courseId, courseName, sectionName))
    else if m.modname == "url" then UrlDocument(m, courseId, courseName, sectionName)
    else if m.modname == "label" then LabelDocument(m, courseId, courseName, sectionName)
    else Success(None)
  }

  /** The dispatch, calling the page helper with its loop. */
  method ExtractModule(config: Config, m: CourseModule, courseId: int, courseName: string, sectionName: string)
    returns (r: Result<Option<Document>, ExtractError>)
    ensures r == ModuleDocument(config, m, courseId, courseName, sectionName)
  {
    if m.modname == "page" && config.extractPages {
      r := ExtractPageModule(m, courseId, courseName, sectionName);
    } else if m.modname == "resource" && config.extractFiles {
      r := Success(ResourceDocument(config, m, courseId, courseName, sectionName));
    } else if m.modname == "url" {
      r := UrlDocument(m, courseId, courseName, sectionName);
    } else if m.modname == "label" {
      r := LabelDocument(m, courseId, courseName, sectionName);
    } else {
      r := Success(None);
    }
  }

  // ---------------------------------------------------------------------
  // The course's documents

  /** No document or one, as a list. */
  function AsList(r: Result<Option<Document>, ExtractError>): (l: Result<seq<Document>, ExtractError>)
    ensures l.Failure? <==> r.Failure?
    ensures l.Success? ==> (r.value.Some? ==> l.value == [r.value.value]) && (r.value.None? ==> l.value == [])
  {
    match r
    case Failure(e) => Failure(e)
    case Success(None) => Success([])
    case Success(Some(d)) => Success([d])
  }

  /** The documents of `first` followed by those of `rest`; the first
      failure, in that order, is the result. */
  function Then(first: Result<seq<Document>, ExtractError>, rest: Result<seq<Document>, ExtractError>)
    : (r: Result<seq<Document>, ExtractError>)
    ensures r.Success? <==> first.Success? && rest.Success?
    ensures r.Success? ==> r.value == first.value + rest.value
    ensures first.Failure? ==> r == first
  {
    match first
    case Failure(e) => Failure(e)
    case Success(a) =>
      match rest
      case Failure(e) => Failure(e)
      case Success(b) => Success(a + b)
  }

  lemma ThenAssociative(a: Result<seq<Document>, ExtractError>, b: Result<seq<Document>, ExtractError>,
                        c: Result<seq<Document>, ExtractError>)
    ensures Then(Then(a, b), c) == Then(a, Then(b, c))
  {
    if a.Success? && b.Success? && c.Success? {
      assert a.value + b.value + c.value == a.value + (b.value + c.value);
    }
  }

  lemma ThenEmpty(r: Result<seq<Document>, ExtractError>)
    ensures Then(Success([]), r) == r
  {
    if r.Success? {
      assert [] + r.value == r.value;
    }
  }

  /** The documents of the parts in order; the first part that fails is
      the result. */
  function Concat(parts: seq<Result<seq<Document>, ExtractError>>): Result<seq<Document>, ExtractError>
    decreases |parts|
  {
    if parts == [] then Success([]) else Then(parts[0], Concat(parts[1..]))
  }

  /** Part `j` and the parts after it. */
  lemma ConcatStep(parts: seq<Result<seq<Document>, ExtractError>>, j: nat)
    requires j < |parts|
    ensures Concat(parts[j..]) == Then(parts[j], Concat(parts[j + 1..]))
  {
    assert parts[j..][1..] == parts[j + 1..];
  }

  /** Documents of earlier parts come before those of later ones: the
      concatenation of the first `k` parts, then of the rest. */
  lemma {:induction false} ConcatSplit(parts: seq<Result<seq<Document>, ExtractError>>, k: nat)
    requires k <= |parts|
    ensures Concat(parts) == Then(Concat(parts[..k]), Concat(parts[k..]))
    decreases k
  {
    if k == 0 {
      assert parts[k..] == parts;
      ThenEmpty(Concat(parts));
    } else {
      ConcatSplit(parts[1..], k - 1);
      assert parts[1..][..k - 1] == parts[1..k] == parts[..k][1..];
      assert parts[1..][k - 1..] == parts[k..];
      ThenAssociative(parts[0], Concat(parts[1..k]), Concat(parts[k..]));
    }
  }

  /** The concatenation fails exactly when a part fails, and then with the
      error of the first part that does. */
  lemma {:induction false} ConcatFailure(parts: seq<Result<seq<Document>, ExtractError>>)
    ensures Concat(parts).Failure? <==> exists k | 0 <= k < |parts| :: parts[k].Failure?
    ensures Concat(parts).Failure? ==>
      exists k | 0 <= k < |parts| ::
        && parts[k].Failure? && Concat(parts).error == parts[k].error
        && forall l | 0 <= l < k :: parts[l].Success?
    decreases |parts|
  {
    if parts != [] {
      ConcatFailure(parts[1..]);
      if parts[0].Success? && Concat(parts[1..]).Failure? {
        var k :| 0 <= k < |parts[1..]| && parts[1..][k].Failure? && Concat(parts[1..]).error == parts[1..][k].error
                 && forall l | 0 <= l < k :: parts[1..][l].Success?;
        assert parts[k + 1].Failure? && forall l | 0 <= l < k + 1 :: parts[l].Success?;
      }
      if exists k | 0 <= k < |parts| :: parts[k].Failure? {
        var k :| 0 <= k < |parts| && parts[k].Failure?;
        if k > 0 {
          assert parts[1..][k - 1].Failure?;
        }
      }
    }
  }

  /** A property every document of every successful part has, every
      document of a successful concatenation has. */
  lemma {:induction false} ConcatEvery(parts: seq<Result<seq<Document>, ExtractError>>, P: Document -> bool)
    requires forall k | 0 <= k < |parts| && parts[k].Success? :: forall i | 0 <= i < |parts[k].value| :: P(parts[k].value[i])
    ensures Concat(parts).Success? ==> forall i | 0 <= i < |Concat(parts).value| :: P(Concat(parts).value[i])
    decreases |parts|
  {
    if parts != [] {
      assert forall k | 0 <= k < |parts[1..]| :: parts[1..][k] == parts[k + 1];
      ConcatEvery(parts[1..], P);
      if Concat(parts).Success? {
        var a, b := parts[0].value, Concat(parts[1..]).value;
        assert Concat(parts).value == a + b;
        forall i | 0 <= i < |a + b| ensures P((a + b)[i]) {
          if i >= |a| {
            assert (a + b)[i] == b[i - |a|];
          }
        }
      }
    }
  }

  /** Each module of a section, as its list of documents. */
  function ModuleParts(config: Config, modules: seq<CourseModule>, courseId: int, courseName: string,
                       sectionName: string): (parts: seq<Result<seq<Document>, ExtractError>>)
    ensures |parts| == |modules|
  {
    seq(|modules|, k requires 0 <= k < |modules| =>
      AsList(ModuleDocument(config, modules[k], courseId, courseName, sectionName)))
  }

  /** The documents of a section's modules, in module order. */
  function ModuleDocs(config: Config, modules: seq<CourseModule>, courseId: int, courseName: string,
                      sectionName: string): Result<seq<Document>, ExtractError>
  {
    Concat(ModuleParts(config, modules, courseId, courseName, sectionName))
  }

  /** The documents of the section at position `index`: its summary
      document, if any, then those of its modules. */
  function SectionDocs(config: Config, section: Section, index: nat, courseId: int, courseName: string)
    : Result<seq<Document>, ExtractError>
  {
    var name := SectionName(section, index);
    Then(AsList(SummaryDocument(section, name, courseId, courseName)),
         ModuleDocs(config, section.modules, courseId, courseName, name))
  }

  /** Each section of the course, as its list of documents. */
  function SectionParts(config: Config, sections: seq<Section>, courseId: int, courseName: string)
    : (parts: seq<Result<seq<Document>, ExtractError>>)
    ensures |parts| == |sections|
  {
    seq(|sections|, k requires 0 <= k < |sections| => SectionDocs(config, sections[k], k, courseId, courseName))
  }

  /** `extract_course_documents` on the answers of the two web-service
      calls: the documents of the sections, in section order. */
  function CourseDocuments(config: Config, courseId: int, courses: seq<CourseInfo>, response: Option<seq<Section>>)
    : (r: Result<seq<Document>, ExtractError>)
    ensures courses == [] ==> r == Failure(CourseNotFound(courseId))
    ensures courses != [] && GetCourseContents(response) == [] ==> r == Success([])
  {
    var info :- GetCourseInfo(courseId, courses);
    Concat(SectionParts(config, GetCourseContents(response), courseId, CourseName(info, courseId)))
  }

  /** Every document has a type from `types`. */
  predicate TypedIn(docs: seq<Document>, types: set<string>) {
    forall i | 0 <= i < |docs| :: docs[i].TypeName() in types
  }

  /** Every document names `sectionName` as its section. */
  predicate InSection(docs: seq<Document>, sectionName: string) {
    forall i | 0 <= i < |docs| :: docs[i].metadata.sectionName == sectionName
  }

  /** The module documents of a section carry its name and have the types
      the configuration allows, so none of them is a section document. */
  lemma ModuleDocsShape(config: Config, modules: seq<CourseModule>, courseId: int, courseName: string,
                        sectionName: string)
    ensures var r := ModuleDocs(config, modules, courseId, courseName, sectionName);
      r.Success? ==> TypedIn(r.value, ModuleTypes(config)) && InSection(r.value, sectionName)
  {
    var parts := ModuleParts(config, modules, courseId, courseName, sectionName);
    var P := (d: Document) => d.TypeName() in ModuleTypes(config) && d.metadata.sectionName == sectionName;
    forall k | 0 <= k < |parts| && parts[k].Success?
      ensures forall i | 0 <= i < |parts[k].value| :: P(parts[k].value[i])
    {
      var doc := ModuleDocument(config, modules[k], courseId, courseName, sectionName);
      assert parts[k] == AsList(doc);
    }
    ConcatEvery(parts, P);
  }

  /** The documents of one section: all carry its name; only the first can
      be a section document, and it is one exactly when the section has a
      summary document; the rest have one of `types`. */
  predicate SectionShaped(docs: seq<Document>, name: string, types: set<string>, summarised: bool) {
    && InSection(docs, name)
    && TypedIn(docs, {"section"} + types)
    && (forall i | 0 < i < |docs| :: docs[i].TypeName() != "section")
    && (docs != [] && docs[0].TypeName() == "section" <==> summarised)
  }

  /** A summary document, then documents of other types of the same
      section, make a section's documents. */
  lemma SummaryThenModules(summary: Result<Option<Document>, ExtractError>, modules: Result<seq<Document>, ExtractError>,
                           name: string, types: set<string>)
    requires summary.Success? && summary.value.Some? ==>
      summary.value.value.TypeName() == "section" && summary.value.value.metadata.sectionName == name
    requires modules.Success? ==> TypedIn(modules.value, types) && InSection(modules.value, name)
    requires "section" !in types
    ensures var r := Then(AsList(summary), modules);
      r.Success? ==> SectionShaped(r.value, name, types, summary.Success? && summary.value.Some?)
  {
    var first := AsList(summary);
    if first.Success? && modules.Success? {
      var all := first.value + modules.value;
      forall i | |first.value| <= i < |all|
        ensures all[i] == modules.value[i - |first.value|]
      {
      }
    }
  }

  /** The documents of a section have the shape above, with the types the
      configuration allows for its modules. */
  lemma SectionDocsShape(config: Config, section: Section, index: nat, courseId: int, courseName: string)
    ensures var r := SectionDocs(config, section, index, courseId, courseName);
      var summary := SummaryDocument(section, SectionName(section, index), courseId, courseName);
      r.Success? ==> SectionShaped(r.value, SectionName(section, index), ModuleTypes(config),
                                   summary.Success? && summary.value.Some?)
  {
    var name := SectionName(section, index);
    var summary := SummaryDocument(section, name, courseId, courseName);
    var modules := ModuleDocs(config, section.modules, courseId, courseName, name);
    assert SectionDocs(config, section, index, courseId, courseName) == Then(AsList(summary), modules);
    ModuleDocsShape(config, section.modules, courseId, courseName, name);
    SummaryThenModules(summary, modules, name, ModuleTypes(config));
  }

  /** A course's documents are sections, links, labels, and pages or files
      only when their extraction is on. */
  lemma CourseDocumentsTyped(config: Config, courseId: int, courses: seq<CourseInfo>, response: Option<seq<Section>>)
    ensures var r := CourseDocuments(config, courseId, courses, response);
      r.Success? ==> TypedIn(r.value, {"section"} + ModuleTypes(config))
  {
    if courses != [] {
      var sections := GetCourseContents(response);
      var name := CourseName(courses[0], courseId);
      var parts := SectionParts(config, sections, courseId, name);
      var types := {"section"} + ModuleTypes(config);
      var P := (d: Document) => d.TypeName() in types;
      forall k | 0 <= k < |parts| && parts[k].Success?
        ensures forall i | 0 <= i < |parts[k].value| :: P(parts[k].value[i])
      {
        SectionDocsShape(config, sections[k], k, courseId, name);
      }
      ConcatEvery(parts, P);
    }
  }

  /** `extract_forums` is read but never consulted: switching it changes
      no document. */
  lemma ForumSettingIgnored(config: Config, forums: bool, courseId: int, courses: seq<CourseInfo>,
                            response: Option<seq<Section>>)
    ensures CourseDocuments(config.(extractForums := forums), courseId, courses, response)
         == CourseDocuments(config, courseId, courses, response)
  {
    var other := config.(extractForums := forums);
    if courses != [] {
      var sections := GetCourseContents(response);
      var name := CourseName(courses[0], courseId);
      forall k | 0 <= k < |sections|
        ensures SectionDocs(other, sections[k], k, courseId, name) == SectionDocs(config, sections[k], k, courseId, name)
      {
        var modules := sections[k].modules;
        var sectionName := SectionName(sections[k], k);
        assert ModuleParts(other, modules, courseId, name, sectionName)
            == ModuleParts(config, modules, courseId, name, sectionName);
      }
      assert SectionParts(other, sections, courseId, name) == SectionParts(config, sections, courseId, name);
    }
  }

  /** The module loop of `extract_course_documents` for one section. */
  method ExtractModules(config: Config, modules: seq<CourseModule>, courseId: int, courseName: string,
                        sectionName: string)
    returns (r: Result<seq<Document>, ExtractError>)
    ensures r == ModuleDocs(config, modules, courseId, courseName, sectionName)
  {
    ghost var parts := ModuleParts(config, modules, courseId, courseName, sectionName);
    var documents := [];
    var j := 0;
    assert parts[j..] == parts;
    ThenEmpty(Concat(parts));
    while j < |modules|
      invariant j <= |modules|
      invariant Then(Success(documents), Concat(parts[j..])) == Concat(parts)
    {
      var doc := ExtractModule(config, modules[j], courseId, courseName, sectionName);
      var found := AsList(doc);
      ConcatStep(parts, j);
      ThenAssociative(Success(documents), found, Concat(parts[j + 1..]));
      if found.Failure? {
        return Failure(found.error);
      }
      documents := documents + found.value;
      j := j + 1;
    }
    assert parts[j..] == [];
    assert documents + [] == documents;
    r := Success(documents);
  }

  /** One pass of the section loop of `extract_course_documents`: the
      summary document, then the module loop. */
  method ExtractSection(config: Config, section: Section, index: nat, courseId: int, courseName: string)
    returns (r: Result<seq<Document>, ExtractError>)
    ensures r == SectionDocs(config, section, index, courseId, courseName)
  {
    var sectionName := SectionName(section, index);
    var summary := SummaryDocument(section, sectionName, courseId, courseName);
    if summary.Failure? {
      return Failure(summary.error);
    }
    var documents := if summary.value.Some? then [summary.value.value] else [];
    var moduleDocs := ExtractModules(config, section.modules, courseId, courseName, sectionName);
    if moduleDocs.Failure? {
      return Failure(moduleDocs.error);
    }
    r := Success(documents + moduleDocs.value);
  }

  /** One turn of a loop that appends the parts' documents in order: a
      failing part is the result of the whole, otherwise its documents
      join those gathered so far. */
  lemma ConcatLoopStep(parts: seq<Result<seq<Document>, ExtractError>>, i: nat, documents: seq<Document>)
    requires i < |parts|
    requires Then(Success(documents), Concat(parts[i..])) == Concat(parts)
    ensures parts[i].Failure? ==> Concat(parts) == Failure(parts[i].error)
    ensures parts[i].Success? ==>
      Then(Success(documents + parts[i].value), Concat(parts[i + 1..])) == Concat(parts)
  {
    ConcatStep(parts, i);
    ThenAssociative(Success(documents), parts[i], Concat(parts[i + 1..]));
  }

  /** `extract_course_documents`: fetch-result checks, then the section
      loop appending each section's documents. */
  method ExtractCourseDocuments(config: Config, courseId: int, courses: seq<CourseInfo>, response: Option<seq<Section>>)
    returns (r: Result<seq<Document>, ExtractError>)
    ensures r == CourseDocuments(config, courseId, courses, response)
  {
    var info :- GetCourseInfo(courseId, courses);
    var courseName := CourseName(info, courseId);
    var sections := GetCourseContents(response);
    ghost var parts := SectionParts(config, sections, courseId, courseName);
    var documents: seq<Document> := [];
    var i := 0;
    assert parts[i..] == parts;
    ThenEmpty(Concat(parts));
    while i < |sections|
      invariant i <= |sections|
      invariant Then(Success(documents), Concat(parts[i..])) == Concat(parts)
    {
      var docs := ExtractSection(config, sections[i], i, courseId, courseName);
      assert docs == parts[i];
      ConcatLoopStep(parts, i, documents);
      if docs.Failure? {
        return Failure(docs.error);
      }
      documents := documents + docs.value;
      i := i + 1;
    }
    assert parts[i..] == [];
    assert documents + [] == documents;
    r := Success(documents);
  }

  /** How many of `docs` have type `t`. */
  function CountType(docs: seq<Document>, t: string): nat
  {
    if docs == [] then 0
    else CountType(docs[..|docs| - 1], t) + (if docs[|docs| - 1].TypeName() == t then 1 else 0)
  }

  /** Every document has one of the five types, so the five counts add up to
      the number of documents. */
  lemma {:induction false} TypeCountsTotal(docs: seq<Document>)
    ensures CountType(docs, "section") + CountType(docs, "page") + CountType(docs, "file")
          + CountType(docs, "url") + CountType(docs, "label") == |docs|
    decreases |docs|
  {
    if docs != [] {
      TypeCountsTotal(docs[..|docs| - 1]);
    }
  }

  /** The type breakdown at the end of `extract_course_documents`: the
      types that occur, each mapped to the number of documents of that type. */
  method TallyTypes(docs: seq<Document>) returns (counts: map<string, nat>)
    ensures forall t :: t in counts <==> CountType(docs, t) > 0
    ensures forall t | t in counts :: counts[t] == CountType(docs, t)
  {
    counts := map[];
    var i := 0;
    while i < |docs|
      invariant i <= |docs|
      invariant forall t :: t in counts <==> CountType(docs[..i], t) > 0
      invariant forall t | t in counts :: counts[t] == CountType(docs[..i], t)
    {
      var t := docs[i].TypeName();
      counts := counts[t := (if t in counts then counts[t] else 0) + 1];
      assert docs[..i + 1][..i] == docs[..i];
      i := i + 1;
    }
    assert docs[..i] == docs;
  }
}
