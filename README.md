# Moodle course extraction, project dump and quiz prompt — a Dafny model

This project models three parts of a course-assistant backend.

- **The Moodle content extractor** (`app/moodle_extractor.py`):
  - the checks its constructor makes on the environment;
  - the payload it merges for each web-service call;
  - the checks on what `core_course_get_courses` and `core_course_get_contents` return;
  - the HTML cleaner `_clean_html`;
  - the four per-module extractors (page, resource, URL, label);
  - `extract_course_documents`, which walks the sections and modules of a course and produces an ordered list of typed documents, then tallies them by type.
- **The project dump script** (`dump.py`):
  - `generate_tree`, which walks a directory tree, prunes ignored directories and lists the files that are not excluded;
  - the exclusion rules and the file blocks that `dump_project` writes.
- **The quiz request** (`app/quiz.py`): `generate_quiz` refuses empty content, otherwise it builds the prompt and returns the language model's answer.

Modules:

- `Wrappers` (`wrappers.dfy`): the `Option` and `Result` types.
- `Text` (`text.dfy`):
  - Python's whitespace set, shared by `str.strip()` and `\s`;
  - `strip`, `rstrip(c)`, `str.replace` and `str.count`;
  - `str(int)` and `int(str)`, with underscores between digits.
- `Html` (`html.dfy`): each step of `_clean_html` as a scanner over `seq<char>`, with its properties.
- `MoodleExtractor` (`moodle.dfy`): configuration, payload, documents, and the extraction loop as methods proved against specification functions.
- `ProjectDump` (`dump.dfy`):
  - `os.walk` with in-place pruning, as a pre-order walk over a `Dir` tree;
  - the tree listing and the dump, as methods proved against specification functions.
- `Quiz` (`quiz.dfy`): the guard and the prompt. The model (`llm`) is a function parameter.

What is given as input:

- The web-service answers are inputs: a list of `CourseInfo`, and the sections (`None` when the answer is empty or null).
- The environment variables are an `Env` value.
- The directory tree is a `Dir` value.
- File reading is a function `read` from a path to the text or an error message.
- Errors are `Result` values. A Python exception is a `Failure`.

## Model

| member | source | states |
|---|---|---|
| Text.Strip | app/moodle_extractor.py:214 | `strip()` leaves nothing exactly when the text is all Python whitespace, and otherwise starts and ends with a non-space |
| Text.StripSlice | app/moodle_extractor.py:476 | what `strip()` returns is a slice of the input, with only whitespace cut from either end |
| Text.StripKeepsText | app/moodle_extractor.py:476 | `strip()` loses no character but whitespace: the non-whitespace characters of its result are those of its input, in order |
| Text.StripWords | app/moodle_extractor.py:476 | `strip()` keeps the words of the text exactly, as `str.split()` gives them |
| Text.TrimEndChar | app/moodle_extractor.py:28 | `rstrip("/")` returns text that does not end in the character |
| Text.TrimEndCharSlice | app/moodle_extractor.py:28 | what `rstrip` keeps is a prefix, and everything it cut is that character |
| Text.ReplaceAbsent | dump.py:9 | `str.replace` leaves a text without the pattern unchanged |
| Text.Replace | dump.py:9 | `str.replace` never lengthens the text when the replacement is no longer than the pattern, never shortens it when the replacement is no shorter, and a pattern replaced by itself leaves the text as it was |
| Text.Count | dump.py:9 | `str.count` is zero exactly when the character is absent, and never exceeds the length |
| Text.CountAppend | dump.py:9 | counting a character is additive over concatenation |
| Text.CountAfterDeletion | dump.py:9 | deleting a pattern that does not contain a character leaves that character's count unchanged |
| Text.IntToString | app/moodle_extractor.py:196 | `str(i)` is non-empty, starts with '-' exactly for negative numbers, and is otherwise digits |
| Text.NatToStringValue | app/moodle_extractor.py:210 | the digits of `str(n)` denote `n` |
| Text.IntToStringInjective | app/quiz.py:20 | different integers have different decimal forms |
| Text.ParseIntRoundTrip | app/moodle_extractor.py:36 | `int(str(n)) == n` for every integer |
| Text.ParseInt | app/moodle_extractor.py:36 | `int()` of an empty or all-whitespace setting raises, so no number is read from it |
| Html.FindFoldFirst | app/moodle_extractor.py:445-446 | the case-insensitive search finds the first occurrence of the closing tag |
| Html.Remove | app/moodle_extractor.py:445-452 | a deletion never makes the text longer |
| Html.RemoveKeepsOnlyInput | app/moodle_extractor.py:445-452 | deleting matches keeps only characters of the input |
| Html.RemoveWithoutLt | app/moodle_extractor.py:445-452 | a text without '<' is left unchanged by the tag, comment, script and style deletions |
| Html.RemoveTagsLeavesNoTag | app/moodle_extractor.py:452 | after `<[^>]+>` is deleted, no tag remains |
| Html.RemoveTagsOfTagFree | app/moodle_extractor.py:452 | deleting tags from text that has none changes nothing |
| Html.RemoveTagsIdempotent | app/moodle_extractor.py:452 | deleting tags twice is the same as deleting them once |
| Html.RemoveAfterPlain | app/moodle_extractor.py:445-452 | each deletion keeps the text before the first '<' as it is and goes on with the rest |
| Html.RemoveTagAtStart | app/moodle_extractor.py:452 | a tag `<x>` at the start is deleted whole and the deletion goes on after its '>' |
| Html.RemoveTagKeepsSurroundings | app/moodle_extractor.py:452 | a tag after text without '<' is deleted; that text is kept and the deletion goes on after the tag |
| Html.RemoveBlockOfLoneLt | app/moodle_extractor.py:445-449 | text whose only '<' is its first character is left unchanged by the script and style deletions, and by the comment deletion unless it starts "<!--" |
| Html.TagNotComment | app/moodle_extractor.py:449-452 | a tag whose body does not start "!--" is not a comment |
| Html.NamedEntitiesStartWithAmpersand | app/moodle_extractor.py:455-467 | every named entity in the replacement table begins with '&' |
| Html.ReplaceEachWithoutAmpersand | app/moodle_extractor.py:455-467 | text without '&' passes the named-entity replacements unchanged |
| Html.ReplaceEach | app/moodle_extractor.py:455-467 | replacements that are each no longer than their pattern never lengthen the text |
| Html.NamedEntitiesShorten | app/moodle_extractor.py:455-467 | every entity of the table is replaced by text no longer than itself, so the named-entity step never lengthens the text |
| Html.ReplaceEachNamed | app/moodle_extractor.py:455-467 | a named entity between texts without '&' becomes its character in place, and nothing else changes; after "&amp;" the rest must hold no ';', since the '&' it gives back can start a later entity |
| Html.ReplaceEachLoneAmpersand | app/moodle_extractor.py:455-467 | an '&' followed by text without ';' starts no named entity and is kept |
| Html.Chr | app/moodle_extractor.py:471 | `chr(v)` fails exactly when `v` is above U+10FFFF |
| Html.EntityChar | app/moodle_extractor.py:470-471 | the replacement for one matched entity fails exactly when its decimal numeral has more than 4300 digits (`int()` raises) or its value is above U+10FFFF (`chr` raises); otherwise it is the character with that code point |
| Html.DecodeNumericFails | app/moodle_extractor.py:470-471 | decoding `&#(\d+);` (or its hexadecimal form `&#x...;`) fails exactly when the text holds such an entity whose replacement raises |
| Html.DecodeNumericFirstError | app/moodle_extractor.py:470-471 | a failed decoding reports the error of the first such entity in the text |
| Html.DecodeNumericWithoutAmpersand | app/moodle_extractor.py:470-471 | text without '&' is decoded to itself |
| Html.DecodeNumeric | app/moodle_extractor.py:470-471 | decoding fails only with an `int()` or `chr` rejection, and a successful decoding never lengthens the text |
| Html.DecodeNumericAfterPlain | app/moodle_extractor.py:470-471 | text before the first '&' is kept as it is; the decoding succeeds or fails, and with the same error, exactly as decoding the rest does |
| Html.DecodeEntityInPlace | app/moodle_extractor.py:470-471 | a numeric entity whose replacement succeeds becomes its character in place; the text before it and the '&'-free text after it are kept |
| Html.DecodeNumericLoneAmpersand | app/moodle_extractor.py:470-471 | an '&' followed by text without ';' starts no numeric entity and is kept |
| Html.CollapseSpaceWithoutSpace | app/moodle_extractor.py:474 | text with no whitespace passes `\s+ -> " "` unchanged |
| Html.CollapseBlankLinesWithoutNewline | app/moodle_extractor.py:475 | text without a newline passes the blank-line collapse unchanged |
| Html.CollapseSpace | app/moodle_extractor.py:474 | after `\s+ -> " "` every whitespace run is one space; the result is empty exactly when the input is, and starts with whitespace exactly when the input does |
| Html.CollapseBlankLines | app/moodle_extractor.py:475 | the blank-line collapse never lengthens the text |
| Html.CollapseSpaceKeepsText | app/moodle_extractor.py:474 | `\s+ -> " "` keeps every non-whitespace character, in order |
| Html.CollapseBlankLinesKeepsText | app/moodle_extractor.py:475 | `\n\s*\n -> "\n\n"` keeps every non-whitespace character, in order |
| Html.StripSingleSpaced | app/moodle_extractor.py:474-476 | stripping text in which every whitespace run is a single space keeps it that way |
| Html.TidySpace | app/moodle_extractor.py:474-476 | after the whitespace steps, the result is stripped and has no whitespace but single spaces |
| Html.TidySpaceKeepsText | app/moodle_extractor.py:474-476 | the three whitespace steps together change only whitespace: the non-whitespace characters come through unchanged and in order |
| Html.CollapseSpaceWords | app/moodle_extractor.py:474 | `\s+ -> " "` keeps the words exactly, as `str.split()` gives them |
| Html.CollapseBlankLinesWords | app/moodle_extractor.py:475 | the blank-line collapse keeps the words exactly |
| Html.TidySpaceWords | app/moodle_extractor.py:474-476 | the three whitespace steps together keep the words exactly, in order |
| Html.TidyIsJoin | app/moodle_extractor.py:474-476 | stripped, single-spaced text is its words joined by single spaces |
| Html.TidySpaceIsJoin | app/moodle_extractor.py:474-476 | the whitespace steps give exactly `" ".join(s.split())`: the words, in order, one space between neighbours, no margin |
| Html.CleanHtml | app/moodle_extractor.py:431-478 | empty input gives "", any cleaned text is stripped and single-spaced, and the only failures are a decimal entity of more than 4300 digits and a numeric entity above U+10FFFF |
| Html.CleanPlainWord | app/moodle_extractor.py:431-478 | text with no markup, entity or whitespace inside comes out of `_clean_html` unchanged |
| Html.CleanHtmlKeepsText | app/moodle_extractor.py:431-478 | text without '<' and '&' is cleaned without error, and only its whitespace changes |
| Html.CleanThroughSteps | app/moodle_extractor.py:431-478 | when the script, style and comment deletions change nothing, the cleaner tidies whatever the tag deletion, the named entities and the numeric decodings give |
| Html.CleanHtmlTag | app/moodle_extractor.py:431-478 | a tag (not a comment) between texts without '<' and '&' is deleted, the texts on either side are joined, and only whitespace is tidied |
| Html.CleanTaggedWord | app/moodle_extractor.py:431-478 | a tag before a plain word cleans to just the word |
| Html.CleanHtmlNamed | app/moodle_extractor.py:431-478 | a named entity between texts without '<' and '&' is cleaned to its character in place, with only whitespace tidied; after "&amp;" the rest must hold no ';' |
| MoodleExtractor.NewExtractor | app/moodle_extractor.py:27-42 | construction succeeds exactly when the size limit parses as an int, the URL is non-empty after `rstrip("/")` and the token is non-empty; a bad size limit is reported first, then a missing URL, then a missing token; on success the base URL is the URL setting with trailing '/' removed, the token is the token setting, the endpoint is the base URL plus the REST path, the limit is the parsed setting, and each flag is true exactly when its setting (default "true" for pages and files, "false" for forums) reads "true" in any letter case |
| MoodleExtractor.IsTrue | app/moodle_extractor.py:33-35 | a setting reads as true only when it has four characters; "true", "True" and "TRUE" read as true, and "1", "yes" and "false" do not |
| MoodleExtractor.DefaultMaxFileSize | app/moodle_extractor.py:36 | the default size limit "50" parses to 50 |
| MoodleExtractor.DefaultSettings | app/moodle_extractor.py:28-36 | with only URL and token set, pages and files are extracted, forums are not, and the limit is 50 MB |
| MoodleExtractor.SlashesOnlyUrl | app/moodle_extractor.py:28-40 | a URL made only of slashes counts as not configured |
| MoodleExtractor.TrailingSlashIgnored | app/moodle_extractor.py:28 | trailing slashes on the URL do not change the base URL |
| MoodleExtractor.Payload | app/moodle_extractor.py:61-69 | the payload holds the caller's parameters plus the three fixed keys; a caller's key overrides a fixed key of the same name |
| MoodleExtractor.CourseRequests | app/moodle_extractor.py:109-164 | the two course requests carry exactly the fixed keys plus the course id, which reads back as the same integer |
| MoodleExtractor.GetCourseInfo | app/moodle_extractor.py:109-135 | an empty answer is "course not found" for that id, otherwise the first course is returned |
| MoodleExtractor.GetCourseContents | app/moodle_extractor.py:137-164 | an empty or null answer is no sections, otherwise the sections as given |
| MoodleExtractor.CourseName | app/moodle_extractor.py:196 | the course's full name, or "Course <id>" |
| MoodleExtractor.SectionName | app/moodle_extractor.py:210 | the section's name, or "Section <n>" counting from one |
| MoodleExtractor.Clean | app/moodle_extractor.py:431-478 | the cleaner's guarantees, with its error as an extraction error |
| MoodleExtractor.TidyBlank | app/moodle_extractor.py:218 | cleaned text is blank exactly when it is empty |
| MoodleExtractor.TidyStripped | app/moodle_extractor.py:218 | cleaned text is its own `strip()` |
| MoodleExtractor.SummaryDocument | app/moodle_extractor.py:211-229 | a summary document has type "section" and belongs to its section |
| MoodleExtractor.SummaryKept | app/moodle_extractor.py:211-229 | a summary becomes a document exactly when it is longer than 50 characters after stripping and cleans to non-empty text; the content and metadata are the ones the code builds; cleaning fails only on such a summary |
| MoodleExtractor.PageText | app/moodle_extractor.py:286-292 | the text is the content of the first item of type "content", or "" when there is none |
| MoodleExtractor.FindPageContent | app/moodle_extractor.py:286-292 | the loop over the items finds that text |
| MoodleExtractor.PageDocument | app/moodle_extractor.py:276-317 | a page document has type "page" and belongs to its section |
| MoodleExtractor.PageKept | app/moodle_extractor.py:276-317 | a page becomes a document exactly when its text cleans to at least 50 characters; content and metadata as built; failure only on a bad entity |
| MoodleExtractor.ExtractPageModule | app/moodle_extractor.py:276-317 | the method returns the page document |
| MoodleExtractor.ResourceDocument | app/moodle_extractor.py:319-363 | a resource document has type "file" and belongs to its section |
| MoodleExtractor.ResourceKept | app/moodle_extractor.py:319-363 | a resource becomes a document exactly when it has a first file within the size limit; the document names that file |
| MoodleExtractor.ResourceReadsFirstItem | app/moodle_extractor.py:329-338 | only the first file of a resource matters |
| MoodleExtractor.UrlContent | app/moodle_extractor.py:374-383 | the link text starts with "Link: <name>" |
| MoodleExtractor.UrlDocument | app/moodle_extractor.py:365-402 | a URL document has type "url" and belongs to its section |
| MoodleExtractor.UrlKept | app/moodle_extractor.py:365-402 | a link becomes a document exactly when its text is at least 30 characters after stripping; failure exactly when its description fails to clean |
| MoodleExtractor.LabelDocument | app/moodle_extractor.py:404-429 | a label document has type "label" and belongs to its section |
| MoodleExtractor.LabelKept | app/moodle_extractor.py:404-429 | a label becomes a document exactly when its description cleans to at least 50 characters, and the content is that cleaned text |
| MoodleExtractor.PlainSummary | app/moodle_extractor.py:214 | a plain-text summary is kept exactly when it is longer than 50 characters |
| MoodleExtractor.PlainPage | app/moodle_extractor.py:300 | a plain-text page is kept exactly when it is at least 50 characters long |
| MoodleExtractor.PlainLabel | app/moodle_extractor.py:414 | a plain-text label is kept exactly when it is at least 50 characters long |
| MoodleExtractor.BareLink | app/moodle_extractor.py:374-385 | a link with only a name is kept exactly when the name has at least 24 characters (the fixed text adds 6) |
| MoodleExtractor.ModuleTypes | app/moodle_extractor.py:234-257 | modules never produce a "section" document |
| MoodleExtractor.ModuleDocument | app/moodle_extractor.py:232-257 | links and labels always go to their extractor, pages and resources when their setting is on; unknown module kinds, and pages or files that are switched off, give nothing; every document's type matches its module's kind |
| MoodleExtractor.ExtractModule | app/moodle_extractor.py:232-257 | the dispatch method returns the module's document |
| MoodleExtractor.AsList | app/moodle_extractor.py:237-257 | `if doc: documents.append(doc)` adds one document or none |
| MoodleExtractor.Then | app/moodle_extractor.py:209-257 | appending succeeds when both parts do, and the first error wins |
| MoodleExtractor.ThenAssociative | app/moodle_extractor.py:209-257 | appending parts in order does not depend on the grouping |
| MoodleExtractor.ConcatSplit | app/moodle_extractor.py:209-257 | the documents of a sequence of parts are those of any prefix followed by those of the rest |
| MoodleExtractor.ConcatFailure | app/moodle_extractor.py:209-257 | extraction fails exactly when some part fails, and the error is that of the first failing part |
| MoodleExtractor.ConcatEvery | app/moodle_extractor.py:209-257 | a property of every part's documents holds for every document of the whole |
| MoodleExtractor.ModuleDocsShape | app/moodle_extractor.py:232-257 | the module documents of a section have module types and carry the section's name |
| MoodleExtractor.SummaryThenModules | app/moodle_extractor.py:209-257 | a section's documents are its summary (when kept) followed by module documents only |
| MoodleExtractor.SectionDocsShape | app/moodle_extractor.py:209-257 | every document of a section carries its name; only the first can be a summary, and it is one exactly when the summary was kept |
| MoodleExtractor.CourseDocuments | app/moodle_extractor.py:166-274 | an unknown course fails with "course not found", and a course with no sections gives no documents |
| MoodleExtractor.CourseDocumentsTyped | app/moodle_extractor.py:166-274 | every extracted document is a section, page, file, URL or label document allowed by the settings |
| MoodleExtractor.ForumSettingIgnored | app/moodle_extractor.py:234-257 | the forum setting never changes what is extracted |
| MoodleExtractor.ExtractModules | app/moodle_extractor.py:232-257 | the module loop returns the specified module documents |
| MoodleExtractor.ExtractSection | app/moodle_extractor.py:209-257 | one pass of the section loop returns the section's specified documents |
| MoodleExtractor.ExtractCourseDocuments | app/moodle_extractor.py:166-274 | the extraction method returns the specified documents for the course |
| MoodleExtractor.TypeCountsTotal | app/moodle_extractor.py:264-270 | the per-type counts add up to the number of documents |
| MoodleExtractor.TallyTypes | app/moodle_extractor.py:264-270 | the tally has a key exactly for each type that occurs, and its value is that type's count |
| ProjectDump.Basename | dump.py:11 | `os.path.basename` holds no '/' |
| ProjectDump.Walk | dump.py:5-7 | a walk from a listable start yields the start first, at depth 0, with its own files, whatever is ignored; an unlistable start yields nothing |
| ProjectDump.Excluded | dump.py:16 | the exclusion test (the same in `dump_project` at line 40) drops every file when "" is among the extensions, since every name ends with ""; with nothing ignored no file is dropped |
| ProjectDump.TreeText | dump.py:3-18 | the tree starts with the "PROJECT STRUCTURE:" header; an unlistable start gives the header alone, and a listable one always adds a line for itself |
| ProjectDump.GenerateTree | dump.py:3-18 | the method returns the header, then for each visited directory its name line at its depth and its listed files one level deeper |
| ProjectDump.ListFiles | dump.py:14-17 | the file loop lists exactly the files that are not excluded, in order |
| ProjectDump.ListedIff | dump.py:14-17 | a file is listed exactly when it is in the directory and neither ignored by name nor by extension |
| ProjectDump.IndentDeeper | dump.py:10-12 | each level indents by four more spaces |
| ProjectDump.PrunedUnvisited | dump.py:7 | what is below an ignored directory never affects the walk |
| ProjectDump.PrunedUnlisted | dump.py:7 | replacing an ignored top-level directory by any other of the same name leaves the tree text unchanged |
| ProjectDump.BasenameOfJoin | dump.py:5-11 | the base name of a joined path is the name joined |
| ProjectDump.ListedDirsUnignored | dump.py:7-11 | no directory below the start that the tree lists has an ignored name |
| ProjectDump.LevelOfTrailingSlash | dump.py:9 | as written, with start "a/" the subdirectory "a/c" gets level 0, the same as the start, while it is one level deeper |
| ProjectDump.DepthCountsSeparators | dump.py:9 | for a start not ending in '/', each directory's depth is the number of separators its path adds to the start |
| ProjectDump.LevelAsWrittenIsDepth | dump.py:9 | for a start without '/' (the dump passes "."), the level as written equals the depth |
| ProjectDump.DumpProject | dump.py:20-53 | the text written is the tree, the heading, then a block per listed file in walk order |
| ProjectDump.DumpText | dump.py:28-53 | the dump starts with the tree of "."; when "." cannot be listed it is the header, the ruled "FILE CONTENTS BELOW" heading, and nothing more |
| ProjectDump.DumpWalk | dump.py:36-53 | the walk loop appends each directory's file blocks to the heading |
| ProjectDump.DumpFiles | dump.py:39-53 | the file loop writes a block for exactly the listed files, in order, with the file text or the read error |
| ProjectDump.DumpSkipsOwnFiles | dump.py:24-41 | no listed file's name equals the output file's name or the script's name, or ends in an ignored extension |
| Quiz.Excerpt | app/quiz.py:31 | `content[:6000]` is a prefix of at most 6000 characters, the whole content when it is shorter |
| Quiz.GenerateQuiz | app/quiz.py:3-37 | the request is refused exactly when the content is missing or blank; otherwise the result is the model's answer to the prompt |
| Quiz.RefusedWithoutModel | app/quiz.py:14-15 | a refused request does not depend on the model |
| Quiz.CourseAndTopicIgnored | app/quiz.py:9-33 | the course id and the topic never affect the result |
| Quiz.PromptSeesOnlyExcerpt | app/quiz.py:31 | content beyond the first 6000 characters does not change the prompt |
| Quiz.Prompt | app/quiz.py:17-33 | the prompt's length is bounded whatever the content's, and reaches the bound exactly when the content has at least 6000 characters |
| Quiz.IntToStringNumeral | app/quiz.py:20 | `str(count)` is made of digits and the sign |
| Quiz.NumeralSplit | app/quiz.py:20 | a numeral followed by text that starts with a space can be split only one way |
| Quiz.PromptDeterminesRequest | app/quiz.py:17-33 | equal prompts ask for the same number of questions about the same excerpt |

## Left out

- The HTTP call in `_call_api` (app/moodle_extractor.py:71-107) is not modelled. This covers its retries, sleeps, timeouts and status checks. The web-service answers are inputs instead. A Moodle error answer, which the source raises, is not modelled.
- Logging is not modelled. This covers the extractor's `logger` calls and the quiz's `print` calls.
- The global extractor instance and its factory (app/moodle_extractor.py:485-491) are not modelled.
- Reading the environment is not modelled: the variables are an `Env` parameter.
- JSON values of an unexpected type are not modelled: a `null` name, or a number where the code expects a string. Each field has the type the code expects, and a missing key carries the default the code reads it with.
- MoodleExtractor.ResourceKept: the size test `filesize / (1024*1024) > max` is made on floats in the source. The model uses the exact integer comparison `filesize > max * 1048576`. The two agree whenever `filesize` is at most 2**53 in magnitude, where the float quotient is exact. Above that the quotient is rounded: with max = 2**33 and filesize = 2**53 + 1 Python keeps the file and the model skips it. A size so large that the quotient overflows a float raises `OverflowError` in Python; the model does not.
- Html.Chr: `chr()` of a surrogate code point (U+D800 to U+DFFF) gives a lone surrogate in Python. Dafny's `char` cannot hold one, so the model maps it to U+FFFD.
- Html.DecodeNumeric: `\d` is modelled as the ASCII digits only. Python's `\d` also matches other Unicode decimal digits.
- Text.ParseInt: Python's limit on the number of digits `int()` accepts (4300 by default) is not modelled for the size setting; it is modelled for the decimal entities of the cleaner (Html.EntityChar).
- Text.ParseInt: `int()` accepts every Unicode decimal digit ("５０" is 50); the model accepts only the ASCII digits and reports any other text as invalid.
- MoodleExtractor.NewExtractor: a size setting written with non-ASCII decimal digits is accepted by the source and refused by the model (the line above).
- Text.IntToString: Python's `str()` refuses an integer of more than 4300 digits; the model converts every integer.
- The cleaner's regular expressions are modelled as the scanners they amount to:
  - case-insensitive matching of `<script`/`<style`;
  - `.*?` across newlines (DOTALL);
  - `\s+`;
  - `\n\s*\n`.
  The regular-expression engine itself is not modelled.
- The type tally in `extract_course_documents` is used only for logging. The model computes it (TallyTypes) but does not return it with the documents.
- `os.walk` is modelled as a pre-order walk over a given `Dir` tree, in the order the tree lists its entries. Not modelled:
  - the operating system's listing order;
  - symbolic links;
  - `onerror`;
  - directories that change during the walk.
  A start that does not exist is `None`, and the empty path yields nothing.
- Paths use '/' as `os.sep`. Windows separators are not modelled.
- File reading is the `read` parameter. `errors='replace'` decoding is part of that function.
- `__file__` is the `scriptName` parameter.
- The quiz's model `llm` is an uninterpreted function parameter. What it answers, and any exception it raises, are not modelled.

## Findings

| source | as written | input that shows it | evidently intended | confidence | as-written member | corrected member |
|---|---|---|---|---|---|---|
| dump.py:9 | `level = root.replace(startpath, '').count(os.sep)` takes the nesting level to be the number of separators left after every occurrence of the start path is deleted | start "a/" with a subdirectory "c": the walk visits "a/" and "a/c", and both get level 0 because the start's own trailing '/' is deleted with it; any start that recurs inside a deeper path also miscounts | the level is the directory's depth below the start | not executed | ProjectDump.LevelOfTrailingSlash | ProjectDump.GenerateTree |

GenerateTree indents each directory by its depth in the walk. ProjectDump.LevelAsWritten models the source's expression. ProjectDump.DepthCountsSeparators proves what the expression was evidently meant to compute: a directory's depth is the number of separators its path adds to the start. ProjectDump.LevelAsWrittenIsDepth proves that the two agree whenever the start holds no '/'. This includes the "." that `dump_project` passes, so the dump itself is unaffected.
