# Resume screening: a Dafny model of its deterministic core

The system screens resumes against a job description. The backend is Python and FastAPI. A recruiter sets a job description and uploads PDF resumes. The backend extracts each PDF's text and asks a language model for a JSON analysis. It then validates the reply, clamps the match score to 0-100 and returns the result. Candidates are kept in an SQLite table with a 1-5 rating per metric. The React frontend shows the score with a colour and a label, lists candidates with rating stars, and has a chat window. The chat window renders the assistant's markdown (tables, lists, paragraphs) as HTML.

This project models the parts of that core that decide values, and proves properties about them.

| module (file) | models |
|---|---|
| `Wrappers` (wrappers.dfy) | `Option` and `Result`. `Error` models Python exceptions, with `str(e)`. |
| `Json` (json.dfy) | Decoded JSON values. An object is `map<string, Value>`. |
| `Text` (text.dfy) | The string built-ins the code relies on: Python's `str.split(sep)`, `str.split()`, `strip()` and `str(int)`; JavaScript's `trim()` and `split`; the SQLite text order. |
| `Agent` (agent.dfy) | backend/agent.py: client selection from the environment, `is_ready`, and the validation and clamping in `analyze_resume`. |
| `PdfParser` (pdf_parser.dfy) | backend/pdf_parser.py: page joining and whitespace clean-up in `extract_text_from_pdf`. |
| `Database` (database.dfy) | backend/database.py: `score_to_rating`, the rows `add_candidate` builds, and the listing queries and lookups. The table is a `class` over a sequence of rows in rowid order plus the AUTOINCREMENT counter. |
| `Server` (server.dfy) | backend/main.py: the job description store (a `class`), the guards and error wrapping of the upload handler, the health report and the `api/` guard of the catch-all route. |
| `ChatWindow` (chat_window.dfy) | frontend ChatWindow.jsx: table parsing and rendering in `formatMarkdown`, the list wrap and the paragraph wrap, and the message list of `handleSend` and `clearHistory`. The component state is a `class`. |
| `AnalysisDashboard` (analysis_dashboard.dfy) | frontend AnalysisDashboard.jsx: score colour, score label, and headings made from the keys of the detailed analysis. |
| `CandidatesList` (candidates_list.dfy) | frontend CandidatesList.jsx: rating stars, the name fallback, selection and the count label. |

Several things happen outside the modelled code: the language model's reply, the PDF library's page texts, the clock and the outcome of the chat request. Each becomes an argument (`Agent.Reply`, `PdfParser.PdfRead`, the `now` argument of `AddCandidate`, `ChatWindow.ChatReply`).

backend/main.py has no chat route, and the chat window sends only the question, so there is no history compaction to model.

## Model

| member | source | states |
|---|---|---|
| Agent.Init | backend/agent.py:17-46 | Construction succeeds iff the key of the selected mode is set. A non-empty Azure endpoint selects Azure mode, which needs the Azure key; otherwise the OpenAI key is needed. A failure is a ValueError with the mode's message. An Azure client is built from the Azure key, the set API version (default "2024-02-15-preview") and the endpoint; an OpenAI client from the OpenAI key. The model is the set deployment (Azure) or the set model name (OpenAI), "gpt-4o" when unset. |
| Agent.ReadyAfterInit | backend/agent.py:70-74 | An agent constructed from an environment is ready in that same environment. |
| Agent.IsReady | backend/agent.py:70-74 | A ready agent has the key of its own mode set. |
| Agent.ReadyIgnoresOtherMode | backend/agent.py:70-74 | Readiness does not depend on the other mode's settings: the OpenAI key does not matter in Azure mode, and neither the Azure key nor the endpoint in OpenAI mode. |
| Agent.ReadinessFollowsEnvironment | backend/agent.py:70-74 | Readiness is re-read from the environment: an Azure agent built from an environment is ready there, and stops being ready once the endpoint is cleared. |
| Agent.FirstMissing | backend/agent.py:122-124 | None iff every listed field is present. Otherwise it gives a listed field that is absent, and every field before it is present. |
| Agent.CheckRequiredFields | backend/agent.py:117-124 | The validation loop yields the first required field missing from the analysis, in the listed order, or None. |
| Agent.CandidateNameNotRequired | backend/agent.py:117-120 | Removing `candidate_name` from an analysis that passes validation leaves it passing. |
| Agent.ToFloat | backend/agent.py:127 | A JSON number converts to itself. Conversion succeeds exactly for numbers and booleans (integers beyond the float range admitted under Left out). |
| Agent.Clamp | backend/agent.py:127-128 | The result lies in [0, 100]. A value already in range is kept. Values below are raised to 0 and values above lowered to 100. |
| Agent.PostProcess | backend/agent.py:76-135 | A success comes from a decoded reply. Its score is a number in [0, 100], it has the same keys as the reply, and only the score may change. A complete analysis is returned with its score replaced by the clamped number, so a score already in range is kept. A score that cannot be converted fails with the conversion's message behind the analysis prefix. A failed call fails with its reason behind the same prefix. A missing field is reported by its name as a RuntimeError behind "Error during resume analysis: ". Undecodable JSON is a ValueError behind "Failed to parse agent response as JSON: ". Every other failure is a RuntimeError with the analysis prefix. |
| Agent.AnalyzeResume | backend/agent.py:112-135 | The imperative handler (loop, in-place score update, both exception handlers) gives exactly the outcome `PostProcess` specifies. |
| Agent.OutOfRangeScoreClamped | backend/agent.py:127-128 | A score above 100 comes back as 100 and one below 0 as 0, with the rest of the analysis unchanged. |
| Agent.MissingFieldOrder | backend/agent.py:117-124 | Example: with the score present and both `fit_summary` and `gaps` absent, the error names `fit_summary`. |
| PdfParser.WordLen | backend/pdf_parser.py:42 | The leading run of non-whitespace: every character before it is non-whitespace, and the one after it is whitespace. |
| PdfParser.Words | backend/pdf_parser.py:42 | `str.split()` yields only non-empty, whitespace-free words. |
| PdfParser.Normalize | backend/pdf_parser.py:42 | Cleaned-up text is normal (no leading or trailing whitespace, and only single spaces between words) and keeps the words and their order. |
| PdfParser.ExtractText | backend/pdf_parser.py:33-47 | Pages give normal text whose words are the pages' words in page order. An unreadable PDF is an exception whose message is the reason behind "Failed to extract text from PDF: ". |
| PdfParser.ExtractTextFromPdf | backend/pdf_parser.py:9-47 | The page loop, the join and the clean-up compute `ExtractText`. Any failure is an exception whose message starts with "Failed to extract text from PDF: ". |
| PdfParser.WordsOfJoin | backend/pdf_parser.py:42 | Splitting words joined by single spaces gives back the same words. |
| PdfParser.JoinedWordsNormal | backend/pdf_parser.py:42 | Words joined by single spaces have normal shape, and the result is empty iff there are no words. |
| PdfParser.NormalizeIdempotent | backend/pdf_parser.py:42 | Cleaning up cleaned-up text changes nothing. |
| PdfParser.WordsEmptyIffAllSpace | backend/pdf_parser.py:42 | A text has no words iff it is all whitespace. |
| PdfParser.NormalizeEmptyIffAllSpace | backend/pdf_parser.py:42 | A text cleans up to "" iff it is all whitespace. |
| PdfParser.WordsAcrossNewline | backend/pdf_parser.py:39-42 | Joining two texts with "\n" never fuses the last word of one with the first word of the other. |
| PdfParser.WordsOfJoinedPages | backend/pdf_parser.py:33-42 | The words of the joined pages are the words of each page, page after page. |
| PdfParser.BlankPagesExtractEmpty | backend/pdf_parser.py:33-44 | Extraction from pages that are all blank, or from no page, yields "". |
| PdfParser.AllBlankPagesHaveNoWords | backend/pdf_parser.py:33-42 | Blank pages contribute no words. |
| PdfParser.StripNormal | backend/pdf_parser.py:42 | `strip()` leaves cleaned-up text unchanged. |
| Database.ScoreToRating | backend/database.py:67-72 | The rating lies in 1..5. It is 5 iff score >= 90, 4 iff 75 <= score < 90, 3 iff 60 <= score < 75, 2 iff 40 <= score < 60, and 1 iff score < 40. |
| Database.ScoreToRatingMonotone | backend/database.py:67-72 | A higher score never gets a lower rating. |
| Database.OverallScore | backend/database.py:64 | A missing score counts as 0, and a numeric score as itself. |
| Database.MissingScoreRatesOne | backend/database.py:64-72 | A missing score gives rating 1. |
| Database.NameColumn | backend/database.py:80 | A missing `candidate_name` binds NULL, and a string binds as itself. |
| Database.NewRow | backend/database.py:63-89 | The insert happens iff the score can be compared and the name can be bound. The row carries the given id, text, analysis, timestamp and bound name, and the rating of the score in all five metric columns. |
| Database.FindRow | backend/database.py:124-135 | None iff no row has that id. Otherwise it gives a row of the table with that id. |
| Database.WithoutId | backend/database.py:174-175 | The rows left after deleting an id: their ids are the old ids minus that id, and every row was there before. |
| Database.Insert | backend/database.py:106 | One insertion step of the newest-first ordering adds the row to the multiset and nothing else. |
| Database.InsertNewestFirst | backend/database.py:106 | Inserting into a newest-first sequence keeps it newest first. |
| Database.SortNewestFirst | backend/database.py:103-107 | `ORDER BY upload_date DESC` gives a permutation of the rows. |
| Database.SortIsNewestFirst | backend/database.py:103-107 | Upload dates never increase along the sorted rows. |
| Database.DisplayName | backend/database.py:162 | A non-empty name is shown as itself. A missing or empty name becomes "Candidate <id>". The result is never empty. |
| Database.FallbackNamesDistinct | backend/database.py:162 | Two unnamed candidates with different ids get different labels. |
| Database.RowDict | backend/database.py:137-139 | The dict built from a row has exactly the ten column names. Its `id` is the row id and its `analysis_json` the row's analysis as JSON text. |
| Database.CandidateTable.constructor | backend/database.py:31-44 | A new table is empty, with the counter at 0. |
| Database.CandidateTable.AddCandidate | backend/database.py:49-95 | It succeeds iff the row can be built. The new id is one above every id ever issued, so it is fresh. The row is appended and the counter advances. A failure changes nothing. Ids stay positive and increasing. |
| Database.CandidateTable.DeleteCandidate | backend/database.py:169-180 | The result is true iff a row with the id existed. Afterwards no row has that id, and every other row is kept in order. |
| Database.CandidateTable.GetCandidateById | backend/database.py:119-145 | None iff the id is unknown. Otherwise the row's dict, in which `analysis_json` is replaced by the decoded `analysis` and every other column is kept. |
| Database.CandidateTable.GetAllCandidates | backend/database.py:97-117 | One summary per row, in the newest-first order, with non-increasing upload dates. |
| Database.CandidateTable.GetAllResumesText | backend/database.py:147-167 | One entry per row, newest first, each with the fallback name applied, so no name is empty. |
| Database.KeepOrderedIds | backend/database.py:174 | Deleting rows keeps the remaining ids strictly increasing. |
| Wrappers.Error.Str | backend/main.py:113 | `str(e)` of each exception is the message it was raised with. |
| Server.HttpError.Str | backend/main.py:110-114 | `str` of an HTTP error starts with its status and ": ", and ends with ": " and its detail. |
| Server.IsBlank | backend/main.py:53 | A text is blank, i.e. `strip()` empties it, iff it is all whitespace. |
| Server.JobDescriptionStore.constructor | backend/main.py:30 | The store starts with the empty job description. |
| Server.JobDescriptionStore.UpdateJobDescription | backend/main.py:50-60 | A blank description is refused with 400 "Job description cannot be empty" and the store is unchanged. Any other description is stored verbatim and echoed in the success message. The store never holds a blank non-empty description. |
| Server.JobDescriptionStore.GetJobDescription | backend/main.py:63-66 | The description read back from a consistent store is "" or not blank. |
| Server.TryBlock | backend/main.py:89-108 | An unreadable PDF fails with the extraction prefix. Text that is blank after clean-up fails with `str` of the 400 error for unreadable text. Otherwise the outcome is the agent's: its analysis, or `str` of its error. |
| Server.AnalyzeResume | backend/main.py:69-114 | Without a job description the result is 400 "Please set a job description first", whatever the file. Otherwise a name not ending in ".pdf" is 400 "Only PDF files are supported". Once both guards pass, a success of the inner block is returned as it is, and any failure of it becomes a 500 whose detail is "Error processing resume: " followed by the failure's message. |
| Server.SuccessfulUpload | backend/main.py:69-108 | With a job description, a ".pdf" name, non-blank text and a successful agent call, the upload returns the agent's analysis. |
| Server.NoJobDescriptionFirst | backend/main.py:76-87 | The job description is checked before the file name. |
| Server.UpperCaseSuffixRefused | backend/main.py:83-87 | The suffix test is case-sensitive: "resume.PDF" is refused. |
| Server.BlankPdfIsServerError | backend/main.py:89-114 | Blank pages produce a 500 whose detail is the prefix followed by "400: " and the unreadable-text message: the inner 400 is caught and wrapped. |
| Server.WrappedAsServerError | backend/main.py:110-114 | Any failure inside `try` reaches the client as 500 behind the prefix. |
| Server.BlankPagesGiveBlankText | backend/main.py:96 | Blank pages give extracted text that `strip()` empties. |
| Server.StatusText400 | backend/main.py:110-114 | `str` of a 400 error is "400: " followed by its detail. |
| Server.AgentErrorIsWrapped | backend/main.py:103-114 | An agent failure reaches the client as 500 with the agent's message behind the prefix. |
| Server.HealthCheck | backend/main.py:117-124 | The status is "healthy". `job_description_set` is true iff the stored description is non-empty. `agent_ready` is the agent's readiness. |
| Server.UpdateThenHealth | backend/main.py:50-124 | Right after a successful update the health report says a job description is set. |
| Server.ServeFrontend | backend/main.py:146-156 | Every path under "api/" is 404 "Not found". The index page is served iff the path is not under "api/" and the index exists; otherwise it is 404 "Frontend not built". |
| Text.Split | frontend/src/components/ChatWindow.jsx:15 | Splitting gives at least one piece, and no piece contains the separator. |
| Text.SplitCount | frontend/src/components/ChatWindow.jsx:26 | Splitting gives one piece more than there are separators. |
| Text.JoinSplit | frontend/src/components/ChatWindow.jsx:15 | Joining the pieces with the separator gives back the string. |
| Text.SplitCons | frontend/src/components/ChatWindow.jsx:26 | A string made of a separator-free piece, the separator and a rest splits into that piece followed by the pieces of the rest. |
| Text.SplitNoSep | frontend/src/components/ChatWindow.jsx:26 | A string without the separator splits into itself alone. |
| Text.TrimStart | frontend/src/components/ChatWindow.jsx:15 | The result is a suffix of the input, and it does not start with whitespace. |
| Text.TrimEnd | frontend/src/components/ChatWindow.jsx:15 | The result is a prefix of the input, and it does not end with whitespace. |
| Text.Trim | frontend/src/components/ChatWindow.jsx:15 | The result is no longer than the input, and neither end of it is whitespace. |
| Text.TrimStartCut | frontend/src/components/ChatWindow.jsx:15 | What is cut off at the front is all whitespace. |
| Text.TrimEndCut | frontend/src/components/ChatWindow.jsx:15 | What is cut off at the back is all whitespace. |
| Text.TrimFactor | frontend/src/components/ChatWindow.jsx:15 | Trimming keeps a part of the input whose surroundings on both sides are all whitespace. |
| Text.TrimStartAllSpace | backend/main.py:53 | An all-whitespace string trims to nothing at the front. |
| Text.JsTrim | frontend/src/components/ChatWindow.jsx:108-110 | `trim()` is no longer than its input, and a non-empty result has non-whitespace ends. |
| Text.TrimEmptyIffAllSpace | backend/main.py:53 | Trimming gives "" iff the string is all whitespace. |
| Text.NatToString | backend/database.py:162 | Decimal rendering is a non-empty digit string without a leading zero. |
| Text.NatToStringRoundTrip | backend/database.py:162 | Reading the rendered digits back gives the number. |
| Text.NatToStringInjective | backend/database.py:162 | Different numbers render differently. |
| Text.IntToString | backend/database.py:162 | A negative number renders as "-" followed by its magnitude's digits. |
| Text.IntToStringInjective | backend/database.py:162 | Different integers render differently. |
| Text.StrLeTotal | backend/database.py:106 | Any two upload dates are ordered one way or the other. |
| Text.StrLeTransitive | backend/database.py:106 | The text order is transitive. |
| ChatWindow.Classify | frontend/src/components/ChatWindow.jsx:18-23 | A separator cell is center iff it starts and ends with ':', right iff it ends with ':' but does not start with it, and left iff it does not end with ':'. |
| ChatWindow.ClassifyExamples | frontend/src/components/ChatWindow.jsx:18-23 | Examples: ":---:" and ":" are center, "---:" is right, and ":---" and "---" are left. |
| ChatWindow.NonBlankTrimmed | frontend/src/components/ChatWindow.jsx:15 | The header rule gives no more cells than pieces, and every cell is non-empty and trimmed. |
| ChatWindow.NonEmptyTrimmed | frontend/src/components/ChatWindow.jsx:27 | The body rule gives no more cells than pieces, and every cell is trimmed. |
| ChatWindow.CellRulesOnePiece | frontend/src/components/ChatWindow.jsx:15-27 | One piece: the header rule keeps it trimmed unless it trims to "", the body rule keeps it trimmed unless it is "". |
| ChatWindow.HeaderRuleAppend | frontend/src/components/ChatWindow.jsx:15 | The header cells of two runs of pieces are those of the first followed by those of the second, so the rule is a filter and trim in order. |
| ChatWindow.BodyRuleAppend | frontend/src/components/ChatWindow.jsx:27 | The same for the body rule. |
| ChatWindow.HeaderCellKept | frontend/src/components/ChatWindow.jsx:15 | Every piece that does not trim to "" appears, trimmed, among the header cells. |
| ChatWindow.HeaderCellFromPiece | frontend/src/components/ChatWindow.jsx:15 | Every header cell is some piece, trimmed. |
| ChatWindow.BodyCellKept | frontend/src/components/ChatWindow.jsx:27 | Every non-empty piece appears, trimmed, among the body cells. |
| ChatWindow.BodyCellFromPiece | frontend/src/components/ChatWindow.jsx:27 | Every body cell is some non-empty piece, trimmed. |
| ChatWindow.BodyCellsWithoutEmpty | frontend/src/components/ChatWindow.jsx:27 | Without empty pieces the body rule keeps every piece, trimmed, in its place. |
| ChatWindow.DropEmpty | frontend/src/components/ChatWindow.jsx:15 | No cell of the result is empty. |
| ChatWindow.HeaderRuleIsBodyRuleWithoutBlanks | frontend/src/components/ChatWindow.jsx:15-27 | The two rules differ exactly in the cells that become "" after trimming: the header keeps the body's cells minus the empty ones. |
| ChatWindow.BlankCellHeaderVersusBody | frontend/src/components/ChatWindow.jsx:15-27 | A whitespace-only piece disappears from a header but survives in a body row as "". |
| ChatWindow.Alignments | frontend/src/components/ChatWindow.jsx:18-23 | There is one alignment per cell the header rule keeps from the separator. Entry i is center iff the i-th such cell starts and ends with ':', right iff it only ends with ':', and left iff it does not end with ':'. |
| ChatWindow.BodyRows | frontend/src/components/ChatWindow.jsx:26-28 | A trimmed body with k line breaks gives k+1 rows. |
| ChatWindow.BodyRowKeepsPiece | frontend/src/components/ChatWindow.jsx:26-28 | Every non-empty piece of a body line is a cell of its row, trimmed; a piece of spaces only gives the cell "". |
| ChatWindow.BodyRowCellFromPiece | frontend/src/components/ChatWindow.jsx:26-28 | Every cell of a row is a non-empty piece of its line, trimmed. |
| ChatWindow.AlignAt | frontend/src/components/ChatWindow.jsx:34 | A column with an alignment entry uses it; any other column is left-aligned. |
| ChatWindow.CellsHtmlIsColumns | frontend/src/components/ChatWindow.jsx:33-42 | A rendered row is the concatenation of its cells, each rendered with its own column's alignment or left. |
| ChatWindow.TableHtml | frontend/src/components/ChatWindow.jsx:31-47 | A table's HTML opens with the table and head tags, and ends with the head close, the body rows and the table close. |
| ChatWindow.RenderTable | frontend/src/components/ChatWindow.jsx:31-47 | The string built with `+=` in the nested loops is the table's HTML: the table open tag, the header cells, the head close, every body row and the table close. |
| ChatWindow.BuildTableHtml | frontend/src/components/ChatWindow.jsx:13-48 | The replacement for one table is the HTML of the parsed header, alignments and rows. |
| ChatWindow.ConcatSnoc | frontend/src/components/ChatWindow.jsx:33-42 | Appending one cell's HTML extends the concatenation by exactly that HTML. |
| ChatWindow.FindFirst | frontend/src/components/ChatWindow.jsx:74 | The first occurrence of a pattern at or after a position, or None if there is none. |
| ChatWindow.FindLast | frontend/src/components/ChatWindow.jsx:74 | The last occurrence of a pattern before a position, or None if there is none. |
| ChatWindow.FindMatch | frontend/src/components/ChatWindow.jsx:74 | The match a non-global, dotall, greedy search takes: the leftmost "<li>" with the rightmost "</li>" after it. None iff there is no match. |
| ChatWindow.MatchUnique | frontend/src/components/ChatWindow.jsx:74 | There is only one leftmost-longest match. |
| ChatWindow.WrapList | frontend/src/components/ChatWindow.jsx:74 | Without a match the text is unchanged. Otherwise exactly one "<ul>…</ul>" is put around the span from the first "<li>" to the last "</li>", and the rest is kept. |
| ChatWindow.WrapParagraph | frontend/src/components/ChatWindow.jsx:77-79 | Text starting with "<h", "<ul", "<pre>" or "<table" is kept. Anything else is wrapped in "<p>…</p>". |
| ChatWindow.TableFirstNotWrapped | frontend/src/components/ChatWindow.jsx:77-79 | Output that begins with a rendered table is not wrapped in a paragraph. |
| ChatWindow.ListFirstNotWrapped | frontend/src/components/ChatWindow.jsx:74-79 | Output that begins with a list item closed later becomes a list and is not wrapped in a paragraph. |
| ChatWindow.FormatMarkdown | frontend/src/components/ChatWindow.jsx:5-82 | The result is "" iff the text is missing or empty. Any other result starts with a block element or is a paragraph. |
| ChatWindow.ReplyText | frontend/src/components/ChatWindow.jsx:126-134 | An answer is shown as it is, and a failed request as the fixed apology. |
| ChatWindow.BeginSend | frontend/src/components/ChatWindow.jsx:107-115 | With blank input or a pending request nothing changes. Otherwise the trimmed input is appended as a user message, the input is cleared and loading starts. |
| ChatWindow.FinishSend | frontend/src/components/ChatWindow.jsx:126-137 | Exactly one assistant message is appended and loading ends. Input typed meanwhile is kept. |
| ChatWindow.Send | frontend/src/components/ChatWindow.jsx:107-138 | With blank input or a pending request nothing changes. Otherwise the messages gain the trimmed, non-empty question and then one answer (or the apology), the input is empty and loading is over. |
| ChatWindow.NoSendWhilePending | frontend/src/components/ChatWindow.jsx:108 | While a request is pending, a second send changes nothing, whatever has been typed. |
| ChatWindow.SendKeepsConversation | frontend/src/components/ChatWindow.jsx:107-138 | A question leaves the conversation waiting for an answer. A complete send keeps questions and answers alternating. |
| ChatWindow.BeginLeavesPending | frontend/src/components/ChatWindow.jsx:114 | After the question is appended, the conversation waits for its answer. |
| ChatWindow.AskLeavesPending | frontend/src/components/ChatWindow.jsx:114 | Appending a user message to an alternating history leaves one question pending. |
| ChatWindow.FinishCompletes | frontend/src/components/ChatWindow.jsx:129-134 | Appending the answer to a pending question restores the alternation. |
| ChatWindow.ChatSession.constructor | frontend/src/components/ChatWindow.jsx:85-91 | The history starts as saved, with empty input and nothing pending. |
| ChatWindow.ChatSession.HandleSend | frontend/src/components/ChatWindow.jsx:107-138 | The in-place state updates of `handleSend` produce exactly the state `Send` specifies. |
| ChatWindow.ChatSession.ClearHistory | frontend/src/components/ChatWindow.jsx:149-154 | The messages are emptied iff the user confirms. Input and loading are unchanged. |
| AnalysisDashboard.ScoreColor | frontend/src/components/AnalysisDashboard.jsx:9-13 | Green iff score >= 80, orange iff 60 <= score < 80, and red iff score < 60. |
| AnalysisDashboard.ScoreLabel | frontend/src/components/AnalysisDashboard.jsx:15-20 | Excellent iff score >= 80, Good iff 60 <= score < 80, Moderate iff 40 <= score < 60, and Weak iff score < 40. |
| AnalysisDashboard.DisplayMonotone | frontend/src/components/AnalysisDashboard.jsx:9-20 | A higher score never gets a worse colour or a worse label. |
| AnalysisDashboard.ColorMatchesLabel | frontend/src/components/AnalysisDashboard.jsx:9-20 | Green goes exactly with "Excellent Match" and orange exactly with "Good Match"; red goes with both lower labels. |
| AnalysisDashboard.Upper | frontend/src/components/AnalysisDashboard.jsx:130 | Upper-casing changes only a-z, each to its capital, and keeps word characters word characters. |
| AnalysisDashboard.UnderscoresToSpaces | frontend/src/components/AnalysisDashboard.jsx:130 | Every underscore becomes a space. The length and every other character are kept. |
| AnalysisDashboard.CapitalizeWords | frontend/src/components/AnalysisDashboard.jsx:130 | Exactly the characters where `\b\w` matches are upper-cased. The length and everything else are kept. |
| AnalysisDashboard.PrettifyKey | frontend/src/components/AnalysisDashboard.jsx:130 | A heading has the key's length and no underscore. |
| AnalysisDashboard.PrettifyKeyShape | frontend/src/components/AnalysisDashboard.jsx:130 | Underscores become spaces, the first character of each word is upper-cased, and every other character is kept (nothing is lower-cased). |
| AnalysisDashboard.CapitalizeKeepsWordChars | frontend/src/components/AnalysisDashboard.jsx:130 | Capitalising keeps word boundaries where they were. |
| AnalysisDashboard.PrettifyKeyIdempotent | frontend/src/components/AnalysisDashboard.jsx:130 | Prettifying a heading again changes nothing. |
| CandidatesList.RatingStars | frontend/src/components/CandidatesList.jsx:19-28 | There are always exactly five stars. Star i is filled iff the rating is present and i < rating. |
| CandidatesList.FilledStarsArePrefix | frontend/src/components/CandidatesList.jsx:20-25 | Filled stars come before empty ones. |
| CandidatesList.FilledOfPrefix | frontend/src/components/CandidatesList.jsx:20-25 | If exactly the first k stars are filled, the count of filled stars is k. |
| CandidatesList.FilledCount | frontend/src/components/CandidatesList.jsx:20-25 | For an integer rating the number of filled stars is the rating clamped to 0..5. |
| CandidatesList.StoredRatingStars | frontend/src/components/CandidatesList.jsx:81-101 | The rating stored for any score shows as that many filled stars, at least one. |
| CandidatesList.DisplayName | frontend/src/components/CandidatesList.jsx:74 | A non-empty name is shown as itself. A missing or empty name becomes "Candidate <id>". |
| CandidatesList.DisplayNameAgrees | frontend/src/components/CandidatesList.jsx:74 | The list shows the same name the backend gives the chat for that row. |
| CandidatesList.UnnamedDistinct | frontend/src/components/CandidatesList.jsx:74 | Two unnamed candidates are never shown under the same name. |
| CandidatesList.RowSelected | frontend/src/components/CandidatesList.jsx:68-71 | Without a selection no row is highlighted, and a highlighted row's id is the selected id. |
| CandidatesList.MainPageSelected | frontend/src/components/CandidatesList.jsx:44-47 | While the main page is highlighted no row with a non-zero id is; otherwise the selected id's row is. |
| CandidatesList.SelectionExclusive | frontend/src/components/CandidatesList.jsx:45-70 | With row ids starting at 1, the main page and a row are never highlighted together, and at most one row is. |
| CandidatesList.CountLabel | frontend/src/components/CandidatesList.jsx:5-39 | A missing list shows "0 total". Otherwise the label is the count followed by " total". |
| CandidatesList.CountLabelInjective | frontend/src/components/CandidatesList.jsx:39 | Different counts give different labels. |

## Left out

- Chat-history compaction: it is not in any of the modelled files (backend/main.py has no chat route), so there is nothing to model.
- The OpenAI and Azure completion calls and the prompts: the network client is replaced by its outcome, `Agent.Reply`. The resume text and the job description passed to it therefore have no effect on the modelled result.
- `json.loads` and `json.dumps`: replies arrive already decoded. The stored `analysis_json` is taken to decode back to the stored analysis. A reply that decodes to something other than an object is not modelled.
- Agent.ToFloat: numeric strings such as "85", which Python's `float()` accepts, are modelled as not convertible. NaN and infinity are not modelled, because scores are exact reals.
- Agent.ToFloat: a JSON integer outside the float range, on which `float()` raises OverflowError (so the source answers RuntimeError "Error during resume analysis: int too large to convert to float"), is modelled as converting exactly, so the model clamps it to 100 or 0 instead. JSON numbers are exact reals here and keep no integer/float distinction. A float literal such as `1e400` decodes to infinity and is clamped to 100, as the model says.
- Agent.PostProcess: for a JSON integer score outside the float range it succeeds with the clamped score, where the source raises RuntimeError (see the Agent.ToFloat line above).
- Agent.OutOfRangeScoreClamped: the clamping it states does not hold in the source for a JSON integer score outside the float range, on which `float()` raises (see the Agent.ToFloat line above).
- Agent.PostProcess: Python's int/float distinction is not kept. `max(0, min(100, x))` can yield the int 0 or 100 where the model has the real 0.0 or 100.0.
- Database.NameColumn: a `candidate_name` that is a number or a boolean is rejected, although SQLite would bind and store it. The binding error's wording is approximated.
- Database.NewRow: the TypeError for a non-numeric score is worded generically rather than naming the offending Python type.
- Database.SortNewestFirst: rows with equal upload dates keep rowid order, while SQLite leaves their order unspecified.
- The SQLite connection, schema creation and `datetime.now()`: the table is a sequence of rows plus the AUTOINCREMENT counter, and the timestamp is an argument.
- `JobDescriptionStorage` (backend/database.py:184-206): plain file I/O.
- PyPDF2 reading and `validate_pdf` (backend/pdf_parser.py:50-65): a foreign library. The page texts, or the reason reading failed, are the input.
- FastAPI plumbing: app creation, CORS, static mounting, frontend path discovery, the `/` route, uvicorn start-up, and the failure of agent construction at import time.
- Server.TryBlock: `await file.read()` failing is not modelled separately. The model folds it into `Unreadable`, which gives its message the "Failed to extract text from PDF: " prefix. In the source that exception reaches the handler at backend/main.py:110-114 without that prefix, as "Error processing resume: <e>".
- Server.AnalyzeResume, Server.SuccessfulUpload: the result is the handler's return value, not the HTTP body. FastAPI validates it against `AnalysisResponse` (backend/main.py:40-48, 69). That drops keys not in the response model and coerces the score to float. With Pydantic v2, `candidate_name: Optional[str]` without a default is a required field, so an analysis without `candidate_name` (which `Agent.CandidateNameNotRequired` shows the agent accepts) would fail response validation and be answered with 500. The Pydantic version is not part of this model.
- React rendering, `localStorage`, `fetch`, scrolling and `toLocaleDateString`: UI and I/O. `handleSend` is modelled atomically in `ChatSession.HandleSend`. The interleaving around its `await` appears only as the split into `BeginSend` and `FinishSend`.
- ChatWindow.FinishSend: a response without an `answer` field (which would add an `undefined` message) is not modelled. An answer is a string.
- The table-matching regular expression (ChatWindow.jsx:12): the model starts from its three captured groups. The whole-text replacement is a parameter of `FormatMarkdown`.
- The header, emphasis, code, list-item and line-break substitutions (ChatWindow.jsx:50-71): JavaScript regex semantics with lazy quantifiers and m/g flags. This step is a parameter of `FormatMarkdown`.
- The SVG arc geometry in AnalysisDashboard.jsx (lines 52-53 and 64): floating-point display math.
- App.jsx, ResumeUpload.jsx and JobDescriptionForm.jsx: UI event wiring with only trivial guards.
