/** The HTTP handlers of backend/main.py: the in-memory job description store,
    the guards and error wrapping of the resume upload, the health report and
    the guard of the single-page-app catch-all.  FastAPI itself (routing,
    request parsing, response-model validation, CORS, static files) is not
    modelled. */
module Server {
  import opened Wrappers
  import opened Json
  import Text
  import Agent
  import PdfParser

  /** FastAPI's `HTTPException(status_code, detail)`. */
  datatype HttpError = HttpError(status: int, detail: string) {
    /** `str(e)`: Starlette renders an HTTP exception as "<status>: <detail>". */
    function Str(): (r: string)
      ensures Text.StartsWith(r, Text.IntToString(status) + ": ")
      ensures Text.EndsWith(r, ": " + detail)
    {
      var code := Text.IntToString(status);
      assert (code + ": " + detail)[..|code + ": "|] == code + ": ";
      assert (code + ": " + detail)[|code|..] == ": " + detail;
      code + ": " + detail
    }
  }

  const JD_EMPTY := "Job description cannot be empty"
  const JD_UPDATED := "Job description updated successfully"
  const JD_NOT_SET := "Please set a job description first"
  const ONLY_PDF := "Only PDF files are supported"
  const NO_TEXT := "Could not extract text from PDF. Please ensure the PDF contains readable text."
  const PROCESSING_PREFIX := "Error processing resume: "

  /** Python's `not s.strip()`. */
  predicate IsBlank(s: string)
    ensures IsBlank(s) <==> Text.AllSpace(s, Text.IsPySpace)
  {
    Text.TrimEmptyIffAllSpace(s, Text.IsPySpace);
    Text.PyStrip(s) == ""
  }

  /** The body `update_job_description` returns. */
  datatype JdUpdated = JdUpdated(message: string, jobDescription: string)

  /** `job_description_store`: the one key "jd", initially "". */
  class JobDescriptionStore {
    var jd: string

    /** Only a non-blank description is ever stored over the initial "". */
    ghost predicate Valid()
      reads this
    {
      jd == "" || !IsBlank(jd)
    }

    constructor ()
      ensures Valid() && jd == ""
    {
      jd := "";
    }

    /** `update_job_description`: a blank description is refused with 400
        and nothing changes; any other is stored as given (not trimmed) and
        echoed back. */
    method UpdateJobDescription(jobDescription: string) returns (r: Result<JdUpdated, HttpError>)
      requires Valid()
      modifies this
      ensures Valid()
      ensures IsBlank(jobDescription) ==> r == Failure(HttpError(400, JD_EMPTY)) && jd == old(jd)
      ensures !IsBlank(jobDescription) ==>
                r == Success(JdUpdated(JD_UPDATED, jobDescription)) && jd == jobDescription
    {
      if IsBlank(jobDescription) {
        return Failure(HttpError(400, JD_EMPTY));
      }
      jd := jobDescription;
      r := Success(JdUpdated(JD_UPDATED, jobDescription));
    }

    /** `get_job_description`. */
    function GetJobDescription(): (r: string)
      reads this
      ensures Valid() ==> r == "" || !IsBlank(r)
    {
      jd
    }
  }

  /** The statements inside `try` in `analyze_resume`: extraction, the empty
      text check and the agent call.  A failure is given as `str(e)` of what
      was raised, which the handler then wraps. */
  function TryBlock(read: PdfParser.PdfRead, reply: Agent.Reply): (r: Result<Object, string>)
    ensures read.Unreadable? ==>
      r == Failure(PdfParser.EXTRACT_ERROR_PREFIX + read.reason)
    ensures read.Pages? && IsBlank(PdfParser.Normalize(PdfParser.JoinPages(read.texts))) ==>
      r == Failure(HttpError(400, NO_TEXT).Str())
    ensures read.Pages? && !IsBlank(PdfParser.Normalize(PdfParser.JoinPages(read.texts))) ==>
      r == (match Agent.PostProcess(reply)
            case Success(analysis) => Success(analysis)
            case Failure(e) => Failure(e.Str()))
  {
    match PdfParser.ExtractText(read)
    case Failure(e) => Failure(e.Str())
    case Success(resumeText) =>
      if IsBlank(resumeText) then Failure(HttpError(400, NO_TEXT).Str())
      else
        match Agent.PostProcess(reply)
        case Failure(e) => Failure(e.Str())
        case Success(analysis) => Success(analysis)
  }

  /** `analyze_resume`: the job description is checked first, then the file
      name (a case-sensitive ".pdf" suffix), and only then is the file
      processed; every exception raised while processing, the 400 for an
      empty text included, becomes a 500. */
  function AnalyzeResume(jd: string, filename: string, read: PdfParser.PdfRead, reply: Agent.Reply)
    : (r: Result<Object, HttpError>)
    ensures jd == "" ==> r == Failure(HttpError(400, JD_NOT_SET))
    ensures jd != "" && !Text.EndsWith(filename, ".pdf") ==> r == Failure(HttpError(400, ONLY_PDF))
    ensures r.Success? ==> jd != "" && Text.EndsWith(filename, ".pdf") && read.Pages?
                           && Agent.PostProcess(reply) == Success(r.value)
    ensures jd != "" && Text.EndsWith(filename, ".pdf") && r.Failure? ==>
      r.error.status == 500 && Text.StartsWith(r.error.detail, PROCESSING_PREFIX)
    ensures jd != "" && Text.EndsWith(filename, ".pdf") ==>
      r == (match TryBlock(read, reply)
            case Success(analysis) => Success(analysis)
            case Failure(message) => Failure(HttpError(500, PROCESSING_PREFIX + message)))
  {
    if jd == "" then Failure(HttpError(400, JD_NOT_SET))
    else if !Text.EndsWith(filename, ".pdf") then Failure(HttpError(400, ONLY_PDF))
    else
      match TryBlock(read, reply)
      case Success(analysis) => Success(analysis)
      case Failure(message) => Failure(HttpError(500, PROCESSING_PREFIX + message))
  }

  /** Without a job description the upload is refused before its file name is
      looked at, whatever the file. */
  lemma NoJobDescriptionFirst(filename: string, read: PdfParser.PdfRead, reply: Agent.Reply)
    ensures AnalyzeResume("", filename, read, reply) == Failure(HttpError(400, JD_NOT_SET))
  {
  }

  /** The suffix test is case-sensitive: "resume.PDF" is refused. */
  lemma UpperCaseSuffixRefused(jd: string, read: PdfParser.PdfRead, reply: Agent.Reply)
    requires jd != ""
    ensures AnalyzeResume(jd, "resume.PDF", read, reply) == Failure(HttpError(400, ONLY_PDF))
  {
    assert "resume.PDF"[6..] != ".pdf" by {
      assert "resume.PDF"[7] == 'P';
    }
  }

  /** A PDF whose pages hold no text is answered with 500, not 400: the 400
      raised inside `try` is caught by the broad handler and wrapped. */
  lemma BlankPdfIsServerError(jd: string, filename: string, pages: seq<string>, reply: Agent.Reply)
    requires jd != "" && Text.EndsWith(filename, ".pdf")
    requires forall i :: 0 <= i < |pages| ==> Text.AllSpace(pages[i], Text.IsPySpace)
    ensures AnalyzeResume(jd, filename, PdfParser.Pages(pages), reply)
         == Failure(HttpError(500, PROCESSING_PREFIX + HttpError(400, NO_TEXT).Str()))
  {
    BlankPagesGiveBlankText(pages);
    WrappedAsServerError(jd, filename, PdfParser.Pages(pages), reply, HttpError(400, NO_TEXT).Str());
  }

  /** An upload that passes both guards, whose pages hold text and whose
      analysis the agent completes, is answered with that analysis. */
  lemma SuccessfulUpload(jd: string, filename: string, pages: seq<string>, reply: Agent.Reply)
    requires jd != "" && Text.EndsWith(filename, ".pdf")
    requires !IsBlank(PdfParser.Normalize(PdfParser.JoinPages(pages)))
    requires Agent.PostProcess(reply).Success?
    ensures AnalyzeResume(jd, filename, PdfParser.Pages(pages), reply) == Success(Agent.PostProcess(reply).value)
  {
  }

  /** A failure inside `try` reaches the client as 500 behind the prefix. */
  lemma WrappedAsServerError(jd: string, filename: string, read: PdfParser.PdfRead, reply: Agent.Reply,
                             message: string)
    requires jd != "" && Text.EndsWith(filename, ".pdf")
    requires TryBlock(read, reply) == Failure(message)
    ensures AnalyzeResume(jd, filename, read, reply) == Failure(HttpError(500, PROCESSING_PREFIX + message))
  {
  }

  lemma BlankPagesGiveBlankText(pages: seq<string>)
    requires forall i :: 0 <= i < |pages| ==> Text.AllSpace(pages[i], Text.IsPySpace)
    ensures IsBlank(PdfParser.Normalize(PdfParser.JoinPages(pages)))
  {
    PdfParser.BlankPagesExtractEmpty(pages);
    assert Text.TrimStart("", Text.IsPySpace) == "";
  }

  lemma StatusText400(detail: string)
    ensures HttpError(400, detail).Str() == "400: " + detail
  {
    assert Text.IntToString(400) == "400" by {
      assert Text.NatToString(4) == "4";
      assert Text.NatToString(40) == Text.NatToString(4) + ['0'];
      assert Text.NatToString(400) == Text.NatToString(40) + ['0'];
    }
  }

  /** The agent's errors reach the client as 500 with their message behind
      the handler's prefix. */
  lemma AgentErrorIsWrapped(jd: string, filename: string, pages: seq<string>, reply: Agent.Reply)
    requires jd != "" && Text.EndsWith(filename, ".pdf")
    requires !IsBlank(PdfParser.Normalize(PdfParser.JoinPages(pages)))
    requires Agent.PostProcess(reply).Failure?
    ensures AnalyzeResume(jd, filename, PdfParser.Pages(pages), reply)
         == Failure(HttpError(500, PROCESSING_PREFIX + Agent.PostProcess(reply).error.Str()))
  {
  }

  /** The report of `health_check`. */
  datatype Health = Health(status: string, agentReady: bool, jobDescriptionSet: bool)

  /** `health_check`. */
  function HealthCheck(agent: Agent.ScreeningAgent, env: Agent.Env, jd: string): (r: Health)
    ensures r.status == "healthy"
    ensures r.jobDescriptionSet <==> jd != ""
    ensures r.agentReady <==> Agent.IsReady(agent, env)
  {
    Health("healthy", Agent.IsReady(agent, env), jd != "")
  }

  /** A job description is reported set right after a successful update. */
  method UpdateThenHealth(store: JobDescriptionStore, agent: Agent.ScreeningAgent, env: Agent.Env,
                          jobDescription: string) returns (r: Health)
    requires store.Valid() && !IsBlank(jobDescription)
    modifies store
    ensures r.jobDescriptionSet
  {
    var _ := store.UpdateJobDescription(jobDescription);
    r := HealthCheck(agent, env, store.GetJobDescription());
  }

  /** What the catch-all route serves. */
  datatype Page = IndexHtml

  /** `serve_frontend`: every path under "api/" is a 404, so an unknown API
      route is never answered with the app's index page. */
  function ServeFrontend(fullPath: string, indexExists: bool): (r: Result<Page, HttpError>)
    ensures Text.StartsWith(fullPath, "api/") ==> r == Failure(HttpError(404, "Not found"))
    ensures r.Success? <==> !Text.StartsWith(fullPath, "api/") && indexExists
    ensures !Text.StartsWith(fullPath, "api/") && !indexExists ==>
      r == Failure(HttpError(404, "Frontend not built"))
  {
    if Text.StartsWith(fullPath, "api/") then Failure(HttpError(404, "Not found"))
    else if indexExists then Success(IndexHtml)
    else Failure(HttpError(404, "Frontend not built"))
  }
}
