/** The commit fetcher of the commit-log page: `fetchCommits` in
    CommitLog/src/App.jsx, with the network round trip replaced by the
    outcome it produced. */
module CommitFetch {
  import opened Wrappers
  import opened RepoUrl

  /** The fields of one commit object of the listing that the page reads. */
  datatype CommitRecord = CommitRecord(
    sha: string,
    message: string,
    authorName: string,
    authorDate: string,
    avatarUrl: Option<string>,
    htmlUrl: string)

  /** What `response.json()` produced: the listing, or the message of the
      error it threw. */
  datatype Body = Listing(data: seq<CommitRecord>) | Unparsable(message: string)

  /** What the request for the commit listing produced: the message of a
      rejected `fetch`, or a response with its status line and body. */
  datatype Outcome =
    | TransportFailure(message: string)
    | Response(status: int, statusText: string, body: Body)

  /** `response.ok`: a status in the range 200-299. */
  predicate IsOk(status: int)
  {
    200 <= status <= 299
  }

  /** The component state `fetchCommits` writes. */
  datatype ViewState = ViewState(
    commits: seq<CommitRecord>,
    loading: bool,
    error: Option<string>,
    repoInfo: Option<RepoRef>)

  const InvalidUrlMessage: string := "Invalid GitHub URL."
  const NotFoundMessage: string := "Repo not found."
  const RateLimitMessage: string := "API Limit exceeded."
  const NoCommitsMessage: string := "No commits found."

  /** The message of the error thrown for a response that is not ok. */
  function StatusMessage(status: int, statusText: string): string
  {
    if status == 404 then NotFoundMessage
    else if status == 403 then RateLimitMessage
    else "Error: " + statusText
  }

  /** The state after a request for `details` ended with `outcome`. */
  function Settled(details: RepoRef, outcome: Outcome): ViewState
  {
    var done := ViewState([], false, None, Some(details));
    match outcome
    case TransportFailure(message) => done.(error := Some(message))
    case Response(status, statusText, body) =>
      if !IsOk(status) then done.(error := Some(StatusMessage(status, statusText)))
      else match body
        case Unparsable(message) => done.(error := Some(message))
        case Listing(data) =>
          if |data| == 0 then done.(error := Some(NoCommitsMessage))
          else done.(commits := data)
  }

  /** The state after one submission of `url` from state `s`. */
  function AfterFetch(s: ViewState, url: string, outcome: Outcome): ViewState
  {
    match ExtractRepoDetails(url)
    case None => s.(error := Some(InvalidUrlMessage))
    case Some(details) => Settled(details, outcome)
  }

  /** The component's state cells that the fetch reads and writes. */
  class CommitView {
    var url: string
    var commits: seq<CommitRecord>
    var loading: bool
    var error: Option<string>
    var repoInfo: Option<RepoRef>

    /** The initial state of the page, with the default repository URL in
        the input. */
    constructor ()
      ensures url == DefaultUrl && State() == ViewState([], false, None, None)
    {
      url := DefaultUrl;
      commits := [];
      loading := false;
      error := None;
      repoInfo := None;
    }

    function State(): ViewState
      reads this
    {
      ViewState(commits, loading, error, repoInfo)
    }

    /** The input field's change handler. */
    method SetUrl(value: string)
      modifies this
      ensures url == value && State() == old(State())
    {
      url := value;
    }

    /** One submission of the form; `outcome` stands for what the request
        to the commit listing of the parsed repository produced, and is not
        consulted when the URL does not parse. */
    method FetchCommits(outcome: Outcome)
      modifies this
      ensures url == old(url)
      ensures State() == AfterFetch(old(State()), url, outcome)
    {
      var details := ExtractRepoDetails(url);
      if details.None? {
        error := Some(InvalidUrlMessage);
        return;
      }

      Settle(details.value, outcome);
    }

    /** From `setLoading(true)` on: the state writes before the request and
        the try/catch/finally block that follows it. */
    method Settle(details: RepoRef, outcome: Outcome)
      modifies this
      ensures url == old(url)
      ensures State() == Settled(details, outcome)
    {
      loading := true;
      error := None;
      commits := [];
      repoInfo := Some(details);

      // The message of the error the try block throws, if any.
      var thrown: Option<string> := None;
      match outcome {
        case TransportFailure(message) =>
          thrown := Some(message);
        case Response(status, statusText, body) =>
          if !IsOk(status) {
            if status == 404 {
              thrown := Some(NotFoundMessage);
            } else if status == 403 {
              thrown := Some(RateLimitMessage);
            } else {
              thrown := Some("Error: " + statusText);
            }
          } else {
            match body {
              case Unparsable(message) =>
                thrown := Some(message);
              case Listing(data) =>
                if |data| == 0 {
                  error := Some(NoCommitsMessage);
                } else {
                  commits := data;
                }
            }
          }
      }
      if thrown.Some? {
        error := thrown;
      }
      loading := false;
    }
  }

  /** A URL that does not parse only sets the error; loading, commits and
      repository info stay as they were, and the outcome plays no part. */
  lemma InvalidUrlOnlySetsError(s: ViewState, url: string, outcome: Outcome)
    requires '/' !in StripTrailingSlash(url)
    ensures var r := AfterFetch(s, url, outcome);
      && r.error == Some(InvalidUrlMessage)
      && r.loading == s.loading && r.commits == s.commits && r.repoInfo == s.repoInfo
  {
  }

  /** A URL that parses always ends with loading cleared and the parsed
      details recorded, whatever the outcome. */
  lemma ValidUrlSettles(s: ViewState, url: string, outcome: Outcome)
    requires ExtractRepoDetails(url).Some?
    ensures var r := AfterFetch(s, url, outcome);
      !r.loading && r.repoInfo == ExtractRepoDetails(url)
  {
  }

  /** How a response that is not ok maps to the error shown: 404 and 403
      have fixed messages, any other status shows its status text. */
  lemma ErrorStatusMessages(details: RepoRef, status: int, statusText: string, body: Body)
    requires !IsOk(status)
    ensures var r := Settled(details, Response(status, statusText, body));
      && r.commits == []
      && (status == 404 ==> r.error == Some("Repo not found."))
      && (status == 403 ==> r.error == Some("API Limit exceeded."))
      && (status != 404 && status != 403 ==> r.error == Some("Error: " + statusText))
  {
  }

  /** An ok response with an empty listing reports "No commits found." and
      shows no commits. */
  lemma EmptyListingReported(details: RepoRef, status: int, statusText: string)
    requires IsOk(status)
    ensures Settled(details, Response(status, statusText, Listing([])))
         == ViewState([], false, Some("No commits found."), Some(details))
  {
  }

  /** An ok response with a non-empty listing shows exactly those commits,
      in the order received, and no error. */
  lemma ListingShownAsReceived(details: RepoRef, status: int, statusText: string, data: seq<CommitRecord>)
    requires IsOk(status) && |data| > 0
    ensures Settled(details, Response(status, statusText, Listing(data)))
         == ViewState(data, false, None, Some(details))
  {
  }

  /** A rejected request shows the rejection's message and no commits. */
  lemma TransportFailureReported(details: RepoRef, message: string)
    ensures Settled(details, TransportFailure(message))
         == ViewState([], false, Some(message), Some(details))
  {
  }

  /** After any request the state holds either commits or an error
      message, never both and never neither. */
  lemma {:induction false} CommitsXorError(details: RepoRef, outcome: Outcome)
    ensures var r := Settled(details, outcome); r.error.None? <==> |r.commits| > 0
  {
    match outcome
    case TransportFailure(_) =>
    case Response(status, _, body) =>
      if IsOk(status) && body.Listing? {
        assert body.data == [] <==> |body.data| == 0;
      }
  }

  /** Submitting the page's default URL requests the listing of
      s-mahali/Echoletter; a 404 then reads "Repo not found.". */
  lemma DefaultUrlNotFound(s: ViewState, statusText: string, body: Body)
    ensures AfterFetch(s, DefaultUrl, Response(404, statusText, body))
         == ViewState([], false, Some("Repo not found."), Some(RepoRef("s-mahali", "Echoletter")))
  {
    ExtractDefaultUrl();
  }
}
