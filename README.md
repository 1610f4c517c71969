# CommitLog core, modelled in Dafny

CommitLog is a single-page React client. It asks the GitHub API for a repository's commit history and shows it as a timeline. It also keeps a best-effort visitor counter in browser storage. Nearly all of `CommitLog/src/App.jsx` is presentation. This project models the three pieces of sequential logic inside that component:

- **Repository-URL parser** (`RepoUrl`, file `repo_url.dfy`). `extractRepoDetails` removes one trailing `/`, splits on `/` and returns the last two segments as `{owner, repo}`, or `null` when fewer than two segments remain. JavaScript's `split("/")` is modelled as `Split`, with `Join` as its inverse. `null` is `None`.
- **Visitor counter** (`VisitorCounter`, file `visitor_counter.dfy`). The browser's two stores are the `Storage` class: a durable map holding `site_visitor_count` and a per-session map holding `hasVisitedSession`. The mount-time effect is the method `Storage.InitVisitorCount`. It reads the count and seeds an absent or zero count to 500. On a new session it adds one and writes both keys. It returns the count the page displays. The pure function `Init` is its specification, and the properties are lemmas about `Init`.
- **Commit fetcher** (`CommitFetch`, file `commit_fetch.dfy`). The component's state cells `url`, `commits`, `loading`, `error` and `repoInfo` are fields of the class `CommitView`. The method `CommitView.FetchCommits` runs the same sequence of state writes as `fetchCommits`. The network round trip becomes an `Outcome` input with three cases:
  - a rejected `fetch` with its message;
  - a response with its status and status text;
  - a body that is either the decoded listing or the message `response.json()` threw.

  `response.ok` is a status in 200..299. The pure functions `AfterFetch` and `Settled` specify the method, and the lemmas state the status-to-message mapping and the empty versus non-empty handling.

`Wrappers` (file `wrappers.dfy`) holds the `Option` datatype.

Modelling decisions:

- The try/finally block of `fetchCommits` is the method `CommitView.Settle`, which `FetchCommits` calls once the URL has parsed. A local `thrown` option holds the message of the error the try block throws, and the catch branch turns it into `error`.
- The durable store holds the count already read back as an integer (`map<string, int>`), not a string passed through `parseInt`. An absent key reads as 0, as `parseInt(null || '0', 10)` does.
- In the new-session branch, App.jsx reads the session key a second time and writes it only when the value is falsy (CommitLog/src/App.jsx:48-52). The model keeps that check through `GetItem` and `Truthy`. In that branch the key is always absent, so the write always happens.
- A second run in the same session writes nothing, whatever the stores hold (`SecondInitWritesNothing`). It also displays the same count unless a new session finds a stored `-1`, which becomes 0 and is then re-seeded (`InitTwiceSameUnlessMinusOne`, both directions). In particular it does so whenever the stored count is not negative (`NoNegativeCount`, `InitTwiceIncrementsOnce`). `Init` preserves that condition: starting from stores with no negative count, the page never writes one. A stored negative count is bumped and written back (`NegativeCountWrittenBack`: `-5` becomes `-4`). `InitTwiceWithNegativeCount` shows the edge: a stored `-1` displays 0 and persists 0, and a second run in the same session then re-seeds and displays 500.

## Model

| member | source | states |
|---|---|---|
| RepoUrl.StripTrailingSlash | CommitLog/src/App.jsx:64 | the result is a prefix of the input at most one character shorter, and it is shorter exactly when the input ends with `/` |
| RepoUrl.Split | CommitLog/src/App.jsx:65 | `split("/")` always yields at least one segment, even for the empty string |
| RepoUrl.SplitLength | CommitLog/src/App.jsx:65-66 | split yields one more segment than the string has slashes, so `parts.length < 2` means there is no slash |
| RepoUrl.SlashCountZero | CommitLog/src/App.jsx:65-66 | the slash count is zero exactly when the string holds no `/` |
| RepoUrl.SplitSlashFree | CommitLog/src/App.jsx:65 | no segment split yields contains `/` |
| RepoUrl.JoinSplit | CommitLog/src/App.jsx:65 | joining the segments with `/` gives the string back |
| RepoUrl.SplitJoin | CommitLog/src/App.jsx:65 | splitting the join of slash-free segments gives those segments back, so Split and Join are inverses |
| RepoUrl.SplitAtSlash | CommitLog/src/App.jsx:65 | splitting `a + "/" + b` gives the segments of `a` followed by those of `b` |
| RepoUrl.SplitWithoutSlash | CommitLog/src/App.jsx:65 | a string with no slash is a single segment |
| RepoUrl.ExtractRepoDetails | CommitLog/src/App.jsx:62-71 | the parser returns null exactly when no `/` remains after removing one trailing slash |
| RepoUrl.ExtractIsLastTwoSegments | CommitLog/src/App.jsx:64-67 | the parser returns `{owner, repo}` if and only if they are the last two `/`-segments of the cleaned URL: neither holds `/`, the cleaned URL ends with `owner + "/" + repo`, and what precedes that tail is empty or ends with `/` |
| RepoUrl.LastTwoOfJoin | CommitLog/src/App.jsx:67 | the join of two or more slash-free segments ends with its last two segments |
| RepoUrl.SplitEndsWith | CommitLog/src/App.jsx:65-67 | a string whose last two segments are `owner` and `repo` splits into a sequence ending with those two |
| RepoUrl.ExtractIgnoresOneTrailingSlash | CommitLog/src/App.jsx:64 | adding one trailing slash to an input that has none does not change the result |
| RepoUrl.ExtractKeepsSecondTrailingSlash | CommitLog/src/App.jsx:64-67 | only one trailing slash is removed: `s + "//"` yields owner = last segment of `s`, repo = `""` |
| RepoUrl.ExtractAfterAnyPrefix | CommitLog/src/App.jsx:64-67 | whatever precedes `/owner/repo` (a protocol and host, or nothing), the parser returns that owner and a non-empty repo, with or without one trailing slash |
| RepoUrl.ExtractRejectsSingleSegment | CommitLog/src/App.jsx:66 | `""`, `"/"`, `"abc"` and `"abc/"` all yield null |
| RepoUrl.ExtractTrailingSlashExample | CommitLog/src/App.jsx:64-67 | `"a/b/"` and `"a/b"` both yield owner `a`, repo `b` |
| RepoUrl.ExtractDoubleSlashExample | CommitLog/src/App.jsx:64-67 | `"a/b//"` yields owner `b`, repo `""` |
| RepoUrl.ExtractLeadingSlashExample | CommitLog/src/App.jsx:64-67 | `"/a"` yields owner `""`, repo `a` |
| RepoUrl.ExtractDefaultUrl | CommitLog/src/App.jsx:19 | the input's initial URL parses to `s-mahali` / `Echoletter` |
| VisitorCounter.GetItem | CommitLog/src/App.jsx:34 | `getItem` yields a value exactly when the key is present, and then that key's value |
| VisitorCounter.Seeded | CommitLog/src/App.jsx:36-40 | the seeded count is never 0; it is 500 when the key is absent or holds 0, the stored value otherwise |
| VisitorCounter.Storage.constructor | CommitLog/src/App.jsx:29-31 | the two stores start with the given contents |
| VisitorCounter.Storage.InitVisitorCount | CommitLog/src/App.jsx:29-59 | the displayed count and both stores after the effect are those `Init` gives for the stores before it |
| VisitorCounter.NewSessionIncrementsOnce | CommitLog/src/App.jsx:34-51 | on a new session the count displayed is seeded + 1, exactly that value is persisted, the session flag becomes `"true"` and no other key changes |
| VisitorCounter.ReturningSessionWritesNothing | CommitLog/src/App.jsx:34-42 | when the session flag is present, neither store changes and the seeded stored count is displayed |
| VisitorCounter.FirstVisitEver | CommitLog/src/App.jsx:36-51 | with both stores empty, 501 is displayed and persisted and the flag is set |
| VisitorCounter.FlaggedSessionWithoutCount | CommitLog/src/App.jsx:36-42 | a flagged session with no stored count displays 500 and writes nothing |
| VisitorCounter.InitEstablishesFlag | CommitLog/src/App.jsx:42-57 | after any run the session is flagged; from stores with no negative count, no count is negative afterwards and the displayed count is the seeded count of the stores left behind |
| VisitorCounter.SecondInitWritesNothing | CommitLog/src/App.jsx:34-55 | for any stores, negative counts included, a second run in the same session leaves both stores exactly as the first run left them |
| VisitorCounter.NegativeCountWrittenBack | CommitLog/src/App.jsx:36-45 | a stored -5 on a new session is written back as -4 |
| VisitorCounter.InitTwiceIncrementsOnce | CommitLog/src/App.jsx:34-57 | from stores with no negative count, a second run in the same session writes nothing and displays the same count |
| VisitorCounter.InitTwiceSameUnlessMinusOne | CommitLog/src/App.jsx:34-57 | a second run in the same session reproduces the first run exactly, displayed count included, if and only if the session was already flagged or the stored count is not -1 |
| VisitorCounter.InitTwiceWithNegativeCount | CommitLog/src/App.jsx:36-44 | a stored -1 displays 0 on the first run and 500 on a second run in the same session |
| VisitorCounter.RepeatedInitsIncrementOnce | CommitLog/src/App.jsx:34-57 | from stores with no negative count, any number of loads in one session display and leave exactly what the first load did |
| VisitorCounter.SessionsAddOneEach | CommitLog/src/App.jsx:34-45 | from a durable store with no negative count, after n loads, each in a fresh session, the durable count is the seeded count plus n |
| VisitorCounter.VisitSequenceExample | CommitLog/src/App.jsx:29-59 | first load shows 501, a reload in the same session still shows 501, and a later fresh session shows and persists 502 |
| CommitFetch.CommitView.constructor | CommitLog/src/App.jsx:19-23 | the state starts with the default repository URL in the input, no commits, not loading, no error and no repository info |
| CommitFetch.CommitView.SetUrl | CommitLog/src/App.jsx:201 | typing into the input changes `url` and nothing else |
| CommitFetch.CommitView.FetchCommits | CommitLog/src/App.jsx:90-121 | the state after one submission is `AfterFetch` of the state before; `url` is unchanged |
| CommitFetch.CommitView.Settle | CommitLog/src/App.jsx:99-120 | after the request, the state is `Settled` of the parsed details and the outcome |
| CommitFetch.InvalidUrlOnlySetsError | CommitLog/src/App.jsx:93-97 | an unparsable URL sets error to `"Invalid GitHub URL."` and leaves loading, commits and repoInfo as they were, whatever the outcome |
| CommitFetch.ValidUrlSettles | CommitLog/src/App.jsx:99-120 | with a parsable URL, loading ends false and repoInfo is the parsed details, whatever the outcome |
| CommitFetch.ErrorStatusMessages | CommitLog/src/App.jsx:107-117 | a non-ok status leaves commits empty; 404 gives `"Repo not found."`, 403 gives `"API Limit exceeded."`, any other gives `"Error: " + statusText` |
| CommitFetch.EmptyListingReported | CommitLog/src/App.jsx:113-114 | an ok response with an empty listing gives error `"No commits found."` and no commits |
| CommitFetch.ListingShownAsReceived | CommitLog/src/App.jsx:113-115 | an ok response with a non-empty listing shows exactly that listing, in the same order, with no error |
| CommitFetch.TransportFailureReported | CommitLog/src/App.jsx:104-117 | a rejected request shows its message as the error and no commits |
| CommitFetch.CommitsXorError | CommitLog/src/App.jsx:99-120 | after a request, the state holds no error exactly when it holds commits |
| CommitFetch.DefaultUrlNotFound | CommitLog/src/App.jsx:93-108 | submitting the initial URL and getting a 404 records `s-mahali/Echoletter` and shows `"Repo not found."` |

## Left out

- JSX rendering, the stylesheet and the print stylesheet (CommitLog/src/App.jsx:131-321): presentation only.
- `formatDateDetails` (CommitLog/src/App.jsx:73-88): it depends on `Date`, `toLocaleString` and the Asia/Kolkata timezone data, which are host library calls outside the model.
- The HTTP request itself (`fetch` with the URL built at CommitLog/src/App.jsx:105), `response.json()` and `await`: network I/O. Only what they produced enters the model, as the `Outcome` input. The request URL and its `per_page=100` page size are not modelled.
- `e.preventDefault()` (CommitLog/src/App.jsx:91): a browser event side effect.
- Overlapping fetches, where the last one to complete wins: this is concurrency, so each submission is modelled as one atomic transition.
- `copyToClipboard` with its clipboard write and 2-second timer (CommitLog/src/App.jsx:123-127), and `window.print` (CommitLog/src/App.jsx:129): host side effects and timers.
- The locale thousands separators used to display the count (CommitLog/src/App.jsx:174): presentation.
- VisitorCounter.Storage.InitVisitorCount: the durable value is an integer, not a string read with `parseInt`. A non-numeric stored string (which gives NaN), an empty stored string and a stored string like `"12abc"` are not represented.
- VisitorCounter.Storage.InitVisitorCount: the count is an unbounded integer. JavaScript holds it as a double, so above 2^53 `currentCount += 1` can leave it unchanged, and from 1e21 up `toString()` writes the exponent form (`"1e+21"`), which the next load's `parseInt` reads as 1. Neither behaviour is modelled, so `SessionsAddOneEach` ("seeded + n") describes the source only below 2^53. The page's own writes reach such values only after about 2^53 sessions or a tampered store.
- Storage that is unavailable or throws, which App.jsx does not handle: the stores are always accessible in the model.
- ExtractRepoDetails: the `catch` branch (CommitLog/src/App.jsx:68-70) is not reachable from a string input, so it is not modelled. It only fires when `repoUrl` is not a string.
- CommitFetch.CommitsXorError: the lemma is about the state, not the rendered page. A rejection or parse failure whose message is `""` leaves `error` as `Some("")`, which the JSX (CommitLog/src/App.jsx:214 and :311) treats as falsy, so the page then shows neither commits nor an error.
- React's batching and the asynchronous re-render: the state setters are modelled as field assignments in program order, and the final state is compared.
