/** The repository-URL parser of the commit-log page: `extractRepoDetails`
    in CommitLog/src/App.jsx, together with the model of JavaScript's
    `String.prototype.split("/")` it relies on. */
module RepoUrl {
  import opened Wrappers

  /** The `{owner, repo}` pair the parser returns. */
  datatype RepoRef = RepoRef(owner: string, repo: string)

  /** Number of '/' characters in `s`. */
  function SlashCount(s: string): nat
  {
    if s == [] then 0 else (if s[0] == '/' then 1 else 0) + SlashCount(s[1..])
  }

  /** No segment of `parts` holds a slash. */
  predicate SlashFree(parts: seq<string>)
  {
    forall i :: 0 <= i < |parts| ==> '/' !in parts[i]
  }

  /** The segments joined back together with '/'. */
  function Join(parts: seq<string>): string
    requires |parts| >= 1
  {
    if |parts| == 1 then parts[0] else parts[0] + "/" + Join(parts[1..])
  }

  /** `s.split("/")`. As in JavaScript, the result is never empty: the empty
      string splits into one empty segment. */
  function Split(s: string): (parts: seq<string>)
    ensures |parts| >= 1
  {
    if s == [] then [""]
    else
      var rest := Split(s[1..]);
      if s[0] == '/' then [""] + rest
      else [[s[0]] + rest[0]] + rest[1..]
  }

  /** `repoUrl.replace(/\/$/, "")`: removes one trailing '/' and nothing else. */
  function StripTrailingSlash(s: string): (r: string)
    ensures r <= s && |s| - |r| <= 1
    ensures |r| < |s| <==> |s| > 0 && s[|s| - 1] == '/'
  {
    if |s| > 0 && s[|s| - 1] == '/' then s[..|s| - 1] else s
  }

  /** `extractRepoDetails(repoUrl)`: None when the cleaned URL splits into
      fewer than two segments, which is exactly when it holds no '/';
      otherwise the last two segments (see ExtractIsLastTwoSegments). */
  function ExtractRepoDetails(url: string): (r: Option<RepoRef>)
    ensures r.None? <==> '/' !in StripTrailingSlash(url)
  {
    var clean := StripTrailingSlash(url);
    var parts := Split(clean);
    SplitLength(clean);
    SlashCountZero(clean);
    if |parts| < 2 then None
    else Some(RepoRef(parts[|parts| - 2], parts[|parts| - 1]))
  }

  /** `owner` and `repo` are the last two segments of `s`: neither holds a
      slash, `s` ends with `owner + "/" + repo`, and what comes before that
      tail is empty or ends with '/'. */
  predicate LastTwoSegments(s: string, owner: string, repo: string)
  {
    var k := |s| - |owner| - |repo| - 1;
    && '/' !in owner && '/' !in repo
    && 0 <= k && s[k..] == owner + "/" + repo
    && (k == 0 || s[k - 1] == '/')
  }

  /** A string has no slash exactly when its slash count is zero. */
  lemma {:induction false} SlashCountZero(s: string)
    ensures SlashCount(s) == 0 <==> '/' !in s
  {
    if s != [] {
      SlashCountZero(s[1..]);
      assert s == [s[0]] + s[1..];
    }
  }

  /** Split yields one more segment than there are slashes. */
  lemma {:induction false} SplitLength(s: string)
    ensures |Split(s)| == SlashCount(s) + 1
  {
    if s != [] {
      SplitLength(s[1..]);
    }
  }

  /** No segment Split yields holds a slash. */
  lemma {:induction false} SplitSlashFree(s: string)
    ensures SlashFree(Split(s))
  {
    if s != [] {
      SplitSlashFree(s[1..]);
      var rest := Split(s[1..]);
      if s[0] != '/' {
        var parts := [[s[0]] + rest[0]] + rest[1..];
        forall i | 0 <= i < |parts|
          ensures '/' !in parts[i]
        {
          if i > 0 {
            assert parts[i] == rest[i];
          }
        }
      }
    }
  }

  /** Joining what Split yields gives the string back. */
  lemma {:induction false} JoinSplit(s: string)
    ensures Join(Split(s)) == s
  {
    if s != [] {
      JoinSplit(s[1..]);
      var rest := Split(s[1..]);
      if s[0] == '/' {
        assert ([""] + rest)[1..] == rest;
      } else {
        var parts := [[s[0]] + rest[0]] + rest[1..];
        assert parts[1..] == rest[1..];
        if |rest| > 1 {
          assert Join(rest) == rest[0] + "/" + Join(rest[1..]);
        }
        assert s == [s[0]] + s[1..];
      }
    }
  }

  /** A string without a slash is a single segment. */
  lemma SplitWithoutSlash(s: string)
    requires '/' !in s
    ensures Split(s) == [s]
  {
    SlashCountZero(s);
    SplitLength(s);
    JoinSplit(s);
  }

  /** Splitting at a slash splits each side independently. */
  lemma {:induction false} SplitAtSlash(a: string, b: string)
    ensures Split(a + "/" + b) == Split(a) + Split(b)
  {
    var s := a + "/" + b;
    if a == [] {
      assert s[1..] == b;
    } else {
      assert s[0] == a[0] && s[1..] == a[1..] + "/" + b;
      SplitAtSlash(a[1..], b);
      var rest := Split(a[1..]);
      if a[0] != '/' {
        assert (rest + Split(b))[1..] == rest[1..] + Split(b);
      }
    }
  }

  /** Splitting what Join yields from slash-free segments gives the segments
      back: with JoinSplit, Split and Join are inverse to each other. */
  lemma {:induction false} SplitJoin(parts: seq<string>)
    requires |parts| >= 1 && SlashFree(parts)
    ensures Split(Join(parts)) == parts
  {
    assert '/' !in parts[0];
    SplitWithoutSlash(parts[0]);
    if |parts| > 1 {
      assert SlashFree(parts[1..]) by {
        forall i | 0 <= i < |parts| - 1
          ensures '/' !in parts[1..][i]
        {
          assert parts[1..][i] == parts[i + 1];
        }
      }
      SplitJoin(parts[1..]);
      SplitAtSlash(parts[0], Join(parts[1..]));
    }
  }

  /** Joining one more segment appends a slash and that segment. */
  lemma {:induction false} JoinSnoc(parts: seq<string>)
    requires |parts| >= 2
    ensures Join(parts) == Join(parts[..|parts| - 1]) + "/" + parts[|parts| - 1]
  {
    if |parts| > 2 {
      var n := |parts|;
      JoinSnoc(parts[1..]);
      assert parts[1..][..n - 2] == parts[..n - 1][1..];
      assert parts[1..][n - 2] == parts[n - 1];
    }
  }

  /** A tail `owner + "/" + repo` after an empty front, or after a front
      ending in '/', is the last two segments. */
  lemma TailIsLastTwo(front: string, owner: string, repo: string)
    requires '/' !in owner && '/' !in repo
    requires front == "" || front[|front| - 1] == '/'
    ensures LastTwoSegments(front + owner + "/" + repo, owner, repo)
  {
    var s := front + owner + "/" + repo;
    assert |s| - |owner| - |repo| - 1 == |front|;
    assert s[|front|..] == owner + "/" + repo;
    assert front != "" ==> s[|front| - 1] == front[|front| - 1];
  }

  /** The join of at least two slash-free segments ends with its last two
      segments. */
  lemma LastTwoOfJoin(parts: seq<string>)
    requires |parts| >= 2 && SlashFree(parts)
    ensures LastTwoSegments(Join(parts), parts[|parts| - 2], parts[|parts| - 1])
  {
    var n := |parts|;
    var owner, repo := parts[n - 2], parts[n - 1];
    JoinSnoc(parts);
    var init := parts[..n - 1];
    if n == 2 {
      assert Join(init) == owner;
      assert Join(parts) == "" + owner + "/" + repo;
      TailIsLastTwo("", owner, repo);
    } else {
      JoinSnoc(init);
      var front := Join(init[..n - 2]) + "/";
      assert init[n - 2] == owner;
      assert Join(parts) == front + owner + "/" + repo;
      TailIsLastTwo(front, owner, repo);
    }
  }

  /** Two slash-free segments joined by one slash split back into them. */
  lemma SplitPair(owner: string, repo: string)
    requires '/' !in owner && '/' !in repo
    ensures Split(owner + "/" + repo) == [owner, repo]
  {
    SplitWithoutSlash(owner);
    SplitWithoutSlash(repo);
    SplitAtSlash(owner, repo);
  }

  /** A string whose last two segments are `owner` and `repo` splits into
      segments ending with those two. */
  lemma SplitEndsWith(s: string, owner: string, repo: string)
    requires LastTwoSegments(s, owner, repo)
    ensures var parts := Split(s);
      |parts| >= 2 && parts[|parts| - 2] == owner && parts[|parts| - 1] == repo
  {
    var k := |s| - |owner| - |repo| - 1;
    var tail := owner + "/" + repo;
    SplitPair(owner, repo);
    if k == 0 {
      assert s == tail by {
        assert s == s[k..];
      }
    } else {
      var front := s[..k - 1];
      assert s == front + "/" + tail by {
        assert s == s[..k - 1] + [s[k - 1]] + s[k..];
      }
      assert Split(s) == Split(front) + [owner, repo] by {
        SplitAtSlash(front, tail);
      }
    }
  }

  /** The parser's result is exactly the last two segments of the cleaned
      URL: it returns `RepoRef(owner, repo)` if and only if `owner` and
      `repo` are the last two '/'-separated segments. */
  lemma ExtractIsLastTwoSegments(url: string, owner: string, repo: string)
    ensures ExtractRepoDetails(url) == Some(RepoRef(owner, repo))
        <==> LastTwoSegments(StripTrailingSlash(url), owner, repo)
  {
    var clean := StripTrailingSlash(url);
    if LastTwoSegments(clean, owner, repo) {
      SplitEndsWith(clean, owner, repo);
    }
    if ExtractRepoDetails(url) == Some(RepoRef(owner, repo)) {
      JoinSplit(clean);
      SplitSlashFree(clean);
      LastTwoOfJoin(Split(clean));
    }
  }

  /** When the input has no trailing slash, adding one changes nothing:
      "a/b/" and "a/b" parse identically. */
  lemma ExtractIgnoresOneTrailingSlash(s: string)
    requires |s| == 0 || s[|s| - 1] != '/'
    ensures ExtractRepoDetails(s + "/") == ExtractRepoDetails(s)
  {
    assert StripTrailingSlash(s + "/") == StripTrailingSlash(s) by {
      assert (s + "/")[..|s|] == s;
    }
  }

  /** Only one trailing slash is removed: after a second one the repository
      name is the empty last segment and the owner is what was last. */
  lemma ExtractKeepsSecondTrailingSlash(s: string)
    ensures var parts := Split(s);
      ExtractRepoDetails(s + "//") == Some(RepoRef(parts[|parts| - 1], ""))
  {
    var parts := Split(s);
    var clean := s + "/" + "";
    assert StripTrailingSlash(s + "//") == clean by {
      assert clean + "/" == s + "//";
    }
    assert Split(clean) == parts + [""] by {
      SplitAtSlash(s, "");
    }
    var split := parts + [""];
    assert split[|split| - 2] == parts[|parts| - 1];
  }

  /** Whatever precedes them, a protocol and host or nothing at all, the
      trailing owner and a non-empty repository name are what the parser
      returns, with or without one trailing slash. */
  lemma ExtractAfterAnyPrefix(prefix: string, owner: string, repo: string)
    requires '/' !in owner && '/' !in repo && repo != ""
    ensures ExtractRepoDetails(prefix + "/" + owner + "/" + repo) == Some(RepoRef(owner, repo))
    ensures ExtractRepoDetails(prefix + "/" + owner + "/" + repo + "/") == Some(RepoRef(owner, repo))
  {
    var front := prefix + "/";
    var s := front + owner + "/" + repo;
    assert s == prefix + "/" + owner + "/" + repo;
    assert s[|s| - 1] == repo[|repo| - 1];
    assert StripTrailingSlash(s) == s;
    TailIsLastTwo(front, owner, repo);
    ExtractIsLastTwoSegments(s, owner, repo);
    ExtractIgnoresOneTrailingSlash(s);
  }

  /** Inputs with no slash left after stripping one trailing slash fail. */
  lemma ExtractRejectsSingleSegment()
    ensures ExtractRepoDetails("") == None
    ensures ExtractRepoDetails("/") == None
    ensures ExtractRepoDetails("abc") == None
    ensures ExtractRepoDetails("abc/") == None
  {
    assert StripTrailingSlash("/") == "" by {
      assert "/"[..0] == "";
    }
    assert '/' !in StripTrailingSlash("abc") by {
      assert StripTrailingSlash("abc") == "abc";
    }
    assert '/' !in StripTrailingSlash("abc/") by {
      assert "abc/"[..3] == "abc";
    }
  }

  /** "a/b/" and "a/b" parse identically. */
  lemma ExtractTrailingSlashExample()
    ensures ExtractRepoDetails("a/b/") == ExtractRepoDetails("a/b") == Some(RepoRef("a", "b"))
  {
    assert ExtractRepoDetails("a/b") == Some(RepoRef("a", "b")) by {
      assert LastTwoSegments(StripTrailingSlash("a/b"), "a", "b") by {
        assert StripTrailingSlash("a/b") == "a/b";
      }
      ExtractIsLastTwoSegments("a/b", "a", "b");
    }
    assert ExtractRepoDetails("a/b/") == ExtractRepoDetails("a/b") by {
      assert "a/b/" == "a/b" + "/";
      ExtractIgnoresOneTrailingSlash("a/b");
    }
  }

  /** "a/b//" keeps the second slash: owner "b", empty repo. */
  lemma ExtractDoubleSlashExample()
    ensures ExtractRepoDetails("a/b//") == Some(RepoRef("b", ""))
  {
    assert LastTwoSegments(StripTrailingSlash("a/b//"), "b", "") by {
      assert StripTrailingSlash("a/b//") == "a/b/";
    }
    ExtractIsLastTwoSegments("a/b//", "b", "");
  }

  /** "/a" has an empty owner. */
  lemma ExtractLeadingSlashExample()
    ensures ExtractRepoDetails("/a") == Some(RepoRef("", "a"))
  {
    assert LastTwoSegments(StripTrailingSlash("/a"), "", "a") by {
      assert StripTrailingSlash("/a") == "/a";
    }
    ExtractIsLastTwoSegments("/a", "", "a");
  }

  /** The input's initial value, written as host, owner and repository. */
  const DefaultUrl: string := "https://github.com" + "/" + "s-mahali" + "/" + "Echoletter"

  /** The page's initial URL yields its owner and repository. */
  lemma ExtractDefaultUrl()
    ensures ExtractRepoDetails(DefaultUrl) == Some(RepoRef("s-mahali", "Echoletter"))
  {
    ExtractAfterAnyPrefix("https://github.com", "s-mahali", "Echoletter");
  }
}
