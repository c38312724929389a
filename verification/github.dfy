/** The GitHub client of `github.py`: three GET requests whose replies are
    classified into a result. The network is a parameter: each function takes
    the reply the request got, already decoded from JSON. */
module GitHub {
  import opened Wrappers
  import opened Text

  /** A status code other than 200. */
  type NotOkStatus = c: int | c != 200 witness 404

  /** What a request came back with: a 200 reply and its decoded body, a reply
      with another status, or an exception from `requests` (connection
      refused, DNS failure, timeout, ...). */
  datatype Response<T> = Ok(body: T) | Status(code: NotOkStatus) | TransportError

  /** The fields of a repository the application reads; `createdAt` is
      `None` when the object has no `created_at` key. */
  datatype Repo = Repo(name: string, htmlUrl: string, createdAt: Option<string>)

  datatype Commit = Commit(sha: string, message: string, authorName: string)

  datatype Profile = Profile(login: string, name: Option<string>, bio: Option<string>,
                             avatarUrl: string, publicRepos: nat)

  // ---------------------------------------------------------------------------
  // Ordering of repositories

  /** The sort key: `repo.get('created_at', '')`. */
  function CreatedKey(r: Repo): string {
    r.createdAt.GetOr("")
  }

  /** No repository is followed by one created later. */
  predicate NewestFirst(s: seq<Repo>) {
    forall i, j :: 0 <= i < j < |s| ==> !StrLess(CreatedKey(s[i]), CreatedKey(s[j]))
  }

  /** The repositories of `s` whose sort key is `k`, in their order in `s`. */
  function WithKey(s: seq<Repo>, k: string): seq<Repo> {
    if |s| == 0 then []
    else (if CreatedKey(s[0]) == k then [s[0]] else []) + WithKey(s[1..], k)
  }

  /** Places `x` before the first repository not newer than it. */
  function InsertNewestFirst(x: Repo, t: seq<Repo>): seq<Repo> {
    if |t| == 0 then [x]
    else if StrLess(CreatedKey(x), CreatedKey(t[0])) then [t[0]] + InsertNewestFirst(x, t[1..])
    else [x] + t
  }

  lemma {:induction false} InsertMultiset(x: Repo, t: seq<Repo>)
    ensures multiset(InsertNewestFirst(x, t)) == multiset(t) + multiset{x}
  {
    if |t| > 0 && StrLess(CreatedKey(x), CreatedKey(t[0])) {
      InsertMultiset(x, t[1..]);
      assert t == [t[0]] + t[1..];
    }
  }

  lemma {:induction false} WithKeyConcat(a: seq<Repo>, b: seq<Repo>, k: string)
    ensures WithKey(a + b, k) == WithKey(a, k) + WithKey(b, k)
  {
    if |a| > 0 {
      assert (a + b)[0] == a[0] && (a + b)[1..] == a[1..] + b;
      WithKeyConcat(a[1..], b, k);
    } else {
      assert a + b == b;
    }
  }

  /** Inserting `x` puts it ahead of every repository with the same key. */
  lemma {:induction false} InsertWithKey(x: Repo, t: seq<Repo>, k: string)
    ensures WithKey(InsertNewestFirst(x, t), k) == (if CreatedKey(x) == k then [x] else []) + WithKey(t, k)
  {
    if |t| > 0 && StrLess(CreatedKey(x), CreatedKey(t[0])) {
      InsertWithKey(x, t[1..], k);
      StrLessIrreflexive(CreatedKey(x));
      WithKeyConcat([t[0]], InsertNewestFirst(x, t[1..]), k);
      assert t == [t[0]] + t[1..];
      WithKeyConcat([t[0]], t[1..], k);
    } else if |t| > 0 {
      WithKeyConcat([x], t, k);
    }
  }

  lemma {:induction false} InsertSorted(x: Repo, t: seq<Repo>)
    requires NewestFirst(t)
    ensures NewestFirst(InsertNewestFirst(x, t))
  {
    if |t| == 0 {
    } else if StrLess(CreatedKey(x), CreatedKey(t[0])) {
      InsertSorted(x, t[1..]);
      InsertMultiset(x, t[1..]);
      HeadBeforeInserted(x, t, InsertNewestFirst(x, t[1..]));
    } else {
      InsertedAtFront(x, t);
    }
  }

  /** `[t[0]] + rest` is newest first when `rest` is and holds only `x` and
      the tail of `t`, with `x` older than `t[0]`. */
  lemma HeadBeforeInserted(x: Repo, t: seq<Repo>, rest: seq<Repo>)
    requires |t| > 0 && NewestFirst(t) && NewestFirst(rest)
    requires StrLess(CreatedKey(x), CreatedKey(t[0]))
    requires multiset(rest) == multiset(t[1..]) + multiset{x}
    ensures NewestFirst([t[0]] + rest)
  {
    StrLessAsymmetric(CreatedKey(x), CreatedKey(t[0]));
    forall y | y in rest
      ensures !StrLess(CreatedKey(t[0]), CreatedKey(y))
    {
      assert y in multiset(rest);
      if y != x {
        assert y in multiset(t[1..]);
        var j :| 0 <= j < |t[1..]| && t[1..][j] == y;
        assert t[j + 1] == y;
      }
    }
    var r := [t[0]] + rest;
    forall i, j | 0 <= i < j < |r|
      ensures !StrLess(CreatedKey(r[i]), CreatedKey(r[j]))
    {
      if i == 0 {
        assert r[j] == rest[j - 1];
        assert r[j] in rest;
      } else {
        assert r[i] == rest[i - 1] && r[j] == rest[j - 1];
      }
    }
  }

  /** `[x] + t` is newest first when `t` is and `x` is not older than `t[0]`. */
  lemma InsertedAtFront(x: Repo, t: seq<Repo>)
    requires |t| > 0 && NewestFirst(t)
    requires !StrLess(CreatedKey(x), CreatedKey(t[0]))
    ensures NewestFirst([x] + t)
  {
    var r := [x] + t;
    forall i, j | 0 <= i < j < |r|
      ensures !StrLess(CreatedKey(r[i]), CreatedKey(r[j]))
    {
      if i == 0 {
        if j > 1 {
          StrNotLessTransitive(CreatedKey(x), CreatedKey(t[0]), CreatedKey(t[j - 1]));
        }
      } else {
        assert r[i] == t[i - 1] && r[j] == t[j - 1];
      }
    }
  }

  /** `repos.sort(key=lambda repo: repo.get('created_at', ''), reverse=True)`:
      newest first; Python's sort is stable, also with `reverse=True`, so
      repositories with equal keys keep their order. */
  function SortNewestFirst(s: seq<Repo>): (r: seq<Repo>)
    ensures NewestFirst(r)
    ensures multiset(r) == multiset(s)
    ensures forall k :: WithKey(r, k) == WithKey(s, k)
  {
    if |s| == 0 then []
    else
      var rest := SortNewestFirst(s[1..]);
      InsertSorted(s[0], rest);
      InsertMultiset(s[0], rest);
      assert s == [s[0]] + s[1..];
      assert forall k :: WithKey(InsertNewestFirst(s[0], rest), k) == WithKey(s, k) by {
        forall k ensures WithKey(InsertNewestFirst(s[0], rest), k) == WithKey(s, k) {
          InsertWithKey(s[0], rest, k);
        }
      }
      InsertNewestFirst(s[0], rest)
  }

  /** A repository without `created_at` sorts as `''`, which is below every
      non-empty timestamp, so it comes after every dated repository. */
  lemma UndatedAfterDated(s: seq<Repo>, i: int, j: int)
    requires 0 <= i < |s| && 0 <= j < |s|
    requires var r := SortNewestFirst(s); r[i].createdAt.None? && r[j].createdAt.Some? && r[j].createdAt.value != ""
    ensures j < i
  {
    var r := SortNewestFirst(s);
    assert |r| == |s| by {
      assert |multiset(r)| == |multiset(s)|;
    }
    assert StrLess(CreatedKey(r[i]), CreatedKey(r[j]));
  }

  // ---------------------------------------------------------------------------
  // Classification of replies

  /** `get_user_repos`: the repositories newest first on 200, `[]` on 404 or
      any other status, `None` when the request itself failed. */
  function GetUserRepos(resp: Response<seq<Repo>>): (r: Option<seq<Repo>>)
    ensures r.None? <==> resp.TransportError?
    ensures resp.Status? ==> r == Some([])
    ensures resp.Ok? ==> && r.Some?
                         && NewestFirst(r.value)
                         && multiset(r.value) == multiset(resp.body)
                         && forall k :: WithKey(r.value, k) == WithKey(resp.body, k)
  {
    match resp
    case Ok(body) => Some(SortNewestFirst(body))
    case Status(_) => Some([])
    case TransportError => None
  }

  /** `get_repo_commits`: the commits as GitHub listed them on 200, `[]` on
      404 or any other status, `None` when the request itself failed. */
  function GetRepoCommits(resp: Response<seq<Commit>>): (r: Option<seq<Commit>>)
    ensures r.None? <==> resp.TransportError?
    ensures resp.Status? ==> r == Some([])
    ensures resp.Ok? ==> r == Some(resp.body)
  {
    match resp
    case Ok(body) => Some(body)
    case Status(_) => Some([])
    case TransportError => None
  }

  /** `get_user_info`: the profile on 200, and `None` for 404, for any other
      status and for a failed request alike. */
  function GetUserInfo(resp: Response<Profile>): (r: Option<Profile>)
    ensures r.Some? <==> resp.Ok?
    ensures resp.Ok? ==> r.value == resp.body
  {
    match resp
    case Ok(body) => Some(body)
    case _ => None
  }

  /** For repositories and commits, "not found" and "unreachable" stay apart;
      for the profile they collapse into one answer. */
  lemma NotFoundVersusUnreachable()
    ensures GetUserRepos(Status(404)) != GetUserRepos(TransportError)
    ensures GetRepoCommits(Status(404)) != GetRepoCommits(TransportError)
    ensures GetUserInfo(Status(404)) == GetUserInfo(TransportError)
  {
  }
}
