/** The decisions of the request handlers in `api/index.py`. Routing,
    templates, flash texts and redirects are not modelled; each handler is a
    function of the request, the session's `user_id`, the store and (for the
    index page) the replies GitHub would give, returning what the page shows
    and, for a write, the store after it. */
module Handlers {
  import opened Wrappers
  import opened Text
  import opened Store
  import opened GitHub
  import opened Auth

  datatype Method = Get | Post

  /** The inputs `index` reads. For a POST they are the form fields
      `username` and `repo`; for a GET, the query parameters. `None` when
      absent. */
  datatype IndexRequest = IndexRequest(verb: Method, username: Option<string>, repo: Option<string>)

  /** The username `index` works with: a form field as given, or a query
      parameter stripped of whitespace; absent is the same as empty. */
  function RequestedUser(req: IndexRequest): string {
    match req.verb
    case Post => req.username.GetOr("")
    case Get => Strip(req.username.GetOr(""))
  }

  /** The repository name: a form field as given, or a query parameter
      stripped of whitespace when present. */
  function RequestedRepo(req: IndexRequest): Option<string> {
    match req.verb
    case Post => req.repo
    case Get => if req.repo.Some? then Some(Strip(req.repo.value)) else None
  }

  /** The replies GitHub would give to the requests `index` may make. */
  datatype GitHubReplies = GitHubReplies(profile: Response<Profile>, repos: Response<seq<Repo>>,
                                         commits: Response<seq<Commit>>)

  /** A request made to GitHub. */
  datatype Call = UserInfoCall(username: string) | UserReposCall(user: string)
                | RepoCommitsCall(owner: string, repo: string)

  /** The values `index` hands to its template, and the requests it made. */
  datatype IndexPage = IndexPage(userInfo: Option<Profile>, repos: Option<seq<Repo>>,
                                 commits: Option<seq<Commit>>, selectedRepo: Option<string>,
                                 error: Option<string>, isFavorited: bool, calls: seq<Call>)

  const UserNotFoundError: string := "Usuário não encontrado!"
  const MissingUsernameError: string := "Por favor, informe um nome de usuário."

  predicate FetchedRepos(calls: seq<Call>) {
    exists c :: c in calls && c.UserReposCall?
  }

  predicate FetchedCommits(calls: seq<Call>) {
    exists c :: c in calls && c.RepoCommitsCall?
  }

  /** Whether a lookup of `username` found a profile. */
  predicate Found(req: IndexRequest, replies: GitHubReplies) {
    RequestedUser(req) != "" && replies.profile.Ok?
  }

  /** `index`: look the user up; only if found, fetch the repositories, and
      the commits too when a non-empty repository name is given; report a
      missing user or a POST without a username; show the heart when the
      found profile's login is a favorite of the logged-in user. */
  function Index(req: IndexRequest, session: Session, db: Db, replies: GitHubReplies): (p: IndexPage)
    ensures p.calls == [] <==> RequestedUser(req) == ""
    ensures forall c :: c in p.calls ==> c == UserInfoCall(RequestedUser(req))
                                         || c == UserReposCall(RequestedUser(req))
                                         || (c.RepoCommitsCall? && c.owner == RequestedUser(req)
                                             && RequestedRepo(req) == Some(c.repo))
    ensures FetchedRepos(p.calls) <==> Found(req, replies)
    ensures FetchedCommits(p.calls) <==>
              Found(req, replies) && RequestedRepo(req).Some? && RequestedRepo(req).value != ""
    ensures p.userInfo.Some? <==> Found(req, replies)
    ensures p.userInfo.Some? ==> p.userInfo.value == replies.profile.body
    ensures p.selectedRepo == if Found(req, replies) then RequestedRepo(req) else None
    ensures p.repos == if Found(req, replies) then GetUserRepos(replies.repos) else Some([])
    ensures p.commits == if FetchedCommits(p.calls) then GetRepoCommits(replies.commits) else Some([])
    ensures p.error == Some(UserNotFoundError) <==> RequestedUser(req) != "" && !replies.profile.Ok?
    ensures p.error == Some(MissingUsernameError) <==> RequestedUser(req) == "" && req.verb == Post
    ensures p.error.None? <==> Found(req, replies) || (RequestedUser(req) == "" && req.verb == Get)
    ensures p.isFavorited <==> && Found(req, replies) && session.Some?
                               && IsFavorited(db, session.value, replies.profile.body.login)
  {
    var username := RequestedUser(req);
    var repoName := RequestedRepo(req);
    if username != "" then
      var info := GetUserInfo(replies.profile);
      if info.Some? then
        var repos := GetUserRepos(replies.repos);
        var favorited := session.Some? && IsFavorited(db, session.value, info.value.login);
        if repoName.Some? && repoName.value != "" then
          var calls := [UserInfoCall(username), UserReposCall(username), RepoCommitsCall(username, repoName.value)];
          assert calls[1].UserReposCall? && calls[2].RepoCommitsCall?;
          IndexPage(info, repos, GetRepoCommits(replies.commits), repoName, None, favorited, calls)
        else
          var calls := [UserInfoCall(username), UserReposCall(username)];
          assert calls[1].UserReposCall?;
          IndexPage(info, repos, Some([]), repoName, None, favorited, calls)
      else
        IndexPage(None, Some([]), Some([]), None, Some(UserNotFoundError), false, [UserInfoCall(username)])
    else
      var error := if req.verb == Post then Some(MissingUsernameError) else None;
      IndexPage(None, Some([]), Some([]), None, error, false, [])
  }

  /** The page reads the store only to decide the heart, so two stores that
      agree on that pair give the same page. */
  lemma IndexReadsOnlyThePair(req: IndexRequest, session: Session, db1: Db, db2: Db, replies: GitHubReplies)
    requires Found(req, replies) && session.Some? ==>
               (IsFavorited(db1, session.value, replies.profile.body.login)
                <==> IsFavorited(db2, session.value, replies.profile.body.login))
    ensures Index(req, session, db1, replies) == Index(req, session, db2, replies)
  {
  }

  // ---------------------------------------------------------------------------
  // favorite_github_user

  datatype ToggleOutcome = LoginRequired | Removed | Added

  datatype ToggleResult = ToggleResult(db: Db, outcome: ToggleOutcome)

  /** `favorite_github_user`: without a session nothing changes; with one the
      pair is removed when present and added when absent. No other pair and
      no user row is touched. */
  function FavoriteToggle(db: Db, session: Session, githubUsername: string): (r: ToggleResult)
    ensures session.None? ==> r == ToggleResult(db, LoginRequired)
    ensures session.Some? ==>
              (IsFavorited(r.db, session.value, githubUsername) <==> !IsFavorited(db, session.value, githubUsername))
    ensures r.outcome == Removed <==> session.Some? && IsFavorited(db, session.value, githubUsername)
    ensures r.outcome == Added <==> session.Some? && !IsFavorited(db, session.value, githubUsername)
    ensures r.db.users == db.users && r.db.schema == db.schema
    ensures forall f :: (session.None? || f != Favorite(session.value, githubUsername)) ==>
              (f in r.db.favorites <==> f in db.favorites)
  {
    match session
    case None => ToggleResult(db, LoginRequired)
    case Some(userId) =>
      if IsFavorited(db, userId, githubUsername) then
        ToggleResult(RemoveFavorite(db, userId, githubUsername), Removed)
      else
        ToggleResult(AddFavorite(db, userId, githubUsername), Added)
  }

  /** Toggling the same name twice restores which pairs are favorites; when
      the name was not a favorite it restores the store exactly. */
  lemma ToggleTwice(db: Db, session: Session, githubUsername: string)
    ensures var twice := FavoriteToggle(FavoriteToggle(db, session, githubUsername).db, session, githubUsername).db;
            && (forall f :: f in twice.favorites <==> f in db.favorites)
            && twice.users == db.users
            && (session.None? || !IsFavorited(db, session.value, githubUsername) ==> twice == db)
  {
    if session.Some? && !IsFavorited(db, session.value, githubUsername) {
      var f := Favorite(session.value, githubUsername);
      var once := FavoriteToggle(db, session, githubUsername).db;
      assert once.favorites == db.favorites + [f];
      DeleteAppended(db.favorites, f);
      DeleteAbsent(db.favorites, f);
    }
  }

  /** The toggle never creates a second row for a pair, whatever the schema. */
  lemma ToggleKeepsFavoritesUnique(db: Db, session: Session, githubUsername: string)
    requires FavoritesUnique(db)
    ensures FavoritesUnique(FavoriteToggle(db, session, githubUsername).db)
  {
    if session.Some? && !IsFavorited(db, session.value, githubUsername) {
      assert multiset(db.favorites)[Favorite(session.value, githubUsername)] == 0;
    }
    if session.Some? && IsFavorited(db, session.value, githubUsername) {
      FavoritesStayUnique(db, session.value, githubUsername);
    }
  }

  // ---------------------------------------------------------------------------
  // favoritos

  datatype FavoritesPage = LoginRedirect | FavoritesList(usernames: seq<string>)

  /** `favoritos`: without a session, a redirect that does not consult the
      store; with one, the names the user has favorited. */
  function Favoritos(db: Db, session: Session): (r: FavoritesPage)
    ensures session.None? ==> r == LoginRedirect
    ensures session.Some? ==> r.FavoritesList?
                              && forall g :: g in r.usernames <==> IsFavorited(db, session.value, g)
    ensures session.Some? ==> r.usernames == ListFavorites(db, session.value)
  {
    match session
    case None => LoginRedirect
    case Some(userId) => FavoritesList(ListFavorites(db, userId))
  }

  /** Logged out, the favorites page is the same whatever the store holds. */
  lemma FavoritosLoggedOutIgnoresStore(db1: Db, db2: Db)
    ensures Favoritos(db1, None) == Favoritos(db2, None)
  {
  }
}
