# GitHub profile browser with favorites — a verified model

This project models the logic of a small Flask application. The application looks up a GitHub user, lists their public repositories (newest first) and the commits of a chosen repository, and shows their recent public events. It also lets a local account keep a list of favorited GitHub usernames. The model keeps what the code decides and leaves out how it talks to the outside world:

- **Store** (`models.py`) holds both tables as immutable values: the `users` rows and the `user_github_favorites` rows, each in row order. Lookups return the first matching row. `create_user` inserts without checking the email. `INSERT OR IGNORE` skips an existing pair only when the schema declares the pair UNIQUE. The schema is not visible in the code, so it is the `Schema.uniqueFavorite` flag. `DELETE` removes every row equal to the pair. `is_github_user_favorited` (models.py:60-70) is the predicate `Store.IsFavorited`: some row holds the pair. Lookups return no store, so they cannot change it.
- **GitHub** (`github.py`) models each request by the reply it got: `Ok(body)`, `Status(code)` with a code other than 200, or `TransportError`. The stable newest-first sort of repositories uses Python's string order on `created_at` (a missing key counts as `''`).
- **Timestamp** and **Activity** (`github_activity.py`) turn events into display records. `Timestamp` models what `datetime.strptime(s, "%Y-%m-%dT%H:%M:%SZ")` accepts, including its leniency, and what `strftime("%d/%m/%Y %H:%M:%S")` prints.
- **Handlers** (`api/index.py`) and **Auth** (`auth.py`) model each handler as a function of the request, the session's `user_id` (`Option<UserId>`), the store and the GitHub replies. Each returns what the page shows and, for a write, the store or session after it. `Handlers.RequestedUser` and `Handlers.RequestedRepo` are the request parsing of `index` (api/index.py:20-25): a POST takes the form fields as given, and a GET strips the query parameters, with a missing `repo` staying absent.
- **Text** supplies the runtime pieces these use: `str(int)`, zero padding, ASCII `capitalize`, Python's whitespace set and `strip`, and code-point string comparison.

Two behaviours of the code worth noting:

- `get_user_info` returns `None` both for a 404 and for an unreachable GitHub, so "not found" and "unreachable" collapse for profiles. They stay distinct for repositories and commits (`[]` against `None`).
- `create_user` does not refuse a duplicate email. Only `register` checks, before inserting.

## Model

| member | source | states |
|---|---|---|
| Store.FindUserByEmail | models.py:10-16 | none exactly when no row has the email; otherwise the first row, in row order, whose email it is |
| Store.FindUserById | models.py:18-24 | none exactly when no row has the id; otherwise the first row with that id |
| Store.NextUserId | models.py:29-32 | the id a new row gets is greater than every stored id: one more than the largest, or 1 for an empty table |
| Store.CreateUser | models.py:26-34 | adds exactly one row at the end with the given name, email and hash and a fresh id; earlier rows and the favorites are unchanged; no email check |
| Store.CreateUserLookups | models.py:10-34 | after create_user the new row is found by its id; by its email only if no older row has that email, otherwise the older row is still found |
| Store.FirstMatchAppend | models.py:10-16 | appending a row never changes a successful email lookup, and makes a failed one find the appended row when it matches |
| Store.DeleteRows | models.py:53-56 | the DELETE leaves every row except the copies of the pair, each as often as before |
| Store.AddFavorite | models.py:38-47 | afterwards the pair is a favorite; no other pair and no user changes; with a UNIQUE pair an existing favorite leaves the store unchanged, otherwise exactly one row is added |
| Store.RemoveFavorite | models.py:49-58 | afterwards the pair is not a favorite, every copy is gone, and every other row stays with its multiplicity; users unchanged |
| Store.ListFavorites | models.py:72-82 | a name is listed exactly when it is paired with the user, as many times as such rows exist; names paired only with other users never appear |
| Store.FavoritesStayUnique | models.py:43 | with the pair declared UNIQUE, adding keeps every pair in at most one row; removing always does |
| Store.ListedOnce | models.py:72-82 | when pairs are unique, no name is listed twice for a user |
| Store.AddTwiceRemoveOnce | models.py:38-58 | add, add, remove leaves the pair absent whatever the schema: no reference counting |
| Store.AddIdempotent | models.py:43 | with the pair declared UNIQUE, adding twice is adding once |
| Store.FavoriteTwiceThenList | models.py:38-82 | for a user with no favorites, favoriting a name twice lists it once with a UNIQUE pair and twice without one |
| GitHub.SortNewestFirst | github.py:20-22 | the result is newest first by created_at, a permutation of the input, and repositories with equal keys keep their input order |
| GitHub.UndatedAfterDated | github.py:21 | after sorting, a repository without created_at comes after every repository with a non-empty created_at |
| GitHub.GetUserRepos | github.py:17-31 | 200 gives the sorted permutation of the body; 404 or any other status gives []; only a transport failure gives None |
| GitHub.GetRepoCommits | github.py:48-59 | 200 gives the body unchanged and unreordered; 404 or any other status gives []; only a transport failure gives None |
| GitHub.GetUserInfo | github.py:75-86 | a profile exactly on 200, and then the body; None for 404, other statuses and transport failure alike |
| GitHub.NotFoundVersusUnreachable | github.py:23-84 | 404 and a transport failure are told apart by the repository and commit lookups but not by the profile lookup |
| Text.Strip | api/index.py:24-25 | the result is empty exactly for an all-whitespace string; it is the slice that starts right after the longest whitespace prefix and is followed only by whitespace, and it neither starts nor ends with whitespace |
| Text.StripIdempotent | api/index.py:24 | stripping twice is stripping once |
| Text.NatToDecimal | github_activity.py:57 | the decimal text of a count is non-empty and all digits, starts with '0' only when it is exactly "0", and reads back as the count |
| Text.Capitalize | github_activity.py:60 | same length; the first character upper-cased, every later one lower-cased |
| Text.CapitalizeIdempotent | github_activity.py:60 | capitalizing twice is capitalizing once |
| Timestamp.ParseIso | github_activity.py:47 | whatever strptime accepts is a valid calendar date-time: year 1 to 9999, a day of its month, no leap second |
| Timestamp.ParseIsoText | github_activity.py:47 | a fixed-width YYYY-MM-DDTHH:MM:SSZ text with any two-digit fields parses exactly when its fields form a valid date-time, and then to those fields |
| Timestamp.ParseIsoRoundTrip | github_activity.py:47 | every valid date-time written in GitHub's canonical form parses back to itself |
| Timestamp.BrFormat | github_activity.py:48 | the output is 19 characters DD/MM/YYYY HH:MM:SS, and each field reads back from its position as the date-time's value |
| Timestamp.BrFormatInjective | github_activity.py:48 | two different date-times never print alike |
| Timestamp.DisplayTime | github_activity.py:44-52 | a missing or empty created_at gives "Data desconhecida"; a parseable one gives its reformatting; any other is kept verbatim |
| Timestamp.DisplayCanonical | github_activity.py:44-48 | a canonical timestamp of a valid date-time is shown as DD/MM/YYYY HH:MM:SS |
| Timestamp.DisplayInvalidVerbatim | github_activity.py:46-50 | a fixed-width timestamp of an impossible date-time (30 February, second 60, year 0, month 13, hour 24, day 00) is shown as it came |
| Activity.Describe | github_activity.py:54-64 | every description, whatever the event type, ends with the repository name |
| Activity.FormatEvent | github_activity.py:42-71 | the record carries the event type (default "Evento"), the repository (default "repositório desconhecido"), the displayed time, and a description ending with the repository |
| Activity.PushDescription | github_activity.py:55-57 | a push reads "Pushed N commits to R", where N is the shortest decimal form (non-empty, no leading zero) of the length of payload.commits (0 when missing) |
| Activity.IssuesDescription | github_activity.py:58-60 | an issue event reads capitalized action + " uma issue em " + R, with no lower-case first letter and no upper-case letter after it |
| Activity.IssuesLowerCaseAction | github_activity.py:58-60 | for a lower-case action such as "opened" only the first letter is raised |
| Activity.OtherDescriptions | github_activity.py:61-64 | a star event reads "Starred R"; an event of any other type T reads "T em R" |
| Activity.EmptyEventDefaults | github_activity.py:42-64 | an event with no keys gives "Evento", "repositório desconhecido", "Data desconhecida" and "Evento em repositório desconhecido" |
| Activity.FormatEvents | github_activity.py:40-72 | the loop yields exactly one record per event, the i-th record being the formatting of the i-th event |
| Activity.GetGithubActivity | github_activity.py:30-78 | one record per event in input order; [] for a blank or falsy body; UserNotFound exactly for HTTP 404; an API error for other HTTP errors; a generic error for any other failure, a non-200 status included |
| Activity.NotFoundMessageIsDistinct | github_activity.py:73-78 | no error other than the 404 one carries the message "Usuário não encontrado." |
| Handlers.Index | api/index.py:10-52 | GitHub is asked nothing without a username; repositories are fetched exactly when the profile is found, and commits exactly when a non-empty repository name is given as well; "Usuário não encontrado!" exactly when a non-empty username is not found; the username prompt exactly for a POST without one; the heart exactly when found, logged in and the login is a favorite |
| Handlers.IndexReadsOnlyThePair | api/index.py:40-42 | the page depends on the store only through whether the found login is the user's favorite |
| Handlers.FavoriteToggle | api/index.py:54-66 | without a session nothing changes; with one, membership of the pair flips (present to absent, absent to present); no other pair and no user row changes |
| Handlers.ToggleTwice | api/index.py:59-65 | toggling twice restores the set of favorite pairs and the users; if the name was not a favorite, it restores the store exactly |
| Handlers.ToggleKeepsFavoritesUnique | api/index.py:60-65 | the toggle never creates a second row for a pair, whatever the schema declares |
| Handlers.Favoritos | api/index.py:68-75 | without a session, the login redirect; with one, exactly the names the user has favorited |
| Handlers.FavoritosLoggedOutIgnoresStore | api/index.py:70-72 | logged out, the answer is the same for every store |
| Auth.Register | auth.py:19-34 | a GET changes nothing; a POST with a stored email is refused and changes nothing; a POST with a fresh email registers, and exactly one user is appended with the given name and email and the hash of the password as its credential; favorites unchanged |
| Auth.RegisterKeepsEmailsUnique | auth.py:25-31 | if emails are unique before register, they are unique after it |
| Auth.Login | auth.py:7-17 | a GET leaves the session alone; a POST logs in exactly when the first user with that email exists and the password checks against its stored hash, and then the session holds that user's id; otherwise the session is unchanged |
| Auth.Logout | auth.py:36-39 | afterwards the session carries no user_id |
| Auth.LogoutIdempotent | auth.py:38 | logging out twice is logging out once; a logged-out session is left as it is |
| Auth.RegisterThenLogin | auth.py:12-31 | after registering a new email, logging in with the same password succeeds and the session holds the new user's id, given that the hash checks against its own password |
| Auth.SecondRegistrationRefused | auth.py:25-28 | a second registration with a taken email is refused, the store is unchanged, and the email still finds the first account's name |

## Left out

- HTTP itself: `requests.get`, `urllib.request.urlopen`, headers, timeouts, the unverified SSL context, `per_page`, and JSON decoding. Every reply is a parameter that is already decoded.
- GitHub.GetUserRepos: a 200 reply whose body is not valid JSON is not modelled. In current `requests` that error is a `RequestException` and gives `None`. For a 200 body that is not a list, `repos.sort` raises an error that neither `except` clause catches, so it escapes the function. The body is typed as a list of repositories.
- GitHub.SortNewestFirst: a `created_at` that is present but JSON `null` would make Python's comparison raise. The model only has present strings or a missing key.
- SQLite: connections, commits, and the table definitions, which the code does not show. A UNIQUE constraint on `email` is not modelled. If the schema declared one, `create_user` would raise on a duplicate instead of inserting.
- Store.NextUserId: a new user gets the largest id plus one (SQLite's rowid rule). `AUTOINCREMENT` could give a larger id. Only freshness is used elsewhere.
- Store.FindUserByEmail: "first match" assumes rows come back in row order. SQLite may instead return rows in the order of an index.
- Store.ListFavorites: the same row-order assumption applies to the listing.
- Flask: routing, `render_template`, flash texts, redirects, URL building, `secret_key`, and the Vercel `handler` (api/index.py:78-79).
- Form parsing: a missing `email`, `password` or `name` field makes `request.form[...]` answer 400. The model's form requests always carry these fields.
- Auth.Register: werkzeug's `generate_password_hash` is the parameter `hash(salt, password)`, with the random salt as a further parameter. The contract says the stored credential is that hash, not that it differs from the password. That depends on werkzeug's output format.
- Auth.Login: werkzeug's `check_password_hash` is the parameter `check`.
- `print_github_activity` and the `__main__` block (github_activity.py:81-101): console output only.
- Text.Capitalize: only ASCII letters change case. Python's `str.capitalize` applies full Unicode title-casing and lower-casing. The default action "realizou uma ação" comes out the same either way.
- Timestamp.ParseIso: only ASCII digits are accepted. Python's pattern `\d` also matches other Unicode decimal digits.
- Timestamp.BrFormat: years print with four digits. Some platforms' `strftime("%Y")` print years below 1000 with fewer digits.
- Activity.FormatEvent: JSON `null` values and values of the wrong type are not modelled. A `"type": null` would read "None em R", and a non-object `repo` raises. Inputs that make the loop raise are the single case `Unreadable`. Undecodable bytes in the body fall under `Failed`.
- Handlers.Index: a 200 profile whose body is the empty JSON object would be falsy in Python. The model treats every 200 profile as found, since GitHub profiles always carry `login`.
- Concurrency: each request runs to completion on its own, and SQLite serializes writers.
