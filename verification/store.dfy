/** The local store of `models.py`: the `users` table and the
    `user_github_favorites` table, as immutable values. Every operation of the
    Python module opens a connection, runs one statement and commits; here each
    one is a function from the store before to the store after (writes) or to
    the answer (reads, which return no store and so cannot change it). */
module Store {
  import opened Wrappers

  type UserId = int

  /** A row of `users`. The `password` column holds the hash produced at
      registration, never the plaintext. */
  datatype User = User(id: UserId, name: string, email: string, password: string)

  /** A row of `user_github_favorites`. The GitHub username is not checked
      against GitHub. */
  datatype Favorite = Favorite(userId: UserId, githubUsername: string)

  /** The part of the table definitions the code relies on but does not show:
      whether `(user_id, github_username)` is declared UNIQUE. `INSERT OR IGNORE`
      only ignores a row that would violate such a constraint. */
  datatype Schema = Schema(uniqueFavorite: bool)

  /** Both tables, each as its rows in row order. */
  datatype Db = Db(users: seq<User>, favorites: seq<Favorite>, schema: Schema)

  // ---------------------------------------------------------------------------
  // users

  /** Row `i` is the first row whose email is `email`. */
  predicate IsFirstWithEmail(users: seq<User>, email: string, i: int) {
    && 0 <= i < |users|
    && users[i].email == email
    && forall j :: 0 <= j < i ==> users[j].email != email
  }

  /** Row `i` is the first row whose id is `id`. */
  predicate IsFirstWithId(users: seq<User>, id: UserId, i: int) {
    && 0 <= i < |users|
    && users[i].id == id
    && forall j :: 0 <= j < i ==> users[j].id != id
  }

  /** `get_user_by_email`: `SELECT * FROM users WHERE email = ?` and
      `fetchone()`, which yields the first matching row in row order. */
  function FindUserByEmail(users: seq<User>, email: string): (r: Option<User>)
    ensures r.None? <==> forall i :: 0 <= i < |users| ==> users[i].email != email
    ensures r.Some? ==> exists i :: IsFirstWithEmail(users, email, i) && users[i] == r.value
  {
    if |users| == 0 then None
    else if users[0].email == email then
      assert IsFirstWithEmail(users, email, 0);
      Some(users[0])
    else
      var r := FindUserByEmail(users[1..], email);
      if r.Some? then
        var i :| IsFirstWithEmail(users[1..], email, i) && users[1..][i] == r.value;
        assert IsFirstWithEmail(users, email, i + 1);
        r
      else
        assert forall i :: 1 <= i < |users| ==> users[i] == users[1..][i - 1];
        r
  }

  /** `get_user_by_id`: the first row whose id is `id`, if any. */
  function FindUserById(users: seq<User>, id: UserId): (r: Option<User>)
    ensures r.None? <==> forall i :: 0 <= i < |users| ==> users[i].id != id
    ensures r.Some? ==> exists i :: IsFirstWithId(users, id, i) && users[i] == r.value
  {
    if |users| == 0 then None
    else if users[0].id == id then
      assert IsFirstWithId(users, id, 0);
      Some(users[0])
    else
      var r := FindUserById(users[1..], id);
      if r.Some? then
        var i :| IsFirstWithId(users[1..], id, i) && users[1..][i] == r.value;
        assert IsFirstWithId(users, id, i + 1);
        r
      else
        assert forall i :: 1 <= i < |users| ==> users[i] == users[1..][i - 1];
        r
  }

  /** The id the store gives a new row: one more than the largest id in the
      table, or 1 for an empty table (SQLite's rowid rule). */
  function NextUserId(users: seq<User>): (r: UserId)
    ensures forall u :: u in users ==> u.id < r
    ensures |users| == 0 ==> r == 1
    ensures |users| > 0 ==> exists u :: u in users && u.id == r - 1
  {
    if |users| == 0 then 1
    else
      var rest := NextUserId(users[1..]);
      assert forall u :: u in users ==> u == users[0] || u in users[1..];
      if |users| == 1 || users[0].id >= rest then users[0].id + 1 else rest
  }

  /** `create_user`: inserts one row with the given name, email and hash.
      It does not look for an existing row with the same email. */
  function CreateUser(db: Db, name: string, email: string, passwordHash: string): (r: Db)
    ensures r.favorites == db.favorites && r.schema == db.schema
    ensures |r.users| == |db.users| + 1 && r.users[..|db.users|] == db.users
    ensures var u := r.users[|db.users|];
            && u.name == name && u.email == email && u.password == passwordHash
            && forall v :: v in db.users ==> v.id != u.id
  {
    db.(users := db.users + [User(NextUserId(db.users), name, email, passwordHash)])
  }

  /** After `create_user`, the new row is found by its id; by its email it is
      found only if no older row has that email, since lookups return the
      first match. */
  lemma CreateUserLookups(db: Db, name: string, email: string, passwordHash: string)
    ensures var r := CreateUser(db, name, email, passwordHash);
            var u := r.users[|db.users|];
            && FindUserById(r.users, u.id) == Some(u)
            && (FindUserByEmail(db.users, email).None? ==> FindUserByEmail(r.users, email) == Some(u))
            && (FindUserByEmail(db.users, email).Some? ==>
                  FindUserByEmail(r.users, email) == FindUserByEmail(db.users, email))
  {
    var r := CreateUser(db, name, email, passwordHash);
    var n := |db.users|;
    var u := r.users[n];
    assert r.users == db.users + [u];
    FirstMatchAppend(db.users, u, email);
    assert forall i :: 0 <= i < n ==> r.users[i] == db.users[i];
    assert forall i :: 0 <= i < n ==> r.users[i].id != u.id by {
      forall i | 0 <= i < n ensures r.users[i].id != u.id {
        assert db.users[i] in db.users;
      }
    }
    assert IsFirstWithId(r.users, u.id, n);
  }

  /** Appending a row does not change which row an email lookup finds first,
      unless there was none. */
  lemma {:induction false} FirstMatchAppend(users: seq<User>, u: User, email: string)
    ensures FindUserByEmail(users, email).Some? ==>
              FindUserByEmail(users + [u], email) == FindUserByEmail(users, email)
    ensures FindUserByEmail(users, email).None? && u.email == email ==>
              FindUserByEmail(users + [u], email) == Some(u)
  {
    if |users| > 0 {
      assert (users + [u])[1..] == users[1..] + [u];
      FirstMatchAppend(users[1..], u, email);
    }
  }

  /** No two rows share an email: what registration keeps true by checking first. */
  predicate EmailsUnique(users: seq<User>) {
    forall i, j :: 0 <= i < j < |users| ==> users[i].email != users[j].email
  }

  // ---------------------------------------------------------------------------
  // favorites

  /** `is_github_user_favorited`: whether some row is `(userId, githubUsername)`. */
  predicate IsFavorited(db: Db, userId: UserId, githubUsername: string) {
    Favorite(userId, githubUsername) in db.favorites
  }

  /** The rows left by `DELETE ... WHERE` matching exactly `f`, in their order. */
  function DeleteRows(rows: seq<Favorite>, f: Favorite): (r: seq<Favorite>)
    ensures multiset(r) == multiset(rows)[f := 0]
    ensures |r| <= |rows|
  {
    if |rows| == 0 then []
    else
      assert rows == [rows[0]] + rows[1..];
      (if rows[0] == f then [] else [rows[0]]) + DeleteRows(rows[1..], f)
  }

  /** Deleting a pair no row holds changes nothing. */
  lemma {:induction false} DeleteAbsent(rows: seq<Favorite>, f: Favorite)
    requires f !in rows
    ensures DeleteRows(rows, f) == rows
  {
    if |rows| > 0 {
      DeleteAbsent(rows[1..], f);
      assert rows == [rows[0]] + rows[1..];
    }
  }

  /** A copy of the pair appended at the end is deleted with the rest. */
  lemma {:induction false} DeleteAppended(rows: seq<Favorite>, f: Favorite)
    ensures DeleteRows(rows + [f], f) == DeleteRows(rows, f)
  {
    if |rows| == 0 {
      assert rows + [f] == [f];
      assert DeleteRows([f], f) == [] + DeleteRows([], f);
    } else {
      assert (rows + [f])[1..] == rows[1..] + [f];
      DeleteAppended(rows[1..], f);
    }
  }

  /** `add_github_user_favorite`: `INSERT OR IGNORE`. With the pair declared
      UNIQUE an existing pair is left alone; without it a second row is added. */
  function AddFavorite(db: Db, userId: UserId, githubUsername: string): (r: Db)
    ensures IsFavorited(r, userId, githubUsername)
    ensures r.users == db.users && r.schema == db.schema
    ensures forall f :: f != Favorite(userId, githubUsername) ==>
              (f in r.favorites <==> f in db.favorites)
    ensures db.schema.uniqueFavorite && IsFavorited(db, userId, githubUsername) ==> r == db
    ensures !(db.schema.uniqueFavorite && IsFavorited(db, userId, githubUsername)) ==>
              multiset(r.favorites) == multiset(db.favorites) + multiset{Favorite(userId, githubUsername)}
  {
    var f := Favorite(userId, githubUsername);
    if db.schema.uniqueFavorite && f in db.favorites then db
    else
      var r := db.(favorites := db.favorites + [f]);
      assert forall g :: g in r.favorites <==> g in multiset(r.favorites);
      assert forall g :: g in db.favorites <==> g in multiset(db.favorites);
      r
  }

  /** `remove_github_user_favorite`: the `DELETE` removes every row equal to
      the pair, however many there are, and nothing else. */
  function RemoveFavorite(db: Db, userId: UserId, githubUsername: string): (r: Db)
    ensures !IsFavorited(r, userId, githubUsername)
    ensures r.users == db.users && r.schema == db.schema
    ensures forall f :: f != Favorite(userId, githubUsername) ==>
              (f in r.favorites <==> f in db.favorites)
    ensures multiset(r.favorites) == multiset(db.favorites)[Favorite(userId, githubUsername) := 0]
  {
    var r := db.(favorites := DeleteRows(db.favorites, Favorite(userId, githubUsername)));
    assert forall g :: g in r.favorites <==> g in multiset(r.favorites);
    assert forall g :: g in db.favorites <==> g in multiset(db.favorites);
    r
  }

  /** The usernames of the rows owned by `userId`, in row order. */
  function UsernamesOf(rows: seq<Favorite>, userId: UserId): seq<string> {
    if |rows| == 0 then []
    else (if rows[0].userId == userId then [rows[0].githubUsername] else []) + UsernamesOf(rows[1..], userId)
  }

  /** Each username occurs as often as its row with `userId` does. */
  lemma {:induction false} UsernamesOfCounts(rows: seq<Favorite>, userId: UserId)
    ensures forall g :: multiset(UsernamesOf(rows, userId))[g] == multiset(rows)[Favorite(userId, g)]
  {
    if |rows| > 0 {
      UsernamesOfCounts(rows[1..], userId);
      assert rows == [rows[0]] + rows[1..];
    }
  }

  /** `list_github_favorites`: every username paired with `userId`, as many
      times as such a row exists, and none paired only with other users. */
  function ListFavorites(db: Db, userId: UserId): (r: seq<string>)
    ensures forall g :: g in r <==> IsFavorited(db, userId, g)
    ensures forall g :: multiset(r)[g] == multiset(db.favorites)[Favorite(userId, g)]
  {
    var r := UsernamesOf(db.favorites, userId);
    UsernamesOfCounts(db.favorites, userId);
    assert forall g :: g in r <==> g in multiset(r);
    assert forall f :: f in db.favorites <==> f in multiset(db.favorites);
    r
  }

  lemma {:induction false} UsernamesOfAppend(rows: seq<Favorite>, f: Favorite, userId: UserId)
    ensures UsernamesOf(rows + [f], userId) ==
            UsernamesOf(rows, userId) + (if f.userId == userId then [f.githubUsername] else [])
  {
    var tail := if f.userId == userId then [f.githubUsername] else [];
    if |rows| == 0 {
      assert rows + [f] == [f] && [f][1..] == [];
      assert UsernamesOf([f], userId) == tail + UsernamesOf([], userId);
    } else {
      var a := rows + [f];
      assert a[0] == rows[0] && a[1..] == rows[1..] + [f];
      UsernamesOfAppend(rows[1..], f, userId);
      var head := if rows[0].userId == userId then [rows[0].githubUsername] else [];
      assert UsernamesOf(a, userId) == head + (UsernamesOf(rows[1..], userId) + tail);
      assert UsernamesOf(rows, userId) == head + UsernamesOf(rows[1..], userId);
    }
  }

  /** No pair appears in two rows. */
  ghost predicate FavoritesUnique(db: Db) {
    forall f :: multiset(db.favorites)[f] <= 1
  }

  /** With the pair declared UNIQUE, adding keeps pairs unique; removing keeps
      them unique in any case. */
  lemma FavoritesStayUnique(db: Db, userId: UserId, githubUsername: string)
    requires FavoritesUnique(db)
    ensures db.schema.uniqueFavorite ==> FavoritesUnique(AddFavorite(db, userId, githubUsername))
    ensures FavoritesUnique(RemoveFavorite(db, userId, githubUsername))
  {
    var f := Favorite(userId, githubUsername);
    if db.schema.uniqueFavorite && f !in db.favorites {
      assert multiset(db.favorites)[f] == 0;
    }
  }

  /** Under a unique pair, listing a user's favorites never repeats a name. */
  lemma ListedOnce(db: Db, userId: UserId, githubUsername: string)
    requires FavoritesUnique(db)
    ensures multiset(ListFavorites(db, userId))[githubUsername] <= 1
  {
    assert multiset(db.favorites)[Favorite(userId, githubUsername)] <= 1;
  }

  /** Adding twice and removing once leaves the pair absent: no reference
      counting, whatever the schema declares. */
  lemma AddTwiceRemoveOnce(db: Db, userId: UserId, githubUsername: string)
    ensures !IsFavorited(
              RemoveFavorite(AddFavorite(AddFavorite(db, userId, githubUsername), userId, githubUsername),
                             userId, githubUsername),
              userId, githubUsername)
  {
  }

  /** With the pair declared UNIQUE, adding is idempotent. */
  lemma AddIdempotent(db: Db, userId: UserId, githubUsername: string)
    requires db.schema.uniqueFavorite
    ensures AddFavorite(AddFavorite(db, userId, githubUsername), userId, githubUsername)
            == AddFavorite(db, userId, githubUsername)
  {
  }

  /** Favoriting the same name twice for a user with no favorites lists it
      exactly once when the pair is UNIQUE, and twice when it is not. */
  lemma {:induction false} FavoriteTwiceThenList(db: Db, userId: UserId, githubUsername: string)
    requires ListFavorites(db, userId) == []
    ensures var twice := AddFavorite(AddFavorite(db, userId, githubUsername), userId, githubUsername);
            && (db.schema.uniqueFavorite ==> ListFavorites(twice, userId) == [githubUsername])
            && (!db.schema.uniqueFavorite ==> ListFavorites(twice, userId) == [githubUsername, githubUsername])
  {
    var f := Favorite(userId, githubUsername);
    var once := AddFavorite(db, userId, githubUsername);
    assert !IsFavorited(db, userId, githubUsername) by {
      assert githubUsername !in ListFavorites(db, userId);
    }
    assert once.favorites == db.favorites + [f];
    assert UsernamesOf(db.favorites, userId) == ListFavorites(db, userId) == [];
    UsernamesOfAppend(db.favorites, f, userId);
    assert UsernamesOf(once.favorites, userId) == [githubUsername];
    var twice := AddFavorite(once, userId, githubUsername);
    if db.schema.uniqueFavorite {
      assert twice == once;
    } else {
      assert twice.favorites == once.favorites + [f];
      UsernamesOfAppend(once.favorites, f, userId);
      assert UsernamesOf(twice.favorites, userId) == [githubUsername, githubUsername];
    }
  }
}
