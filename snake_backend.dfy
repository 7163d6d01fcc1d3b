/**
 * The snake game's HTTP backend: accounts, login sessions, a leaderboard and
 * a read-only table of games.
 *
 * The database tables become sequences of rows inside one `SnakeApi` object,
 * next to the in-memory `sessions` dictionary that maps a login token to a
 * user id. Each handler is a method (when it changes state) or a function
 * reading the object (when it only queries). A JSON field that may be missing
 * is an `Option`. The fresh random token of a login is a parameter, required
 * not to be bound yet; the random game snapshot is chosen within its bounds.
 */
module SnakeBackend {

  import opened Wrappers

  datatype User = User(id: int, username: string, password: string)
  datatype LeaderboardEntry = LeaderboardEntry(id: int, username: string, score: int)
  datatype Game = Game(id: int, username: string, mode: string, state: string)

  datatype HttpError = HttpError(status: int, detail: string)
  datatype Result<T> = Ok(value: T) | Err(error: HttpError)

  const Unauthorized: HttpError := HttpError(401, "Invalid token")
  const GameNotFound: HttpError := HttpError(404, "Game not found")
  /** An IntegrityError that no handler catches surfaces as a server error. */
  const ServerError: HttpError := HttpError(500, "Internal Server Error")

  datatype LoginReply = LoginOk(token: string, username: string) | LoginFailed(error: string)
  datatype SignupReply = SignupOk | SignupFailed(error: string)

  /** One row of the leaderboard response. */
  datatype ScoreRow = ScoreRow(username: string, score: int)

  datatype Point = Point(x: int, y: int)
  datatype GameView = GameView(id: int, username: string, mode: string,
                               snake: seq<Point>, food: Point, score: int)

  const LEADERBOARD_LIMIT: nat := 10

  /** SQLite's `INTEGER` is a signed 64-bit value; the driver refuses to bind
      a Python int outside this range, and that error surfaces as a 500. */
  const INT64_MIN: int := -0x8000_0000_0000_0000
  const INT64_MAX: int := 0x7FFF_FFFF_FFFF_FFFF

  predicate FitsInt64(n: int) {
    INT64_MIN <= n <= INT64_MAX
  }

  // ----- the users table -----

  ghost predicate HasUserId(users: seq<User>, id: int) {
    exists i :: 0 <= i < |users| && users[i].id == id
  }

  // ----- primary keys -----

  /** The largest key of a table's key column, 0 when the table is empty. An
      integer primary key left to the database gets one more than this. */
  function MaxId(ids: seq<int>): (m: int)
    ensures m >= 0
    ensures forall i :: 0 <= i < |ids| ==> ids[i] <= m
    ensures m == 0 || m in ids
  {
    if ids == [] then 0
    else
      var rest := MaxId(ids[..|ids| - 1]);
      var last := ids[|ids| - 1];
      assert rest != 0 ==> rest in ids by {
        assert forall x :: x in ids[..|ids| - 1] ==> x in ids;
      }
      if last > rest then last else rest
  }

  /** A row added with a key above the largest stored one becomes the largest. */
  lemma MaxIdAppend(ids: seq<int>, x: int)
    requires x > MaxId(ids)
    ensures MaxId(ids + [x]) == x
  {
    assert (ids + [x])[..|ids|] == ids;
  }

  function UserIds(users: seq<User>): (ids: seq<int>)
    ensures |ids| == |users| && forall i :: 0 <= i < |users| ==> ids[i] == users[i].id
  {
    seq(|users|, i requires 0 <= i < |users| => users[i].id)
  }

  /** The same projection as `UserIds`, over the leaderboard table; the two
      row types have no common supertype here. */
  function EntryIds(entries: seq<LeaderboardEntry>): (ids: seq<int>)
    ensures |ids| == |entries| && forall i :: 0 <= i < |entries| ==> ids[i] == entries[i].id
  {
    seq(|entries|, i requires 0 <= i < |entries| => entries[i].id)
  }

  /** The table's constraints: keys are distinct, and positive because
      SQLite's rowid allocation makes them so;
      `username` is unique. */
  ghost predicate UsersValid(users: seq<User>) {
    && (forall i :: 0 <= i < |users| ==> 1 <= users[i].id)
    && (forall i, j :: 0 <= i < j < |users| ==> users[i].id != users[j].id)
    && (forall i, j :: 0 <= i < j < |users| ==> users[i].username != users[j].username)
  }

  /** The `where` clause for one row: a missing field never matches. */
  function Matches(u: User, username: Option<string>, password: Option<string>): (r: bool)
    ensures r ==> username.Some? && password.Some?
    ensures r <==> username == Some(u.username) && password == Some(u.password)
  {
    username == Some(u.username) && password == Some(u.password)
  }

  /** `select(User).where(username == ..., password == ...)`: a missing field
      compares with NULL, which no row matches. */
  function FindByCredentials(users: seq<User>, username: Option<string>, password: Option<string>): (r: Option<User>)
    ensures r.Some? ==> r.value in users && Matches(r.value, username, password)
    ensures r.None? ==> forall i :: 0 <= i < |users| ==> !Matches(users[i], username, password)
  {
    if users == [] then None
    else if Matches(users[0], username, password) then Some(users[0])
    else FindByCredentials(users[1..], username, password)
  }

  /** `select(User).where(User.id == id)`. */
  function FindById(users: seq<User>, id: int): (r: Option<User>)
    ensures r.Some? ==> r.value in users && r.value.id == id
    ensures r.None? <==> !HasUserId(users, id)
  {
    if users == [] then None
    else if users[0].id == id then Some(users[0])
    else
      var r := FindById(users[1..], id);
      assert HasUserId(users, id) <==> users[0].id == id || HasUserId(users[1..], id) by {
        if HasUserId(users[1..], id) {
          var i :| 0 <= i < |users[1..]| && users[1..][i].id == id;
          assert users[i + 1].id == id;
        }
        if HasUserId(users, id) && users[0].id != id {
          var i :| 0 <= i < |users| && users[i].id == id;
          assert users[1..][i - 1].id == id;
        }
      }
      r
  }

  predicate UsernameTaken(users: seq<User>, username: string) {
    exists i :: 0 <= i < |users| && users[i].username == username
  }

  /** Every stored key is at most the largest one. */
  lemma UserIdsBelowMax(users: seq<User>)
    ensures forall i :: 0 <= i < |users| ==> users[i].id <= MaxId(UserIds(users))
  {
    var ids := UserIds(users);
    forall i | 0 <= i < |users| ensures users[i].id <= MaxId(ids) {
      assert ids[i] == users[i].id;
    }
  }

  /** A user with a free username under a key above every stored one keeps the constraints. */
  lemma AddUserKeepsConstraints(users: seq<User>, u: User)
    requires UsersValid(users) && !UsernameTaken(users, u.username) && u.id >= 1
    requires forall i :: 0 <= i < |users| ==> users[i].id < u.id
    ensures UsersValid(users + [u])
  {
    var r := users + [u];
    forall i, j | 0 <= i < j < |r| ensures r[i].id != r[j].id && r[i].username != r[j].username {
      assert r[i] == users[i];
    }
  }

  /** A new user with a free username and the key after the largest one keeps
      the constraints, and its key becomes the largest. */
  lemma AddUserKeepsKeys(users: seq<User>, u: User)
    requires UsersValid(users) && !UsernameTaken(users, u.username)
    requires u.id == MaxId(UserIds(users)) + 1
    ensures UsersValid(users + [u])
    ensures MaxId(UserIds(users + [u])) == u.id
  {
    UserIdsBelowMax(users);
    AddUserKeepsConstraints(users, u);
    assert UserIds(users + [u]) == UserIds(users) + [u.id];
    MaxIdAppend(UserIds(users), u.id);
  }

  /** Adding a user keeps every bound token's user. */
  lemma AddUserKeepsBindings(sessions: map<string, int>, users: seq<User>, u: User)
    requires forall t :: t in sessions ==> HasUserId(users, sessions[t])
    ensures forall t :: t in sessions ==> HasUserId(users + [u], sessions[t])
  {
    forall t | t in sessions ensures HasUserId(users + [u], sessions[t]) {
      var i :| 0 <= i < |users| && users[i].id == sessions[t];
      assert (users + [u])[i] == users[i];
    }
  }

  // ----- the sessions dictionary -----

  /** `del sessions[token]` when the token is bound; nothing otherwise. So the
      given token is unbound afterwards and every other binding is kept. */
  function Unbind(sessions: map<string, int>, token: Option<string>): (r: map<string, int>)
    ensures token.Some? ==> token.value !in r
    ensures forall t :: Some(t) != token ==> (t in r <==> t in sessions)
    ensures forall t :: Some(t) != token && t in sessions ==> r[t] == sessions[t]
  {
    if token.Some? && token.value in sessions then sessions - {token.value} else sessions
  }

  /** Logging out twice is the same as once. */
  lemma UnbindTwice(sessions: map<string, int>, token: Option<string>)
    ensures Unbind(Unbind(sessions, token), token) == Unbind(sessions, token)
  {
  }

  // ----- the leaderboard table -----

  /** The table's constraint: keys are distinct, and positive because
      SQLite's rowid allocation makes them so. */
  ghost predicate EntriesValid(entries: seq<LeaderboardEntry>) {
    && (forall i :: 0 <= i < |entries| ==> 1 <= entries[i].id)
    && (forall i, j :: 0 <= i < j < |entries| ==> entries[i].id != entries[j].id)
  }

  /** Every stored key is at most the largest one. */
  lemma EntryIdsBelowMax(entries: seq<LeaderboardEntry>)
    ensures forall i :: 0 <= i < |entries| ==> entries[i].id <= MaxId(EntryIds(entries))
  {
    var ids := EntryIds(entries);
    forall i | 0 <= i < |entries| ensures entries[i].id <= MaxId(ids) {
      assert ids[i] == entries[i].id;
    }
  }

  /** An entry under a key above every stored one keeps the constraint. */
  lemma AddEntryKeepsConstraints(entries: seq<LeaderboardEntry>, e: LeaderboardEntry)
    requires EntriesValid(entries) && e.id >= 1
    requires forall i :: 0 <= i < |entries| ==> entries[i].id < e.id
    ensures EntriesValid(entries + [e])
  {
    var r := entries + [e];
    forall i, j | 0 <= i < j < |r| ensures r[i].id != r[j].id {
      assert r[i] == entries[i];
    }
  }

  /** A new entry with the key after the largest one keeps the constraint, and
      its key becomes the largest. */
  lemma AddEntryKeepsKeys(entries: seq<LeaderboardEntry>, e: LeaderboardEntry)
    requires EntriesValid(entries)
    requires e.id == MaxId(EntryIds(entries)) + 1
    ensures EntriesValid(entries + [e])
    ensures MaxId(EntryIds(entries + [e])) == e.id
  {
    EntryIdsBelowMax(entries);
    AddEntryKeepsConstraints(entries, e);
    assert EntryIds(entries + [e]) == EntryIds(entries) + [e.id];
    MaxIdAppend(EntryIds(entries), e.id);
  }

  ghost predicate ScoresDescending(s: seq<LeaderboardEntry>) {
    forall i, j :: 0 <= i < j < |s| ==> s[i].score >= s[j].score
  }

  /** Putting a first entry that scores at least as much as the head of a sorted sequence keeps it sorted. */
  lemma ConsDescending(x: LeaderboardEntry, s: seq<LeaderboardEntry>)
    requires ScoresDescending(s)
    requires s != [] ==> x.score >= s[0].score
    ensures ScoresDescending([x] + s)
  {
    var r := [x] + s;
    forall i, j | 0 <= i < j < |r| ensures r[i].score >= r[j].score {
      if i > 0 {
        assert r[i] == s[i - 1] && r[j] == s[j - 1];
      } else if j > 1 {
        assert r[j] == s[j - 1];
      }
    }
  }

  /** Places `e` in front of the first entry that does not score more. */
  function InsertByScore(e: LeaderboardEntry, s: seq<LeaderboardEntry>): (r: seq<LeaderboardEntry>)
    requires ScoresDescending(s)
    ensures ScoresDescending(r)
    ensures multiset(r) == multiset(s) + multiset{e}
    ensures r[0] == e || (s != [] && r[0] == s[0])
  {
    if s == [] then [e]
    else if e.score >= s[0].score then
      ConsDescending(e, s);
      [e] + s
    else
      var rest := InsertByScore(e, s[1..]);
      assert s == [s[0]] + s[1..];
      ConsDescending(s[0], rest);
      [s[0]] + rest
  }

  /** `order_by(score.desc())`; the database leaves the order among equal
      scores open, and this ordering puts the earlier-stored entry first. */
  function SortByScoreDesc(s: seq<LeaderboardEntry>): (r: seq<LeaderboardEntry>)
    ensures ScoresDescending(r)
    ensures multiset(r) == multiset(s)
  {
    if s == [] then []
    else
      assert s == [s[0]] + s[1..];
      InsertByScore(s[0], SortByScoreDesc(s[1..]))
  }

  /** `order_by(score.desc()).limit(10)`. */
  function TopEntries(entries: seq<LeaderboardEntry>): (r: seq<LeaderboardEntry>)
    ensures |r| <= LEADERBOARD_LIMIT
  {
    var sorted := SortByScoreDesc(entries);
    sorted[..if |sorted| < LEADERBOARD_LIMIT then |sorted| else LEADERBOARD_LIMIT]
  }

  /** Splitting a sequence: what is cut off is exactly what the prefix lacks. */
  lemma SplitMultiset(s: seq<LeaderboardEntry>, n: nat)
    requires n <= |s|
    ensures multiset(s[..n]) <= multiset(s)
    ensures multiset(s) - multiset(s[..n]) == multiset(s[n..])
  {
    assert s == s[..n] + s[n..];
  }

  /** In a sequence sorted best first, nothing after position `n` beats anything before it. */
  lemma SortedSuffixNoBetter(s: seq<LeaderboardEntry>, n: nat)
    requires ScoresDescending(s) && n <= |s|
    ensures forall e, k :: e in multiset(s[n..]) && 0 <= k < n ==> e.score <= s[k].score
  {
    forall e, k | e in multiset(s[n..]) && 0 <= k < n
      ensures e.score <= s[k].score
    {
      var j :| 0 <= j < |s[n..]| && s[n..][j] == e;
      assert s[n + j] == e;
    }
  }

  /** The leaderboard read returns ten entries (all of them when fewer are
      stored), best first. */
  lemma TopEntriesCountAndOrder(entries: seq<LeaderboardEntry>)
    ensures |TopEntries(entries)| == (if |entries| < LEADERBOARD_LIMIT then |entries| else LEADERBOARD_LIMIT)
    ensures ScoresDescending(TopEntries(entries))
  {
    var sorted := SortByScoreDesc(entries);
    assert |sorted| == |entries| by {
      assert |multiset(sorted)| == |multiset(entries)|;
    }
  }

  /** Every entry the leaderboard read returns is stored, and no stored entry
      left out beats a returned one. */
  lemma TopEntriesAreBest(entries: seq<LeaderboardEntry>)
    ensures multiset(TopEntries(entries)) <= multiset(entries)
    ensures forall e, k :: e in multiset(entries) - multiset(TopEntries(entries)) && 0 <= k < |TopEntries(entries)|
              ==> e.score <= TopEntries(entries)[k].score
  {
    var sorted := SortByScoreDesc(entries);
    var n := if |sorted| < LEADERBOARD_LIMIT then |sorted| else LEADERBOARD_LIMIT;
    SplitMultiset(sorted, n);
    SortedSuffixNoBetter(sorted, n);
  }


  /** A stored entry that beats a returned one is itself returned. */
  lemma TopEntriesKeepBetter(entries: seq<LeaderboardEntry>)
    ensures forall e, k :: e in entries && 0 <= k < |TopEntries(entries)| && e.score > TopEntries(entries)[k].score
              ==> e in TopEntries(entries)
  {
    TopEntriesAreBest(entries);
    var top := TopEntries(entries);
    forall e, k | e in entries && 0 <= k < |top| && e.score > top[k].score ensures e in top {
      assert e in multiset(entries);
      assert e !in multiset(entries) - multiset(top);
    }
  }

  lemma TopEntriesStored(entries: seq<LeaderboardEntry>)
    ensures forall k :: 0 <= k < |TopEntries(entries)| ==> TopEntries(entries)[k] in entries
  {
    TopEntriesAreBest(entries);
    forall k | 0 <= k < |TopEntries(entries)| ensures TopEntries(entries)[k] in entries {
      assert TopEntries(entries)[k] in multiset(TopEntries(entries));
    }
  }

  /** One response row: the entry's `username` and `score`, its key dropped. */
  function ToRow(e: LeaderboardEntry): (row: ScoreRow)
    ensures row.username == e.username && row.score == e.score
  {
    ScoreRow(e.username, e.score)
  }

  /** The response body: one `(username, score)` row per entry, in order. */
  function ToRows(s: seq<LeaderboardEntry>): (rows: seq<ScoreRow>)
    ensures |rows| == |s|
    ensures forall k :: 0 <= k < |s| ==> rows[k] == ToRow(s[k])
    ensures forall e :: e in s ==> ToRow(e) in rows
  {
    var rows := seq(|s|, k requires 0 <= k < |s| => ToRow(s[k]));
    assert forall e :: e in s ==> ToRow(e) in rows by {
      forall e | e in s ensures ToRow(e) in rows {
        var j :| 0 <= j < |s| && s[j] == e;
        assert rows[j] == ToRow(e);
      }
    }
    rows
  }

  // ----- the games table -----

  ghost predicate GameIdsUnique(games: seq<Game>) {
    forall i, j :: 0 <= i < j < |games| ==> games[i].id != games[j].id
  }

  /** `select(Game).where(Game.id == id)`. */
  function FindGame(games: seq<Game>, id: int): (r: Option<Game>)
    ensures r.Some? ==> r.value in games && r.value.id == id
    ensures r.None? ==> forall i :: 0 <= i < |games| ==> games[i].id != id
  {
    if games == [] then None
    else if games[0].id == id then Some(games[0])
    else FindGame(games[1..], id)
  }

  /** With unique keys, every listed game is the one its id looks up, so each
      entry of `/games` can be opened with `/games/{id}`. */
  lemma ListedGamesResolve(games: seq<Game>, k: int)
    requires GameIdsUnique(games) && 0 <= k < |games|
    ensures FindGame(games, games[k].id) == Some(games[k])
  {
  }

  /** The backend process: the database tables and the session dictionary. */
  class SnakeApi {
    var sessions: map<string, int>
    var users: seq<User>
    var nextUserId: int
    var leaderboard: seq<LeaderboardEntry>
    var nextEntryId: int
    var games: seq<Game>

    ghost predicate Valid()
      reads this
    {
      && UsersValid(users)
      && nextUserId == MaxId(UserIds(users)) + 1
      && (forall t :: t in sessions ==> HasUserId(users, sessions[t]))
      && EntriesValid(leaderboard)
      && nextEntryId == MaxId(EntryIds(leaderboard)) + 1
      && GameIdsUnique(games)
    }

    /** Process start: the tables are whatever the database file holds, and
        no token is bound yet. */
    constructor (users: seq<User>, leaderboard: seq<LeaderboardEntry>, games: seq<Game>)
      requires UsersValid(users) && EntriesValid(leaderboard) && GameIdsUnique(games)
      ensures Valid()
      ensures sessions == map[]
      ensures this.users == users && this.leaderboard == leaderboard && this.games == games
    {
      sessions := map[];
      this.users := users;
      nextUserId := MaxId(UserIds(users)) + 1;
      this.leaderboard := leaderboard;
      nextEntryId := MaxId(EntryIds(leaderboard)) + 1;
      this.games := games;
    }

    /** `POST /login`: a user matching both fields gets the fresh token bound to its id. */
    method Login(username: Option<string>, password: Option<string>, freshToken: string) returns (reply: LoginReply)
      requires Valid()
      requires freshToken !in sessions
      modifies this`sessions
      ensures Valid()
      ensures match FindByCredentials(users, username, password)
              case Some(u) =>
                && sessions == old(sessions)[freshToken := u.id]
                && reply == LoginOk(freshToken, u.username)
              case None =>
                && sessions == old(sessions)
                && reply == LoginFailed("Invalid credentials")
    {
      var user := FindByCredentials(users, username, password);
      if user.Some? {
        var token := freshToken;
        sessions := sessions[token := user.value.id];
        assert HasUserId(users, user.value.id);
        reply := LoginOk(token, user.value.username);
        return;
      }
      reply := LoginFailed("Invalid credentials");
    }

    /** `POST /signup`: the commit fails (and is rolled back) on a missing
        field, which breaks a NOT NULL constraint, or on a taken username,
        which breaks the UNIQUE one. */
    method Signup(username: Option<string>, password: Option<string>) returns (reply: SignupReply)
      requires Valid()
      modifies this`users, this`nextUserId
      ensures Valid()
      ensures var ok := username.Some? && password.Some? && !UsernameTaken(old(users), username.value);
              if ok then
                && reply == SignupOk
                && users == old(users) + [User(old(nextUserId), username.value, password.value)]
                && nextUserId == old(nextUserId) + 1
              else
                && reply == SignupFailed("User exists")
                && users == old(users) && nextUserId == old(nextUserId)
    {
      if username.None? || password.None? || UsernameTaken(users, username.value) {
        reply := SignupFailed("User exists");
        return;
      }
      var user := User(nextUserId, username.value, password.value);
      AddUserKeepsKeys(users, user);
      AddUserKeepsBindings(sessions, users, user);
      users := users + [user];
      nextUserId := nextUserId + 1;
      reply := SignupOk;
    }

    /** `GET /user`: the username of the user the token is bound to. An unbound
        token, an id that is falsy (0) or an id with no user row is refused. */
    function GetUser(token: Option<string>): (r: Result<string>)
      reads this
      ensures r.Ok? <==> token.Some? && token.value in sessions && sessions[token.value] != 0
                         && HasUserId(users, sessions[token.value])
      ensures r.Ok? ==> exists i :: 0 <= i < |users| && users[i].id == sessions[token.value]
                                    && users[i].username == r.value
      ensures r.Err? ==> r.error == Unauthorized
      ensures Valid() && token.Some? && token.value in sessions ==> r.Ok?
    {
      if token.None? || token.value !in sessions then Err(Unauthorized)
      else
        var userId := sessions[token.value];
        if userId == 0 then Err(Unauthorized)
        else
          match FindById(users, userId)
          case Some(u) => Ok(u.username)
          case None => Err(Unauthorized)
    }

    /** `POST /logout`: always succeeds; unbinds the token when it is bound. */
    method Logout(token: Option<string>) returns (success: bool)
      requires Valid()
      modifies this`sessions
      ensures Valid()
      ensures success
      ensures sessions == Unbind(old(sessions), token)
      ensures GetUser(token) == Err(Unauthorized)
    {
      if token.Some? && token.value in sessions {
        sessions := sessions - {token.value};
      }
      success := true;
    }

    /** `GET /leaderboard`. */
    function GetLeaderboard(): (rows: seq<ScoreRow>)
      reads this
      ensures |rows| <= LEADERBOARD_LIMIT
      ensures |leaderboard| >= LEADERBOARD_LIMIT ==> |rows| == LEADERBOARD_LIMIT
      ensures |leaderboard| < LEADERBOARD_LIMIT ==> |rows| == |leaderboard|
      ensures forall i, j :: 0 <= i < j < |rows| ==> rows[i].score >= rows[j].score
      ensures forall k :: 0 <= k < |rows| ==> exists e :: e in leaderboard && ToRow(e) == rows[k]
      ensures forall e, k :: e in leaderboard && 0 <= k < |rows| && e.score > rows[k].score ==> ToRow(e) in rows
      ensures exists top :: multiset(top) <= multiset(leaderboard) && rows == ToRows(top)
    {
      var top := TopEntries(leaderboard);
      TopEntriesAreBest(leaderboard);
      TopEntriesCountAndOrder(leaderboard);
      TopEntriesStored(leaderboard);
      TopEntriesKeepBetter(leaderboard);
      ToRows(top)
    }

    /** `POST /leaderboard`: appends one entry. A missing field breaks a NOT
        NULL constraint at commit, and a score outside 64 bits cannot be
        bound; this handler catches neither. */
    method SubmitScore(username: Option<string>, score: Option<int>) returns (r: Result<bool>)
      requires Valid()
      modifies this`leaderboard, this`nextEntryId
      ensures Valid()
      ensures if username.Some? && score.Some? && FitsInt64(score.value) then
                && r == Ok(true)
                && leaderboard == old(leaderboard) + [LeaderboardEntry(old(nextEntryId), username.value, score.value)]
                && nextEntryId == old(nextEntryId) + 1
              else
                && r == Err(ServerError)
                && leaderboard == old(leaderboard) && nextEntryId == old(nextEntryId)
    {
      if username.None? || score.None? || !FitsInt64(score.value) {
        r := Err(ServerError);
        return;
      }
      var entry := LeaderboardEntry(nextEntryId, username.value, score.value);
      AddEntryKeepsKeys(leaderboard, entry);
      leaderboard := leaderboard + [entry];
      nextEntryId := nextEntryId + 1;
      r := Ok(true);
    }

    /** `GET /games`: every stored game with all its columns. */
    function GetActiveGames(): (r: seq<Game>)
      reads this
      ensures r == games
      ensures Valid() ==> forall k :: 0 <= k < |r| ==> FindGame(games, r[k].id) == Some(r[k])
    {
      forall k | 0 <= k < |games| && Valid() ensures FindGame(games, games[k].id) == Some(games[k]) {
        ListedGamesResolve(games, k);
      }
      games
    }

    /** `GET /games/{id}`: 404 for an unknown id; otherwise the game's id,
        owner and mode with a placeholder snapshot that is random within the
        bounds the handler draws from (cells in 0..9, score in 0..20). An id
        outside 64 bits cannot be bound into the query and gives a 500. */
    method GetGameState(gameId: int) returns (r: Result<GameView>)
      ensures !FitsInt64(gameId) ==> r == Err(ServerError)
      ensures FitsInt64(gameId) && FindGame(games, gameId).None? ==> r == Err(GameNotFound)
      ensures FitsInt64(gameId) && FindGame(games, gameId).Some? ==>
                var g := FindGame(games, gameId).value;
                && r.Ok?
                && r.value.id == g.id && r.value.username == g.username && r.value.mode == g.mode
                && |r.value.snake| == 2
                && (forall k :: 0 <= k < 2 ==> 0 <= r.value.snake[k].x <= 9 && 0 <= r.value.snake[k].y <= 9)
                && 0 <= r.value.food.x <= 9 && 0 <= r.value.food.y <= 9
                && 0 <= r.value.score <= 20
    {
      if !FitsInt64(gameId) {
        r := Err(ServerError);
        return;
      }
      var game := FindGame(games, gameId);
      if game.None? {
        r := Err(GameNotFound);
        return;
      }
      var x0: int :| 0 <= x0 <= 9;
      var y0: int :| 0 <= y0 <= 9;
      var x1: int :| 0 <= x1 <= 9;
      var y1: int :| 0 <= y1 <= 9;
      var fx: int :| 0 <= fx <= 9;
      var fy: int :| 0 <= fy <= 9;
      var score: int :| 0 <= score <= 20;
      var g := game.value;
      r := Ok(GameView(g.id, g.username, g.mode, [Point(x0, y0), Point(x1, y1)], Point(fx, fy), score));
    }
  }
}
