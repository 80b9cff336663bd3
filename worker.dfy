/**
 * The catalogue API (backend/worker.js): the request's pathname chooses the list
 * of games, one game by id, or "not found". The database is an abstract table;
 * the SQL the routes run is not part of this model.
 */
module Worker {
  import opened Text
  import opened Catalog

  datatype Route = ListGames | GetGame(id: nat) | NotFound

  const ListPath: string := "/api/games"
  const GamePrefix: string := "/api/games/"

  /** `pathname === '/api/games'`, then `/^\/api\/games\/(\d+)$/` with `Number(match[1])`. */
  function RouteOf(pathname: string): Route {
    if pathname == ListPath then ListGames
    else if |GamePrefix| < |pathname| && pathname[..|GamePrefix|] == GamePrefix && AllDigits(pathname[|GamePrefix|..])
    then GetGame(DigitsValue(pathname[|GamePrefix|..]))
    else NotFound
  }

  /** Only the exact list path lists the games. */
  lemma ListRouteIff(pathname: string)
    ensures RouteOf(pathname) == ListGames <==> pathname == ListPath
  {
  }

  /** The get route is chosen exactly for the game prefix followed by one or more digits, whose decimal value is the id. */
  lemma GetRouteIff(pathname: string, id: nat)
    ensures RouteOf(pathname) == GetGame(id) <==>
      exists digits :: pathname == GamePrefix + digits && digits != [] && AllDigits(digits) && DigitsValue(digits) == id
  {
    if RouteOf(pathname) == GetGame(id) {
      var digits := pathname[|GamePrefix|..];
      assert pathname == GamePrefix + digits;
    }
    if digits :| pathname == GamePrefix + digits && digits != [] && AllDigits(digits) && DigitsValue(digits) == id {
      assert pathname[..|GamePrefix|] == GamePrefix;
      assert pathname[|GamePrefix|..] == digits;
      assert pathname != ListPath by {
        assert |pathname| > |ListPath|;
      }
    }
  }

  /** Every id is reachable: the decimal rendering of an id routes back to it. */
  lemma GetRouteRoundTrip(id: nat)
    ensures RouteOf(GamePrefix + DecimalString(id)) == GetGame(id)
  {
    var p := GamePrefix + DecimalString(id);
    DecimalRoundTrip(id);
    assert p[..|GamePrefix|] == GamePrefix;
    assert p[|GamePrefix|..] == DecimalString(id);
    assert p != ListPath by {
      assert |p| > |ListPath|;
    }
  }

  /** Leading zeros are read as a number: "/api/games/007" is game 7. */
  lemma LeadingZerosRoute()
    ensures RouteOf("/api/games/007") == GetGame(7)
  {
    var p := "/api/games/007";
    assert p[..|GamePrefix|] == GamePrefix;
    assert p[|GamePrefix|..] == "007";
    assert DigitsValue("007") == 7 by {
      assert "007"[..2] == "00";
      assert "00"[..1] == "0";
      assert "0"[..0] == "";
    }
  }

  /** A missing id, a trailing non-digit and a sign all miss both routes. */
  lemma NotFoundRoutes()
    ensures RouteOf("/api/games/") == NotFound
    ensures RouteOf("/api/games/1a") == NotFound
    ensures RouteOf("/api/games/-1") == NotFound
    ensures RouteOf("/api/games/7/") == NotFound
  {
    assert "/api/games/1a"[|GamePrefix|..] == "1a";
    assert !IsDigit("1a"[1]);
    assert "/api/games/-1"[|GamePrefix|..] == "-1";
    assert !IsDigit("-1"[0]);
    assert "/api/games/7/"[|GamePrefix|..] == "7/";
    assert !IsDigit("7/"[1]);
  }

  // ---- responses --------------------------------------------------------------------

  datatype Body = GameList(games: seq<Game>) | OneGame(game: Game) | Text(text: string)

  datatype Response = Response(status: nat, body: Body, headers: seq<(string, string)>)

  const JsonHeaders: seq<(string, string)> := [("Content-Type", "application/json"), ("Access-Control-Allow-Origin", "*")]

  const Missing: Response := Response(404, Text("not found"), [])

  /** The rows `SELECT ... WHERE id = ?` returns from `table`, in table order. */
  function RowsWithId(table: seq<Game>, id: nat): seq<Game>
    decreases |table|
  {
    if table == [] then []
    else RowsWithId(table[..|table| - 1], id) + (if table[|table| - 1].id == id then [table[|table| - 1]] else [])
  }

  /**
   * The worker's answer for `pathname`: `listed` is what the list query returns
   * (the table in the database's name order), `table` is searched by id.
   */
  function Handle(pathname: string, listed: seq<Game>, table: seq<Game>): Response {
    match RouteOf(pathname)
    case ListGames => Response(200, GameList(listed), JsonHeaders)
    case GetGame(id) =>
      var rows := RowsWithId(table, id);
      if rows == [] then Missing else Response(200, OneGame(rows[0]), JsonHeaders)
    case NotFound => Missing
  }

  lemma {:induction false} RowsWithIdMembers(table: seq<Game>, id: nat)
    ensures forall g :: g in RowsWithId(table, id) <==> g in table && g.id == id
    decreases |table|
  {
    if table != [] {
      RowsWithIdMembers(table[..|table| - 1], id);
      assert table == table[..|table| - 1] + [table[|table| - 1]];
    }
  }

  /** The first row `RowsWithId` returns is the earliest row of the table with that id. */
  lemma {:induction false} RowsWithIdFirst(table: seq<Game>, id: nat) returns (i: nat)
    requires RowsWithId(table, id) != []
    ensures i < |table| && table[i] == RowsWithId(table, id)[0] && table[i].id == id
    ensures forall j :: 0 <= j < i ==> table[j].id != id
    decreases |table|
  {
    var front := table[..|table| - 1];
    if RowsWithId(front, id) != [] {
      i := RowsWithIdFirst(front, id);
    } else {
      RowsWithIdMembers(front, id);
      i := |table| - 1;
      forall j | 0 <= j < i
        ensures table[j].id != id
      {
        assert table[j] == front[j];
        assert front[j] in front;
      }
    }
  }

  /**
   * Every answer is either a 404 "not found" without headers or a 200 carrying the
   * JSON content type and the open CORS header; a game answer is the earliest row
   * with the requested id, and it is missing only when no row has that id.
   */
  lemma HandleAnswers(pathname: string, listed: seq<Game>, table: seq<Game>)
    ensures var r := Handle(pathname, listed, table);
      (r.status == 404 && r == Missing) || (r.status == 200 && r.headers == JsonHeaders)
    ensures var r := Handle(pathname, listed, table);
      RouteOf(pathname) == NotFound ==> r == Missing
    ensures var r := Handle(pathname, listed, table);
      RouteOf(pathname) == ListGames ==> r.body == GameList(listed) && r.status == 200
    ensures var r := Handle(pathname, listed, table);
      RouteOf(pathname).GetGame? ==>
        (r == Missing <==> forall g :: g in table ==> g.id != RouteOf(pathname).id) &&
        (r.status == 200 ==> r.body.OneGame? && r.body.game in table && r.body.game.id == RouteOf(pathname).id) &&
        (r.status == 200 ==> exists i :: 0 <= i < |table| && table[i] == r.body.game &&
                                         forall j :: 0 <= j < i ==> table[j].id != RouteOf(pathname).id)
  {
    if RouteOf(pathname).GetGame? {
      var id := RouteOf(pathname).id;
      var rows := RowsWithId(table, id);
      RowsWithIdMembers(table, id);
      if rows != [] {
        assert rows[0] in rows;
        var i := RowsWithIdFirst(table, id);
      }
    }
  }
}
