/** The `/api/weights` endpoint: `POST` authenticates, validates and upserts
    one entry keyed on `(who, date)`; `GET` lists every entry ordered by date.
    The hosted table is modelled by `WeightsTable`, whose rows stand for what
    the backend holds; the backend's own failures arrive as a `BackendReply`. */
module WeightsRoute {
  import opened Entries

  const Unauthorized := "Unauthorized"
  const MissingFields := "Missing required fields"

  /** What the handler reads from a `POST`: the `authorization` header
      (`None` when absent) and the three destructured body properties. */
  datatype Request = Request(authorization: Option<string>, who: Value, date: Value, kg: Value)

  datatype Body = Error(message: string) | Rows(rows: seq<Entry>)
  datatype Response = Response(status: int, body: Body)

  /** The backend's answer to one query: done, or an error with its message. */
  datatype BackendReply = Done | Failed(message: string)

  /** The conflict target of the upsert, `onConflict: 'who,date'`. */
  datatype Key = Key(who: Value, date: Value)

  function KeyOf(e: Entry): Key
  {
    Key(e.who, e.date)
  }

  /** The header value the handler demands. The secret comes from the
      environment; when it is unset the template literal renders it as
      `undefined`. */
  function ExpectedAuth(secret: Option<string>): string
  {
    "Bearer " + match secret case Some(s) => s case None => "undefined"
  }

  /** The header a set secret demands names that secret: no header passes
      under two different set secrets. An unset secret demands the header of
      the secret `undefined`. */
  lemma HeaderDeterminesSecret(s1: string, s2: string)
    ensures ExpectedAuth(Some(s1)) == ExpectedAuth(Some(s2)) <==> s1 == s2
    ensures ExpectedAuth(None) == ExpectedAuth(Some("undefined"))
  {
    if ExpectedAuth(Some(s1)) == ExpectedAuth(Some(s2)) {
      assert ExpectedAuth(Some(s1))[7..] == s1;
      assert ExpectedAuth(Some(s2))[7..] == s2;
    }
  }

  /** How the handler classifies a request before it touches the backend. */
  datatype Verdict = Unauthenticated | Incomplete | Accepted(entry: Entry)

  predicate Authorized(req: Request, secret: Option<string>)
  {
    req.authorization == Some(ExpectedAuth(secret))
  }

  /** The presence test: `who` and `date` must be truthy, `kg` only defined. */
  predicate HasRequiredFields(req: Request)
  {
    Truthy(req.who) && Truthy(req.date) && !req.kg.Undefined?
  }

  function Classify(req: Request, secret: Option<string>): (v: Verdict)
    ensures v.Unauthenticated? <==> !Authorized(req, secret)
    ensures v.Incomplete? <==> Authorized(req, secret) && !HasRequiredFields(req)
    ensures v.Accepted? <==> Authorized(req, secret) && HasRequiredFields(req)
    ensures v.Accepted? ==> v.entry == Entry(req.who, req.date, req.kg)
  {
    if req.authorization != Some(ExpectedAuth(secret)) then Unauthenticated
    else if !Truthy(req.who) || !Truthy(req.date) || req.kg == Undefined then Incomplete
    else Accepted(Entry(req.who, req.date, req.kg))
  }

  /** The credential is checked first: a bad credential with missing fields is 401, not 400. */
  lemma CredentialBeforeFields(req: Request, secret: Option<string>)
    requires !Authorized(req, secret) && !HasRequiredFields(req)
    ensures Classify(req, secret) == Unauthenticated
  {
  }

  /** Any defined `kg` passes, including zero, negatives, `null` and non-numbers. */
  lemma AnyDefinedKgPasses(req: Request, secret: Option<string>)
    requires Authorized(req, secret) && Truthy(req.who) && Truthy(req.date)
    ensures Classify(req, secret).Accepted? <==> req.kg != Undefined
  {
  }

  /** With the secret unset, the literal header `Bearer undefined` is accepted. */
  lemma UnsetSecretAcceptsLiteral(req: Request)
    requires req.authorization == Some("Bearer undefined")
    ensures Authorized(req, None)
  {
    assert ExpectedAuth(None) == "Bearer undefined";
  }

  // ---------------------------------------------------------------------------
  // The table: its rows, its abstract key-to-kg map, and the upsert

  /** No two rows share a `(who, date)` key: the table's uniqueness constraint. */
  ghost predicate UniqueKeys(rows: seq<Entry>)
  {
    forall i, j :: 0 <= i < j < |rows| ==> KeyOf(rows[i]) != KeyOf(rows[j])
  }

  /** The table seen as a map from `(who, date)` to `kg`. */
  function StoreOf(rows: seq<Entry>): (r: map<Key, Value>)
    ensures forall e :: e in rows ==> KeyOf(e) in r
  {
    if rows == [] then map[] else StoreOf(rows[1..])[KeyOf(rows[0]) := rows[0].kg]
  }

  /** The backend's insert-or-replace on the conflict target `(who, date)`:
      an existing row with the key is replaced in place, otherwise the row is
      appended. */
  function Upsert(rows: seq<Entry>, e: Entry): (r: seq<Entry>)
    ensures StoreOf(r) == StoreOf(rows)[KeyOf(e) := e.kg]
  {
    if rows == [] then [e]
    else if KeyOf(rows[0]) == KeyOf(e) then
      assert ([e] + rows[1..])[1..] == rows[1..];
      [e] + rows[1..]
    else
      var rest := Upsert(rows[1..], e);
      assert ([rows[0]] + rest)[1..] == rest;
      [rows[0]] + rest
  }

  /** The upsert's rows: the new one, and the old ones except the row it replaced. */
  lemma {:induction false} UpsertRows(rows: seq<Entry>, e: Entry)
    ensures e in Upsert(rows, e)
    ensures forall x :: x in Upsert(rows, e) ==> x == e || x in rows
    ensures forall x :: x in rows && KeyOf(x) != KeyOf(e) ==> x in Upsert(rows, e)
  {
    if rows != [] && KeyOf(rows[0]) != KeyOf(e) {
      UpsertRows(rows[1..], e);
      assert rows == [rows[0]] + rows[1..];
    }
  }

  lemma {:induction false} UpsertKeepsUnique(rows: seq<Entry>, e: Entry)
    requires UniqueKeys(rows)
    ensures UniqueKeys(Upsert(rows, e))
    ensures forall x :: x in Upsert(rows, e) && KeyOf(x) == KeyOf(e) ==> x == e
  {
    UpsertRows(rows, e);
    if rows != [] && KeyOf(rows[0]) != KeyOf(e) {
      UpsertKeepsUnique(rows[1..], e);
      UpsertRows(rows[1..], e);
      var r := Upsert(rows, e);
      forall i, j | 0 <= i < j < |r| ensures KeyOf(r[i]) != KeyOf(r[j]) {
        if i == 0 {
          assert r[j] in Upsert(rows[1..], e);
          if r[j] != e {
            assert r[j] in rows[1..];
            var j' :| 1 <= j' < |rows| && rows[j'] == r[j];
            assert KeyOf(rows[0]) != KeyOf(rows[j']);
          }
        }
      }
    } else if rows != [] {
      var r := Upsert(rows, e);
      forall i, j | 0 <= i < j < |r| ensures KeyOf(r[i]) != KeyOf(r[j]) {
        if i == 0 {
          assert KeyOf(rows[0]) != KeyOf(rows[j]);
        } else {
          assert KeyOf(rows[i]) != KeyOf(rows[j]);
        }
      }
    }
  }

  /** Writing the same entry twice leaves the table as one write did. */
  lemma {:induction false} UpsertIdempotent(rows: seq<Entry>, e: Entry)
    ensures Upsert(Upsert(rows, e), e) == Upsert(rows, e)
  {
    if rows != [] && KeyOf(rows[0]) != KeyOf(e) {
      UpsertIdempotent(rows[1..], e);
    }
  }

  /** Last write wins: two writes to one key leave only the second `kg` there,
      and every other key as it was. */
  lemma LastWriteWins(rows: seq<Entry>, e1: Entry, e2: Entry)
    requires UniqueKeys(rows) && KeyOf(e1) == KeyOf(e2)
    ensures StoreOf(Upsert(Upsert(rows, e1), e2)) == StoreOf(rows)[KeyOf(e2) := e2.kg]
  {
  }

  /** Two writes to one key leave exactly one row with that key: the second entry. */
  lemma LastWriteOnly(rows: seq<Entry>, e1: Entry, e2: Entry)
    requires UniqueKeys(rows) && KeyOf(e1) == KeyOf(e2)
    ensures UniqueKeys(Upsert(Upsert(rows, e1), e2))
    ensures multiset(Upsert(Upsert(rows, e1), e2))[e2] == 1
    ensures forall x :: x in Upsert(Upsert(rows, e1), e2) && KeyOf(x) == KeyOf(e2) ==> x == e2
  {
    var r1 := Upsert(rows, e1);
    UpsertKeepsUnique(rows, e1);
    UpsertKeepsUnique(r1, e2);
    UpsertOnce(r1, e2);
  }

  /** After an upsert into a table with unique keys, the entry is stored exactly once. */
  lemma UpsertOnce(rows: seq<Entry>, e: Entry)
    requires UniqueKeys(rows)
    ensures multiset(Upsert(rows, e))[e] == 1
  {
    UpsertKeepsUnique(rows, e);
    UpsertRows(rows, e);
    UniqueOnce(Upsert(rows, e), e);
  }

  /** With unique keys, a row that is present is present exactly once. */
  lemma {:induction false} UniqueOnce(s: seq<Entry>, x: Entry)
    requires UniqueKeys(s) && x in s
    ensures multiset(s)[x] == 1
  {
    assert s == [s[0]] + s[1..];
    if s[0] == x {
      forall j | 1 <= j < |s| ensures s[j] != x {
        assert KeyOf(s[0]) != KeyOf(s[j]);
      }
      assert x !in s[1..];
    } else {
      assert UniqueKeys(s[1..]) by {
        forall i, j | 0 <= i < j < |s[1..]| ensures KeyOf(s[1..][i]) != KeyOf(s[1..][j]) {
          assert s[1..][i] == s[i + 1] && s[1..][j] == s[j + 1];
        }
      }
      UniqueOnce(s[1..], x);
    }
  }

  /** In a table with unique keys, a row is present exactly when the map holds its kg. */
  lemma {:induction false} RowsMatchStore(rows: seq<Entry>, e: Entry)
    requires UniqueKeys(rows)
    ensures e in rows <==> KeyOf(e) in StoreOf(rows) && StoreOf(rows)[KeyOf(e)] == e.kg
  {
    if rows != [] {
      assert UniqueKeys(rows[1..]) by {
        forall i, j | 0 <= i < j < |rows[1..]| ensures KeyOf(rows[1..][i]) != KeyOf(rows[1..][j]) {
          assert rows[1..][i] == rows[i + 1] && rows[1..][j] == rows[j + 1];
        }
      }
      RowsMatchStore(rows[1..], e);
      if KeyOf(e) == KeyOf(rows[0]) {
        forall j | 1 <= j < |rows| ensures rows[j] != e {
          assert KeyOf(rows[0]) != KeyOf(rows[j]);
        }
        assert e !in rows[1..];
      }
    }
  }

  // ---------------------------------------------------------------------------
  // Ordering by date

  function Rank(v: Value): nat
  {
    match v
    case Undefined => 0
    case Null => 1
    case Bool(_) => 2
    case Num(_) => 3
    case Str(_) => 4
    case Compound => 5
  }

  /** The order of the date column that `.order('date', { ascending: true })`
      sorts by. Dates are ISO `YYYY-MM-DD` strings, for which lexicographic
      order is chronological order; values of other JSON types are placed in
      a fixed order by kind. */
  predicate DateLe(a: Value, b: Value)
  {
    if Rank(a) != Rank(b) then Rank(a) < Rank(b)
    else match (a, b)
      case (Bool(x), Bool(y)) => !x || y
      case (Num(x), Num(y)) => x <= y
      case (Str(x), Str(y)) => LexLe(x, y)
      case _ => true
  }

  lemma DateLeTotal(a: Value, b: Value)
    ensures DateLe(a, b) || DateLe(b, a)
  {
    if a.Str? && b.Str? {
      LexLeTotal(a.s, b.s);
    }
  }

  lemma DateLeTransitive(a: Value, b: Value, c: Value)
    requires DateLe(a, b) && DateLe(b, c)
    ensures DateLe(a, c)
  {
    if a.Str? && b.Str? && c.Str? {
      LexLeTransitive(a.s, b.s, c.s);
    }
  }

  /** Each row's date is no later than its successor's. */
  predicate SortedByDate(rows: seq<Entry>)
  {
    forall i :: 0 < i < |rows| ==> DateLe(rows[i - 1].date, rows[i].date)
  }

  /** Non-decreasing between neighbours means non-decreasing between any two rows. */
  lemma {:induction false} SortedByDateAllPairs(rows: seq<Entry>, i: int, j: int)
    requires SortedByDate(rows) && 0 <= i <= j < |rows|
    ensures DateLe(rows[i].date, rows[j].date)
    decreases j - i
  {
    if i == j {
      DateLeTotal(rows[i].date, rows[i].date);
    } else {
      SortedByDateAllPairs(rows, i, j - 1);
      DateLeTransitive(rows[i].date, rows[j - 1].date, rows[j].date);
    }
  }

  function InsertByDate(e: Entry, rows: seq<Entry>): (r: seq<Entry>)
    requires SortedByDate(rows)
    ensures SortedByDate(r)
    ensures multiset(r) == multiset(rows) + multiset{e}
    ensures r[0] == e || (rows != [] && r[0] == rows[0])
  {
    if rows == [] || DateLe(e.date, rows[0].date) then [e] + rows
    else
      DateLeTotal(e.date, rows[0].date);
      assert rows == [rows[0]] + rows[1..];
      [rows[0]] + InsertByDate(e, rows[1..])
  }

  /** What the backend returns for the ordered select: the rows, by date. */
  function SortByDate(rows: seq<Entry>): (r: seq<Entry>)
    ensures SortedByDate(r)
    ensures multiset(r) == multiset(rows)
  {
    if rows == [] then []
    else
      assert rows == [rows[0]] + rows[1..];
      InsertByDate(rows[0], SortByDate(rows[1..]))
  }

  // ---------------------------------------------------------------------------
  // The handlers

  class WeightsTable {
    var rows: seq<Entry>

    ghost predicate Valid()
      reads this
    {
      UniqueKeys(rows)
    }

    /** The table as a map from `(who, date)` to `kg`. */
    function Store(): map<Key, Value>
      reads this
    {
      StoreOf(rows)
    }

    constructor ()
      ensures Valid() && rows == []
    {
      rows := [];
    }

    /** `POST /api/weights`: 401 on a bad credential, then 400 on missing
        fields, then the upsert, whose failure is a 500 carrying the
        backend's message. Only a 200 changes the table. */
    method Post(req: Request, secret: Option<string>, reply: BackendReply) returns (resp: Response)
      requires Valid()
      modifies this
      ensures Valid()
      ensures !Authorized(req, secret) ==>
        resp == Response(401, Error(Unauthorized)) && rows == old(rows)
      ensures Authorized(req, secret) && !HasRequiredFields(req) ==>
        resp == Response(400, Error(MissingFields)) && rows == old(rows)
      ensures Authorized(req, secret) && HasRequiredFields(req) && reply.Failed? ==>
        resp == Response(500, Error(reply.message)) && rows == old(rows)
      ensures Authorized(req, secret) && HasRequiredFields(req) && reply.Done? ==>
        var e := Entry(req.who, req.date, req.kg);
        resp == Response(200, Rows([e])) && rows == Upsert(old(rows), e)
      ensures Store() == if resp.status == 200 then old(Store())[Key(req.who, req.date) := req.kg] else old(Store())
    {
      var verdict := Classify(req, secret);
      if verdict.Unauthenticated? {
        return Response(401, Error(Unauthorized));
      }
      if verdict.Incomplete? {
        return Response(400, Error(MissingFields));
      }
      if reply.Failed? {
        return Response(500, Error(reply.message));
      }
      UpsertKeepsUnique(rows, verdict.entry);
      rows := Upsert(rows, verdict.entry);
      resp := Response(200, Rows([verdict.entry]));
    }

    /** `GET /api/weights`: every stored row, in non-decreasing date order,
        or a 500 carrying the backend's message. */
    method Get(reply: BackendReply) returns (resp: Response)
      ensures reply.Failed? ==> resp == Response(500, Error(reply.message))
      ensures reply.Done? ==> resp.status == 200 && resp.body.Rows?
      ensures reply.Done? ==> SortedByDate(resp.body.rows) && multiset(resp.body.rows) == multiset(rows)
    {
      if reply.Failed? {
        return Response(500, Error(reply.message));
      }
      resp := Response(200, Rows(SortByDate(rows)));
    }
  }

  /** A listing holds, for every key, exactly the row whose kg the map holds. */
  lemma ListingMatchesStore(rows: seq<Entry>, e: Entry)
    requires UniqueKeys(rows)
    ensures e in SortByDate(rows) <==> KeyOf(e) in StoreOf(rows) && StoreOf(rows)[KeyOf(e)] == e.kg
  {
    RowsMatchStore(rows, e);
    assert e in SortByDate(rows) <==> e in multiset(SortByDate(rows));
  }

  /** Writing an entry and then listing shows exactly one row for its key: the entry. */
  lemma WriteThenList(rows: seq<Entry>, e: Entry)
    requires UniqueKeys(rows)
    ensures e in SortByDate(Upsert(rows, e))
    ensures multiset(SortByDate(Upsert(rows, e)))[e] == 1
    ensures forall x :: x in SortByDate(Upsert(rows, e)) && KeyOf(x) == KeyOf(e) ==> x == e
  {
    UpsertKeepsUnique(rows, e);
    UpsertRows(rows, e);
    var l := SortByDate(Upsert(rows, e));
    assert e in multiset(Upsert(rows, e));
    UniqueOnce(Upsert(rows, e), e);
    forall x | x in l && KeyOf(x) == KeyOf(e) ensures x == e {
      assert x in multiset(l);
    }
  }
}
