/** The provider routes of routes/providers.js: request validation and the
    shape of each reply around one SQL query. The PostgreSQL pool is
    represented by the query it is sent and the answer it gives. */
module Providers {
  import opened Results
  import opened Js

  const InsertSql := "INSERT INTO providers (provider_id, provider_name, provider_city) VALUES ($1, $2, $3)"
  const SelectAllSql := "SELECT * FROM providers"
  const SelectByIdSql := "SELECT * FROM providers WHERE provider_id = $1"
  const UpdateSql := "UPDATE providers SET provider_name = $1, provider_city = $2 WHERE provider_id = $3"
  const DeleteSql := "DELETE FROM providers WHERE provider_id = $1"

  const MissingFields := "provider_id and provider_name are required"
  const ProviderCreated := "Provider created"
  const ProviderUpdated := "Provider updated"
  const ProviderDeleted := "Provider deleted"

  /** The properties of the JSON request body the handlers read. */
  datatype ProviderBody = ProviderBody(providerId: Value, providerName: Value, providerCity: Value)

  /** A parameterised query as handed to `pool.query`. */
  datatype Query = Query(sql: string, params: seq<Value>)

  /** A row, column name to value. */
  type Row = map<string, Value>

  /** A failed query: the error's `message` and its `detail` (undefined for
      errors that carry none). */
  datatype DbError = DbError(message: string, detail: Value)

  /** What `pool.query` settles to. */
  datatype Answer = Rows(rows: seq<Row>, rowCount: nat) | Failed(err: DbError)

  /** The JSON bodies the routes reply with. */
  datatype Body =
    | Message(message: string, providerId: Option<Value>)
    | ErrorBody(error: string, detail: Option<Value>)
    | RowList(rows: seq<Row>)
    | OneRow(row: Row)

  datatype Reply = Reply(status: nat, body: Body)

  /** The query a handler sends (none when it replies before querying) and
      its reply. */
  datatype Exchange = Exchange(query: Option<Query>, reply: Reply)

  /** The 500 reply of the GET, PUT and DELETE handlers: the error message
      only. */
  function ServerError(e: DbError): Reply {
    Reply(500, ErrorBody(e.message, None))
  }

  /** POST / : both `provider_id` and `provider_name` must be truthy, else
      400 and no query. Otherwise the row is inserted with a falsy city
      stored as null; a failing insert replies 500 with the error's message
      and detail, a successful one echoes the id. `answer` is what the
      insert would settle to. */
  function CreateProvider(body: ProviderBody, answer: Answer): (x: Exchange)
    ensures x.reply.status == 400 <==> !Truthy(body.providerId) || !Truthy(body.providerName)
    ensures x.reply.status == 400 ==> x.query == None && x.reply.body == ErrorBody(MissingFields, None)
    ensures x.reply.status != 400 ==>
              x.query == Some(Query(InsertSql, [body.providerId, body.providerName, Or(body.providerCity, Null)]))
    ensures x.reply.status == 500 <==> x.reply.status != 400 && answer.Failed?
    ensures x.reply.status == 500 ==>
              x.reply.body == ErrorBody(answer.err.message, Some(answer.err.detail))
    ensures x.reply.status == 200 ==> x.reply.body == Message(ProviderCreated, Some(body.providerId))
    ensures x.reply.status in {200, 400, 500}
  {
    if !Truthy(body.providerId) || !Truthy(body.providerName) then
      Exchange(None, Reply(400, ErrorBody(MissingFields, None)))
    else
      var q := Query(InsertSql, [body.providerId, body.providerName, Or(body.providerCity, Null)]);
      match answer
      case Failed(e) => Exchange(Some(q), Reply(500, ErrorBody(e.message, Some(e.detail))))
      case Rows(_, _) => Exchange(Some(q), Reply(200, Message(ProviderCreated, Some(body.providerId))))
  }

  /** The stored city is never a falsy value other than null: an empty
      string, `false`, `0` or a missing city all become null, and a truthy
      city is stored as given. */
  lemma CreateStoresCityOrNull(body: ProviderBody, answer: Answer)
    requires Truthy(body.providerId) && Truthy(body.providerName)
    ensures var city := CreateProvider(body, answer).query.value.params[2];
            (city == Null <==> !Truthy(body.providerCity)) &&
            (Truthy(body.providerCity) ==> city == body.providerCity)
  {
  }

  /** GET / : every row, or 500 with the error message. */
  function ListProviders(answer: Answer): (x: Exchange)
    ensures x.query == Some(Query(SelectAllSql, []))
    ensures answer.Rows? ==> x.reply == Reply(200, RowList(answer.rows))
    ensures answer.Failed? ==> x.reply == ServerError(answer.err)
  {
    var q := Query(SelectAllSql, []);
    match answer
    case Failed(e) => Exchange(Some(q), ServerError(e))
    case Rows(rows, _) => Exchange(Some(q), Reply(200, RowList(rows)))
  }

  /** GET /:id : the first matching row, or the empty object when no row
      matches (a row is an object, so `rows[0] || {}` only falls back when
      there is no row). */
  function GetProvider(id: string, answer: Answer): (x: Exchange)
    ensures x.query == Some(Query(SelectByIdSql, [Str(id)]))
    ensures answer.Rows? && answer.rows != [] ==> x.reply == Reply(200, OneRow(answer.rows[0]))
    ensures answer.Rows? && answer.rows == [] ==> x.reply == Reply(200, OneRow(map[]))
    ensures answer.Failed? ==> x.reply == ServerError(answer.err)
  {
    var q := Query(SelectByIdSql, [Str(id)]);
    match answer
    case Failed(e) => Exchange(Some(q), ServerError(e))
    case Rows(rows, _) => Exchange(Some(q), Reply(200, OneRow(if rows != [] then rows[0] else map[])))
  }

  /** PUT /:id : the name and city are passed as received, without checks or
      defaults, and the reply does not depend on how many rows matched. */
  function UpdateProvider(id: string, body: ProviderBody, answer: Answer): (x: Exchange)
    ensures x.query == Some(Query(UpdateSql, [body.providerName, body.providerCity, Str(id)]))
    ensures answer.Rows? ==> x.reply == Reply(200, Message(ProviderUpdated, None))
    ensures answer.Failed? ==> x.reply == ServerError(answer.err)
  {
    var q := Query(UpdateSql, [body.providerName, body.providerCity, Str(id)]);
    match answer
    case Failed(e) => Exchange(Some(q), ServerError(e))
    case Rows(_, _) => Exchange(Some(q), Reply(200, Message(ProviderUpdated, None)))
  }

  /** DELETE /:id : success whatever number of rows was removed. */
  function DeleteProvider(id: string, answer: Answer): (x: Exchange)
    ensures x.query == Some(Query(DeleteSql, [Str(id)]))
    ensures answer.Rows? ==> x.reply == Reply(200, Message(ProviderDeleted, None))
    ensures answer.Failed? ==> x.reply == ServerError(answer.err)
  {
    var q := Query(DeleteSql, [Str(id)]);
    match answer
    case Failed(e) => Exchange(Some(q), ServerError(e))
    case Rows(_, _) => Exchange(Some(q), Reply(200, Message(ProviderDeleted, None)))
  }

  /** Updating or deleting an unknown provider is indistinguishable from
      updating or deleting an existing one. */
  lemma RowCountIsInvisible(id: string, body: ProviderBody, rows1: seq<Row>, n1: nat, rows2: seq<Row>, n2: nat)
    ensures UpdateProvider(id, body, Rows(rows1, n1)) == UpdateProvider(id, body, Rows(rows2, n2))
    ensures DeleteProvider(id, Rows(rows1, n1)) == DeleteProvider(id, Rows(rows2, n2))
  {
  }
}
