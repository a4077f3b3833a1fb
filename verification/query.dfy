/**
 The lookup behind `POST /query`: which column of the `users` table is
 searched, with which parameter, and which rows come back. The SQLite library
 is represented by a function from the statement text and its bound parameter
 to the rows the statement yields.
 */
module Query {
  import opened Wrappers
  import FormData

  /** The three searchable columns of the `users` table. */
  datatype Column = Phone | Qq | Email

  /** The form key, and column name, of a column. */
  function ColumnName(c: Column): string
  {
    match c
    case Phone => "phone"
    case Qq => "qq"
    case Email => "email"
  }

  /** Lower rank is consulted first: phone, then qq, then email. */
  function Rank(c: Column): nat
  {
    match c
    case Phone => 0
    case Qq => 1
    case Email => 2
  }

  /** The prepared statement searching one column, with the value bound as `?1`. */
  function Statement(c: Column): string
  {
    "SELECT email, phone, qq FROM users WHERE " + ColumnName(c) + " = ?1"
  }

  /** The column chosen and the raw form value bound to the statement. */
  datatype Lookup = Lookup(column: Column, param: string)

  /**
   The key selection at the head of `query_database`: `phone` if the form has
   it, else `qq`, else `email`; nothing when the form has none of the three.
   */
  function SelectLookup(form: FormData.Form): (r: Option<Lookup>)
    ensures r.None? <==> forall c: Column :: ColumnName(c) !in form
    ensures r.Some? ==> ColumnName(r.value.column) in form
    ensures r.Some? ==> r.value.param == form[ColumnName(r.value.column)]
    ensures r.Some? ==> forall c: Column :: Rank(c) < Rank(r.value.column) ==> ColumnName(c) !in form
  {
    assert ColumnName(Phone) == "phone" && ColumnName(Qq) == "qq" && ColumnName(Email) == "email";
    if "phone" in form then Some(Lookup(Phone, form["phone"]))
    else if "qq" in form then Some(Lookup(Qq, form["qq"]))
    else if "email" in form then Some(Lookup(Email, form["email"]))
    else None
  }

  /**
   The selection is the only lookup that names a present key, binds that
   key's value and has no present key of higher priority.
   */
  lemma SelectLookupUnique(form: FormData.Form, l: Lookup)
    requires ColumnName(l.column) in form && l.param == form[ColumnName(l.column)]
    requires forall c: Column :: Rank(c) < Rank(l.column) ==> ColumnName(c) !in form
    ensures SelectLookup(form) == Some(l)
  {
  }

  /** A user row; a column that is NULL or of the wrong type is absent. */
  datatype UserInfo = UserInfo(email: Option<string>, phone: Option<string>, qq: Option<string>)

  /**
   What the database does with one statement and parameter: it cannot be
   opened, prepared or run (`Failed`), or it yields rows, each a user or a
   row error reported by the library (`None`).
   */
  datatype QueryAnswer = Failed | Rows(rows: seq<Option<UserInfo>>)

  type Database = (string, string) -> QueryAnswer

  /** The users of the answer, in order; row errors are skipped. */
  function KeepDecoded(rows: seq<Option<UserInfo>>): (users: seq<UserInfo>)
    ensures |users| <= |rows|
    ensures forall u :: u in users <==> Some(u) in rows
  {
    if |rows| == 0 then []
    else
      var rest := KeepDecoded(rows[1..]);
      assert forall x :: x in rows <==> x == rows[0] || x in rows[1..];
      match rows[0]
      case None => rest
      case Some(u) => [u] + rest
  }

  /** Skipping row errors keeps the order of the remaining users. */
  lemma {:induction false} KeepDecodedAppend(xs: seq<Option<UserInfo>>, ys: seq<Option<UserInfo>>)
    ensures KeepDecoded(xs + ys) == KeepDecoded(xs) + KeepDecoded(ys)
    decreases |xs|
  {
    if |xs| == 0 {
      assert xs + ys == ys;
    } else {
      assert (xs + ys)[1..] == xs[1..] + ys;
      KeepDecodedAppend(xs[1..], ys);
    }
  }

  /**
   `query_database`: the users found under the selected key, or the empty
   list when no key is selected or the database step fails.
   */
  function QueryDatabase(form: FormData.Form, db: Database): (users: seq<UserInfo>)
    ensures SelectLookup(form).None? ==> users == []
    ensures forall u :: u in users ==>
              SelectLookup(form).Some? &&
              var l := SelectLookup(form).value;
              db(Statement(l.column), l.param).Rows? && Some(u) in db(Statement(l.column), l.param).rows
    ensures SelectLookup(form).Some? ==>
              var l := SelectLookup(form).value;
              var a := db(Statement(l.column), l.param);
              (a.Failed? ==> users == []) && (a.Rows? ==> users == KeepDecoded(a.rows))
  {
    match SelectLookup(form)
    case None => []
    case Some(l) =>
      match db(Statement(l.column), l.param)
      case Failed => []
      case Rows(rows) => KeepDecoded(rows)
  }

  /** Without any of the three keys the database is never consulted. */
  lemma NoKeyNoAccess(form: FormData.Form, db1: Database, db2: Database)
    requires "phone" !in form && "qq" !in form && "email" !in form
    ensures QueryDatabase(form, db1) == QueryDatabase(form, db2) == []
  {
  }

  /**
   Only the selected statement and raw value are sent to the database: two
   databases that agree on it give the same answer.
   */
  lemma OnlySelectedLookupConsulted(form: FormData.Form, db1: Database, db2: Database)
    requires SelectLookup(form).Some?
    requires var l := SelectLookup(form).value;
             db1(Statement(l.column), l.param) == db2(Statement(l.column), l.param)
    ensures QueryDatabase(form, db1) == QueryDatabase(form, db2)
  {
  }

  /** `phone` is used whenever present, whatever `qq` and `email` hold. */
  lemma PhoneTakesPriority(form: FormData.Form)
    requires "phone" in form
    ensures SelectLookup(form) == Some(Lookup(Phone, form["phone"]))
  {
  }

  /**
   A body ending in `&phone=<v>` searches by phone with `v` as written, whatever
   keys precede it: no percent-decoding, no `+` translation.
   */
  lemma TrailingPhoneSelected(a: string, v: string)
    requires '&' !in v
    ensures SelectLookup(FormData.ParseFormData(a + "&" + "phone" + "=" + v)) == Some(Lookup(Phone, v))
  {
    FormData.LastBindingWins(a, "phone", v);
    PhoneTakesPriority(FormData.ParseFormData(a + "&" + "phone" + "=" + v));
  }
}
