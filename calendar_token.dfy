/**
 * The `calendar_tokens` table: bearer tokens that expose one person's
 * calendar for one semester. The table is a sequence of rows held by a
 * `TokenTable` object; the unique index on `token` is its invariant. The
 * token generator (`uuid.uuid4()`) and the clock (`datetime.now()`) are the
 * parameters `token` and `now`.
 */
module CalendarToken {
  import opened Common

  /** The `people_type` enumeration of the `type` column. */
  datatype PeopleType = Student | Teacher

  /**
   * One row. `token` is the canonical text of the row's UUID; `createTime`
   * and `lastUsedTime` are abstract instants.
   */
  datatype Row = Row(kind: PeopleType, identifier: string, semester: string, token: string,
                     createTime: int, lastUsedTime: Option<int>)

  /** What `_parse` makes of a row: its first four columns, without the timestamps. */
  datatype TokenDoc = TokenDoc(kind: PeopleType, identifier: string, semester: string, token: string)

  /** The database rejects a second row with an existing token. */
  datatype InsertError = UniqueViolation

  /** `find_calendar_token` raises when it is given nothing to search by. */
  datatype FindError = ValueError

  predicate IsHexDigit(c: char) {
    '0' <= c <= '9' || 'a' <= c <= 'f'
  }

  /** `str(uuid)`: 32 lower-case hex digits in groups of 8-4-4-4-12. */
  predicate IsCanonicalUuid(s: string) {
    && |s| == 36
    && forall i :: 0 <= i < |s| ==>
         if i == 8 || i == 13 || i == 18 || i == 23 then s[i] == '-' else IsHexDigit(s[i])
  }

  /** The unique index `idx_token`: no two rows share a token. */
  predicate TokensUnique(rows: seq<Row>) {
    forall i, j :: 0 <= i < j < |rows| ==> rows[i].token != rows[j].token
  }

  predicate WellFormed(rows: seq<Row>) {
    && TokensUnique(rows)
    && forall i :: 0 <= i < |rows| ==> IsCanonicalUuid(rows[i].token)
  }

  predicate HasToken(rows: seq<Row>, token: string) {
    exists i :: 0 <= i < |rows| && rows[i].token == token
  }

  /** The row `insert_calendar_token` adds: created at `now`, never used. */
  function NewRow(kind: PeopleType, semester: string, identifier: string, token: string, now: int): Row {
    Row(kind, identifier, semester, token, now, None)
  }

  /** `_parse`. */
  function Parse(row: Row): TokenDoc {
    TokenDoc(row.kind, row.identifier, row.semester, row.token)
  }

  /** `_parse` tells two rows apart exactly when they differ outside the timestamps. */
  lemma ParseDropsOnlyTimestamps(a: Row, b: Row)
    ensures Parse(a) == Parse(b) <==> a.(createTime := b.createTime, lastUsedTime := b.lastUsedTime) == b
  {
  }

  // ---------------------------------------------------------------------
  // UPDATE calendar_tokens SET last_used_time = now WHERE token = t

  function Touched(rows: seq<Row>, token: string, now: int): (r: seq<Row>)
    ensures |r| == |rows|
  {
    if rows == [] then []
    else
      var head := if rows[0].token == token then rows[0].(lastUsedTime := Some(now)) else rows[0];
      [head] + Touched(rows[1..], token, now)
  }

  /** The update sets `last_used_time` on the row carrying the token and touches nothing else. */
  lemma {:induction false} TouchedAt(rows: seq<Row>, token: string, now: int, i: int)
    requires 0 <= i < |rows|
    ensures Touched(rows, token, now)[i] ==
              if rows[i].token == token then rows[i].(lastUsedTime := Some(now)) else rows[i]
  {
    if i > 0 {
      TouchedAt(rows[1..], token, now, i - 1);
    }
  }

  /** Updating a token no row carries changes nothing and raises nothing. */
  lemma {:induction false} TouchUnknownIsNoop(rows: seq<Row>, token: string, now: int)
    requires !HasToken(rows, token)
    ensures Touched(rows, token, now) == rows
  {
    if rows != [] {
      assert forall i :: 0 <= i < |rows[1..]| ==> rows[1..][i] == rows[i + 1];
      TouchUnknownIsNoop(rows[1..], token, now);
      assert [rows[0]] + rows[1..] == rows;
    }
  }

  lemma TouchKeepsWellFormed(rows: seq<Row>, token: string, now: int)
    requires WellFormed(rows)
    ensures WellFormed(Touched(rows, token, now))
  {
    var r := Touched(rows, token, now);
    forall i | 0 <= i < |rows|
      ensures r[i].token == rows[i].token
    {
      TouchedAt(rows, token, now, i);
    }
  }

  // ---------------------------------------------------------------------
  // DELETE FROM calendar_tokens WHERE identifier = id AND type = typ

  /**
   * Whether `reset_tokens(identifier, typ)` deletes `row`. A `None` type is
   * bound as SQL NULL, and `type = NULL` holds of no row.
   */
  predicate Revoked(row: Row, identifier: string, typ: Option<PeopleType>) {
    typ.Some? && row.kind == typ.value && row.identifier == identifier
  }

  /** The table after the delete: the surviving rows, in their old order. */
  function WithoutUser(rows: seq<Row>, identifier: string, typ: Option<PeopleType>): (r: seq<Row>)
    ensures forall row :: row in r <==> row in rows && !Revoked(row, identifier, typ)
    ensures |r| <= |rows|
  {
    if rows == [] then []
    else
      var rest := WithoutUser(rows[1..], identifier, typ);
      assert forall row :: row in rows <==> row == rows[0] || row in rows[1..];
      if Revoked(rows[0], identifier, typ) then rest else [rows[0]] + rest
  }

  /** The delete keeps order: deleting from a concatenation deletes from each part. */
  lemma {:induction false} WithoutUserAppend(a: seq<Row>, b: seq<Row>, identifier: string, typ: Option<PeopleType>)
    ensures WithoutUser(a + b, identifier, typ) == WithoutUser(a, identifier, typ) + WithoutUser(b, identifier, typ)
    decreases |a|
  {
    if a != [] {
      assert (a + b)[1..] == a[1..] + b;
      WithoutUserAppend(a[1..], b, identifier, typ);
    } else {
      assert a + b == b;
    }
  }

  /** Resetting twice is resetting once. */
  lemma {:induction false} WithoutUserIdempotent(rows: seq<Row>, identifier: string, typ: Option<PeopleType>)
    ensures WithoutUser(WithoutUser(rows, identifier, typ), identifier, typ) == WithoutUser(rows, identifier, typ)
    decreases |rows|
  {
    if rows != [] {
      var rest := WithoutUser(rows[1..], identifier, typ);
      WithoutUserIdempotent(rows[1..], identifier, typ);
      if !Revoked(rows[0], identifier, typ) {
        assert ([rows[0]] + rest)[1..] == rest;
      }
    }
  }

  /** A reset with a NULL type deletes nothing. */
  lemma {:induction false} WithoutNullTypeIsNoop(rows: seq<Row>, identifier: string)
    ensures WithoutUser(rows, identifier, None) == rows
    decreases |rows|
  {
    if rows != [] {
      WithoutNullTypeIsNoop(rows[1..], identifier);
      assert [rows[0]] + rows[1..] == rows;
    }
  }

  lemma {:induction false} WithoutUserKeepsWellFormed(rows: seq<Row>, identifier: string, typ: Option<PeopleType>)
    requires WellFormed(rows)
    ensures WellFormed(WithoutUser(rows, identifier, typ))
    decreases |rows|
  {
    if rows != [] {
      var rest := WithoutUser(rows[1..], identifier, typ);
      assert WellFormed(rows[1..]) by {
        forall i, j | 0 <= i < j < |rows[1..]|
          ensures rows[1..][i].token != rows[1..][j].token
        {
          assert rows[1..][i] == rows[i + 1] && rows[1..][j] == rows[j + 1];
        }
      }
      WithoutUserKeepsWellFormed(rows[1..], identifier, typ);
      if !Revoked(rows[0], identifier, typ) {
        var r := [rows[0]] + rest;
        forall j | 0 < j < |r|
          ensures r[0].token != r[j].token
        {
          assert r[j] in rows[1..];
          var k :| 0 <= k < |rows[1..]| && rows[1..][k] == r[j];
          assert rows[k + 1] == r[j];
        }
        assert forall i, j :: 0 < i < j < |r| ==> r[i] == rest[i - 1] && r[j] == rest[j - 1];
        forall i | 0 <= i < |r|
          ensures IsCanonicalUuid(r[i].token)
        {
          if i > 0 {
            assert r[i] == rest[i - 1] && rest[i - 1] in rest;
            assert r[i] in rows;
          }
        }
      }
    }
  }

  // ---------------------------------------------------------------------
  // SELECT ... FROM calendar_tokens WHERE ...

  /** The two WHERE clauses of `find_calendar_token`. */
  datatype Filter =
    | ByToken(token: string)
    | ByTriple(kind: PeopleType, identifier: Option<string>, semester: string)

  /** Whether a row satisfies the WHERE clause; `identifier = NULL` holds of no row. */
  predicate Matches(row: Row, f: Filter) {
    match f
    case ByToken(t) => row.token == t
    case ByTriple(k, id, sem) => row.kind == k && id.Some? && row.identifier == id.value && row.semester == sem
  }

  /** `cursor.fetchall()`: the matching rows, in table order. */
  function Select(rows: seq<Row>, f: Filter): (sel: seq<Row>)
    ensures forall row :: row in sel <==> row in rows && Matches(row, f)
    ensures sel == [] <==> forall row :: row in rows ==> !Matches(row, f)
  {
    if rows == [] then []
    else
      var rest := Select(rows[1..], f);
      assert forall row :: row in rows <==> row == rows[0] || row in rows[1..];
      if Matches(rows[0], f) then [rows[0]] + rest else rest
  }

  lemma {:induction false} SelectAppend(a: seq<Row>, b: seq<Row>, f: Filter)
    ensures Select(a + b, f) == Select(a, f) + Select(b, f)
    decreases |a|
  {
    if a != [] {
      assert (a + b)[1..] == a[1..] + b;
      SelectAppend(a[1..], b, f);
    } else {
      assert a + b == b;
    }
  }

  /** `_parse(result[0]) if result else None`. */
  function FirstDoc(sel: seq<Row>): Option<TokenDoc> {
    if sel == [] then None else Some(Parse(sel[0]))
  }

  /**
   * `d` is an acceptable answer to `f`: absent exactly when no row matches,
   * otherwise the projection of some matching row (the database returns the
   * matches in no defined order).
   */
  ghost predicate Answers(rows: seq<Row>, f: Filter, d: Option<TokenDoc>) {
    && (d.None? <==> forall row :: row in rows ==> !Matches(row, f))
    && (d.Some? ==> exists row :: row in rows && Matches(row, f) && d.value == Parse(row))
  }

  /** Python truthiness of an optional string: present and non-empty. */
  predicate Truthy(s: Option<string>) {
    s.Some? && s.value != ""
  }

  /**
   * `find_calendar_token(tid, sid, semester, token)`. A token takes precedence
   * over everything else; otherwise an id and a semester are needed, the kind
   * is teacher exactly when `tid` is given, and the identifier compared is
   * `tid` itself, even on the `sid` path.
   */
  function FindCalendarToken(rows: seq<Row>, tid: Option<string>, sid: Option<string>,
                             semester: Option<string>, token: Option<string>): (r: Result<Option<TokenDoc>, FindError>)
    requires Truthy(token) ==> IsCanonicalUuid(token.value)
    ensures r.Err? <==> !Truthy(token) && !((Truthy(tid) || Truthy(sid)) && Truthy(semester))
    ensures r.Ok? && Truthy(token) ==> Answers(rows, ByToken(token.value), r.value)
    ensures r.Ok? && !Truthy(token) ==>
              Answers(rows, ByTriple(if Truthy(tid) then Teacher else Student, tid, semester.value), r.value)
  {
    if Truthy(token) then
      Ok(FirstDoc(Select(rows, ByToken(token.value))))
    else if (Truthy(tid) || Truthy(sid)) && Truthy(semester) then
      var f := ByTriple(if Truthy(tid) then Teacher else Student, tid, semester.value);
      Ok(FirstDoc(Select(rows, f)))
    else
      Err(ValueError)
  }

  /** When a token is given, the other arguments are ignored: no error, and the same answer. */
  lemma TokenTakesPrecedence(rows: seq<Row>, tid: Option<string>, sid: Option<string>,
                             semester: Option<string>, token: Option<string>)
    requires Truthy(token) && IsCanonicalUuid(token.value)
    ensures FindCalendarToken(rows, tid, sid, semester, token) == FindCalendarToken(rows, None, None, None, token)
    ensures FindCalendarToken(rows, tid, sid, semester, token).Ok?
  {
  }

  /** In a well-formed table, looking a row's token up returns exactly that row's projection. */
  lemma FindByTokenIsExact(rows: seq<Row>, i: int)
    requires WellFormed(rows) && 0 <= i < |rows|
    ensures FindCalendarToken(rows, None, None, None, Some(rows[i].token)) == Ok(Some(Parse(rows[i])))
  {
    var sel := Select(rows, ByToken(rows[i].token));
    assert rows[i] in sel;
    assert sel[0] in rows;
    var j :| 0 <= j < |rows| && rows[j] == sel[0];
    assert j == i;
  }

  /** A lookup by teacher id and semester finds a teacher row of that id and semester, or none exists. */
  lemma FindByTeacher(rows: seq<Row>, tid: string, semester: string)
    requires tid != "" && semester != ""
    ensures var r := FindCalendarToken(rows, Some(tid), None, Some(semester), None);
            && r.Ok?
            && (r.value.Some? ==> r.value.value.kind == Teacher && r.value.value.identifier == tid
                                  && r.value.value.semester == semester)
            && (r.value.None? <==> forall row :: row in rows ==>
                                     !(row.kind == Teacher && row.identifier == tid && row.semester == semester))
  {
    var r := FindCalendarToken(rows, Some(tid), None, Some(semester), None);
    if r.value.Some? {
      var row :| row in rows && Matches(row, ByTriple(Teacher, Some(tid), semester)) && r.value.value == Parse(row);
    }
  }

  /** A lookup by student id alone binds a NULL identifier and never finds anything. */
  lemma FindBySidNeverMatches(rows: seq<Row>, sid: string, semester: string)
    requires sid != "" && semester != ""
    ensures FindCalendarToken(rows, None, Some(sid), Some(semester), None) == Ok(None)
  {
  }

  /**
   * `find_calendar_token` as its docstring describes it: the identifier
   * compared on the triple path is `tid` when given and `sid` otherwise.
   */
  function FindCalendarTokenFixed(rows: seq<Row>, tid: Option<string>, sid: Option<string>,
                                  semester: Option<string>, token: Option<string>): (r: Result<Option<TokenDoc>, FindError>)
    requires Truthy(token) ==> IsCanonicalUuid(token.value)
    ensures r.Err? <==> !Truthy(token) && !((Truthy(tid) || Truthy(sid)) && Truthy(semester))
    ensures r.Ok? && Truthy(token) ==> Answers(rows, ByToken(token.value), r.value)
    ensures r.Ok? && !Truthy(token) ==>
              Answers(rows, ByTriple(if Truthy(tid) then Teacher else Student,
                                     if Truthy(tid) then tid else sid, semester.value), r.value)
  {
    if Truthy(token) then
      Ok(FirstDoc(Select(rows, ByToken(token.value))))
    else if (Truthy(tid) || Truthy(sid)) && Truthy(semester) then
      var f := ByTriple(if Truthy(tid) then Teacher else Student, if Truthy(tid) then tid else sid, semester.value);
      Ok(FirstDoc(Select(rows, f)))
    else
      Err(ValueError)
  }

  /** The corrected lookup finds a student by id and semester, and answers absent only when there is none. */
  lemma FixedFindByStudent(rows: seq<Row>, sid: string, semester: string)
    requires sid != "" && semester != ""
    ensures var r := FindCalendarTokenFixed(rows, None, Some(sid), Some(semester), None);
            && r.Ok?
            && (r.value.Some? ==> r.value.value.kind == Student && r.value.value.identifier == sid
                                  && r.value.value.semester == semester)
            && (r.value.None? <==> forall row :: row in rows ==>
                                     !(row.kind == Student && row.identifier == sid && row.semester == semester))
  {
    var r := FindCalendarTokenFixed(rows, None, Some(sid), Some(semester), None);
    if r.value.Some? {
      var row :| row in rows && Matches(row, ByTriple(Student, Some(sid), semester)) && r.value.value == Parse(row);
    }
  }

  /** The correction changes nothing unless the search is by student id alone. */
  lemma FixedAgreesUnlessSidOnly(rows: seq<Row>, tid: Option<string>, sid: Option<string>,
                                 semester: Option<string>, token: Option<string>)
    requires Truthy(token) ==> IsCanonicalUuid(token.value)
    requires Truthy(token) || Truthy(tid) || !Truthy(sid)
    ensures FindCalendarTokenFixed(rows, tid, sid, semester, token) == FindCalendarToken(rows, tid, sid, semester, token)
  {
  }

  /** A stored student token that the lookup by student id misses and the corrected lookup finds. */
  lemma SidLookupMissesStoredRow()
    ensures var row := NewRow(Student, "2023-Fall", "2020001", "0f8fad5b-d9cb-469f-a165-70867728950e", 0);
            && FindCalendarToken([row], None, Some("2020001"), Some("2023-Fall"), None) == Ok(None)
            && FindCalendarTokenFixed([row], None, Some("2020001"), Some("2023-Fall"), None) == Ok(Some(Parse(row)))
  {
    var row := NewRow(Student, "2023-Fall", "2020001", "0f8fad5b-d9cb-469f-a165-70867728950e", 0);
    assert Select([row], ByTriple(Student, Some("2020001"), "2023-Fall")) == [row];
  }

  /** A newly inserted token is found, with the arguments of the insert. */
  lemma {:induction false} FindAfterInsert(rows: seq<Row>, kind: PeopleType, semester: string, identifier: string,
                                           token: string, now: int)
    requires IsCanonicalUuid(token) && !HasToken(rows, token)
    ensures FindCalendarToken(rows + [NewRow(kind, semester, identifier, token, now)], None, None, None, Some(token))
            == Ok(Some(TokenDoc(kind, identifier, semester, token)))
  {
    var row := NewRow(kind, semester, identifier, token, now);
    SelectAppend(rows, [row], ByToken(token));
    assert forall i :: 0 <= i < |rows| ==> !Matches(rows[i], ByToken(token));
    assert Select(rows, ByToken(token)) == [];
    assert [row][1..] == [];
  }

  /** Updating `last_used_time` changes no lookup's answer: `_parse` drops the timestamps. */
  lemma {:induction false} TouchKeepsSelection(rows: seq<Row>, token: string, now: int, f: Filter)
    ensures FirstDoc(Select(Touched(rows, token, now), f)) == FirstDoc(Select(rows, f))
    decreases |rows|
  {
    if rows != [] {
      var t := Touched(rows, token, now);
      assert t[1..] == Touched(rows[1..], token, now);
      TouchKeepsSelection(rows[1..], token, now, f);
    }
  }

  lemma TouchKeepsFind(rows: seq<Row>, token: string, now: int, tid: Option<string>, sid: Option<string>,
                       semester: Option<string>, key: Option<string>)
    requires Truthy(key) ==> IsCanonicalUuid(key.value)
    ensures FindCalendarToken(Touched(rows, token, now), tid, sid, semester, key)
            == FindCalendarToken(rows, tid, sid, semester, key)
  {
    if Truthy(key) {
      TouchKeepsSelection(rows, token, now, ByToken(key.value));
    } else if (Truthy(tid) || Truthy(sid)) && Truthy(semester) {
      TouchKeepsSelection(rows, token, now, ByTriple(if Truthy(tid) then Teacher else Student, tid, semester.value));
    }
  }

  /**
   * Updating `last_used_time` leaves the set of acceptable answers to every
   * lookup unchanged, whatever order the database returns matches in.
   */
  lemma TouchKeepsAnswers(rows: seq<Row>, token: string, now: int, f: Filter, d: Option<TokenDoc>)
    ensures Answers(Touched(rows, token, now), f, d) <==> Answers(rows, f, d)
  {
    var t := Touched(rows, token, now);
    forall i | 0 <= i < |rows|
      ensures Matches(t[i], f) == Matches(rows[i], f) && Parse(t[i]) == Parse(rows[i])
    {
      TouchedAt(rows, token, now, i);
    }
    assert forall row :: row in t ==> exists i :: 0 <= i < |rows| && t[i] == row;
    assert forall row :: row in rows ==> exists i :: 0 <= i < |rows| && rows[i] == row;
  }

  /** After a reset, none of the deleted rows' tokens is found any more. */
  lemma FindAfterResetByToken(rows: seq<Row>, identifier: string, kind: PeopleType, i: int)
    requires WellFormed(rows) && 0 <= i < |rows|
    requires rows[i].identifier == identifier && rows[i].kind == kind
    ensures FindCalendarToken(WithoutUser(rows, identifier, Some(kind)), None, None, None, Some(rows[i].token)) == Ok(None)
  {
    var rest := WithoutUser(rows, identifier, Some(kind));
    forall row | row in rest
      ensures row.token != rows[i].token
    {
      var j :| 0 <= j < |rows| && rows[j] == row;
    }
  }

  /** After a teacher's reset, a lookup of that teacher finds nothing in any semester. */
  lemma FindAfterResetByTeacher(rows: seq<Row>, tid: string, semester: string)
    requires tid != "" && semester != ""
    ensures FindCalendarToken(WithoutUser(rows, tid, Some(Teacher)), Some(tid), None, Some(semester), None) == Ok(None)
  {
  }

  /**
   * Issue a token, record a use of it, reset the holder's tokens: the token
   * is then unknown.
   */
  lemma IssueUseResetForgetsToken(rows: seq<Row>, kind: PeopleType, semester: string, identifier: string,
                                  token: string, created: int, used: int)
    requires WellFormed(rows) && IsCanonicalUuid(token) && !HasToken(rows, token)
    ensures var issued := rows + [NewRow(kind, semester, identifier, token, created)];
            var reset := WithoutUser(Touched(issued, token, used), identifier, Some(kind));
            FindCalendarToken(reset, None, None, None, Some(token)) == Ok(None)
  {
    var issued := rows + [NewRow(kind, semester, identifier, token, created)];
    assert WellFormed(issued) by {
      forall i | 0 <= i < |rows|
        ensures issued[i].token != token
      {
      }
    }
    TouchKeepsWellFormed(issued, token, used);
    var touched := Touched(issued, token, used);
    TouchedAt(issued, token, used, |rows|);
    FindAfterResetByToken(touched, identifier, kind, |rows|);
  }

  /** The table itself: the rows, in insertion order. */
  class TokenTable {
    var rows: seq<Row>

    ghost predicate Valid()
      reads this
    {
      WellFormed(rows)
    }

    constructor ()
      ensures Valid() && rows == []
    {
      rows := [];
    }

    /**
     * `insert_calendar_token(type, semester, identifier)` with `token` the
     * generated UUID and `now` the creation time: one more row, never used,
     * unless the token is already taken.
     */
    method InsertCalendarToken(kind: PeopleType, semester: string, identifier: string, token: string, now: int)
      returns (r: Result<string, InsertError>)
      requires Valid() && IsCanonicalUuid(token)
      modifies this
      ensures Valid()
      ensures r.Ok? <==> !HasToken(old(rows), token)
      ensures r.Ok? ==> r.value == token && rows == old(rows) + [NewRow(kind, semester, identifier, token, now)]
      ensures r.Err? ==> r.error == UniqueViolation && rows == old(rows)
    {
      if HasToken(rows, token) {
        r := Err(UniqueViolation);
      } else {
        rows := rows + [NewRow(kind, semester, identifier, token, now)];
        r := Ok(token);
      }
    }

    /** `update_last_used_time(token)` at instant `now`. */
    method UpdateLastUsedTime(token: string, now: int)
      requires Valid() && IsCanonicalUuid(token)
      modifies this
      ensures Valid()
      ensures rows == Touched(old(rows), token, now)
    {
      TouchKeepsWellFormed(rows, token, now);
      rows := Touched(rows, token, now);
    }

    /** `reset_tokens(student_id, typ)`; the type defaults to student. */
    method ResetTokens(studentId: string, typ: Option<PeopleType> := Some(Student))
      requires Valid()
      modifies this
      ensures Valid()
      ensures rows == WithoutUser(old(rows), studentId, typ)
    {
      WithoutUserKeepsWellFormed(rows, studentId, typ);
      rows := WithoutUser(rows, studentId, typ);
    }
  }
}
