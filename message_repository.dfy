/** The local message table and its repository: an insert that is idempotent
    on the reconciliation key (uid, folder id) and returns the row id, an
    unconditional overwrite of the status column, and the load-by-id and
    delete-by-id calls of the table's resource model that the write-back
    services use. */
module MessageRepository {
  import opened Common

  /** One row of the message table. `messageType` is the message_type column. */
  datatype Row = Row(
    id: int,
    uid: int,
    messageId: Option<string>,
    subject: string,
    sender: string,
    date: string,
    content: string,
    status: string,
    folderId: int,
    messageType: Option<string>)

  /** The table as a value: its rows in insertion order and the next
      auto-increment id (ids are never reused, even after a delete). */
  datatype Table = Table(rows: seq<Row>, nextId: int)

  /** The exception the repository rethrows storage failures as. */
  datatype SaveFailure = CouldNotSaveException(message: string)

  predicate HasKey(r: Row, uid: int, folderId: int)
  {
    r.uid == uid && r.folderId == folderId
  }

  /** Ids are positive and below the counter, ids are distinct, and no two
      rows share a reconciliation key. */
  ghost predicate Consistent(t: Table)
  {
    && t.nextId >= 1
    && (forall i :: 0 <= i < |t.rows| ==> 1 <= t.rows[i].id < t.nextId)
    && (forall i, j :: 0 <= i < j < |t.rows| ==> t.rows[i].id != t.rows[j].id)
    && (forall i, j :: 0 <= i < j < |t.rows| ==> !HasKey(t.rows[j], t.rows[i].uid, t.rows[i].folderId))
  }

  /** The position of the first row with key (uid, folderId), if any. */
  function IndexOfKey(rows: seq<Row>, uid: int, folderId: int): (r: Option<nat>)
    ensures r.Some? ==> r.value < |rows| && HasKey(rows[r.value], uid, folderId)
    ensures r.Some? ==> forall j :: 0 <= j < r.value ==> !HasKey(rows[j], uid, folderId)
    ensures r.None? ==> forall j :: 0 <= j < |rows| ==> !HasKey(rows[j], uid, folderId)
  {
    if rows == [] then None
    else
      match IndexOfKey(rows[..|rows| - 1], uid, folderId)
      case Some(i) => Some(i)
      case None => if HasKey(rows[|rows| - 1], uid, folderId) then Some(|rows| - 1) else None
  }

  /** What `SELECT entity_id ... WHERE uid = ? AND folder_id = ?` fetches. */
  function KeyId(t: Table, uid: int, folderId: int): Option<int>
  {
    match IndexOfKey(t.rows, uid, folderId)
    case Some(i) => Some(t.rows[i].id)
    case None => None
  }

  /** The row inserted for a new message. The record has no type, so the
      message_type column is left null. */
  function NewRow(id: int, m: MessageDto): Row
  {
    Row(id, m.uid, m.messageId, m.subject, m.sender, m.date.stored, m.content,
        StatusValue(m.status), m.folderId, None)
  }

  /** saveAndReturnId against working storage: the new table and the id. */
  function SaveResult(t: Table, m: MessageDto): (r: (Table, int))
    ensures |r.0.rows| <= |t.rows| + 1 && t.rows <= r.0.rows
    ensures KeyId(r.0, m.uid, m.folderId) == Some(r.1)
    ensures KeyId(t, m.uid, m.folderId).Some? ==> r.0 == t
    ensures KeyId(t, m.uid, m.folderId).None? ==>
              r.0.rows == t.rows + [NewRow(r.1, m)] && r.1 == t.nextId && r.0.nextId == t.nextId + 1
    ensures Consistent(t) ==> Consistent(r.0)
  {
    match IndexOfKey(t.rows, m.uid, m.folderId)
    case Some(i) => (t, t.rows[i].id)
    case None =>
      AppendNewRow(t, m);
      (Table(t.rows + [NewRow(t.nextId, m)], t.nextId + 1), t.nextId)
  }

  /** Appending the row of a message whose key is absent: the key then
      resolves to the new id, and the table stays consistent. */
  lemma AppendNewRow(t: Table, m: MessageDto)
    requires IndexOfKey(t.rows, m.uid, m.folderId).None?
    ensures var t' := Table(t.rows + [NewRow(t.nextId, m)], t.nextId + 1);
            && t.rows <= t'.rows
            && KeyId(t', m.uid, m.folderId) == Some(t.nextId)
            && (Consistent(t) ==> Consistent(t'))
  {
    var rows' := t.rows + [NewRow(t.nextId, m)];
    assert rows'[..|rows'| - 1] == t.rows;
    if Consistent(t) {
      AppendNewRowConsistent(t, m);
    }
  }

  lemma AppendNewRowConsistent(t: Table, m: MessageDto)
    requires IndexOfKey(t.rows, m.uid, m.folderId).None? && Consistent(t)
    ensures Consistent(Table(t.rows + [NewRow(t.nextId, m)], t.nextId + 1))
  {
    var r := NewRow(t.nextId, m);
    var rows' := t.rows + [r];
    forall i, j | 0 <= i < j < |rows'|
      ensures rows'[i].id != rows'[j].id && !HasKey(rows'[j], rows'[i].uid, rows'[i].folderId)
    {
      assert rows'[i] == t.rows[i];
      if j == |t.rows| {
        assert !HasKey(t.rows[i], m.uid, m.folderId);
      } else {
        assert rows'[j] == t.rows[j];
      }
    }
  }

  /** The rows after `UPDATE status = v WHERE uid = ? AND folder_id = ?`. */
  function WithStatus(rows: seq<Row>, uid: int, folderId: int, v: string): (r: seq<Row>)
    ensures |r| == |rows|
  {
    seq(|rows|, i requires 0 <= i < |rows| =>
      if HasKey(rows[i], uid, folderId) then rows[i].(status := v) else rows[i])
  }

  /** The first row of `rows` with the given id, if any. */
  function RowWithId(rows: seq<Row>, id: int): (r: Option<Row>)
    ensures r.Some? ==> r.value in rows && r.value.id == id
    ensures r.None? ==> forall j :: 0 <= j < |rows| ==> rows[j].id != id
  {
    if rows == [] then None
    else
      match RowWithId(rows[..|rows| - 1], id)
      case Some(x) => Some(x)
      case None => if rows[|rows| - 1].id == id then Some(rows[|rows| - 1]) else None
  }

  /** The rows other than those with the given id, in their order. */
  function WithoutId(rows: seq<Row>, id: int): (r: seq<Row>)
    ensures forall x :: x in r <==> x in rows && x.id != id
    ensures |r| <= |rows|
  {
    if rows == [] then []
    else
      var last := rows[|rows| - 1];
      WithoutId(rows[..|rows| - 1], id) + (if last.id == id then [] else [last])
  }

  class MessageTable {
    var rows: seq<Row>
    var nextId: int

    function Value(): Table
      reads this
    {
      Table(rows, nextId)
    }

    constructor ()
      ensures Value() == Table([], 1) && Consistent(Value())
    {
      rows := [];
      nextId := 1;
    }

    /** The existence query on the reconciliation key. */
    method FindByKey(uid: int, folderId: int) returns (id: Option<int>)
      ensures id == KeyId(Value(), uid, folderId)
    {
      var i := 0;
      while i < |rows|
        invariant 0 <= i <= |rows|
        invariant IndexOfKey(rows[..i], uid, folderId) == None
      {
        assert rows[..i + 1][..i] == rows[..i];
        if HasKey(rows[i], uid, folderId) {
          assert IndexOfKey(rows[..i + 1], uid, folderId) == Some(i);
          assert rows[..i + 1] == rows[..i] + [rows[i]];
          IndexOfKeyExtend(rows[..i + 1], rows, uid, folderId);
          return Some(rows[i].id);
        }
        i := i + 1;
      }
      assert rows[..i] == rows;
      return None;
    }

    /** saveAndReturnId. `dbFailure` is the message of the exception the
        storage layer throws, if it throws. */
    method SaveAndReturnId(m: MessageDto, dbFailure: Option<string>) returns (r: Result<int, SaveFailure>)
      requires Consistent(Value())
      modifies this
      ensures Consistent(Value())
      ensures dbFailure.Some? ==>
                && r == Failure(CouldNotSaveException("Could not save the message: " + dbFailure.value))
                && Value() == old(Value())
      ensures dbFailure.None? ==>
                && Value() == SaveResult(old(Value()), m).0
                && r == Success(SaveResult(old(Value()), m).1)
    {
      if dbFailure.Some? {
        return Failure(CouldNotSaveException("Could not save the message: " + dbFailure.value));
      }
      ghost var before := Value();
      var existing := FindByKey(m.uid, m.folderId);
      if existing.Some? {
        return Success(existing.value);
      }
      rows := rows + [NewRow(nextId, m)];
      r := Success(nextId);
      nextId := nextId + 1;
      assert Value() == SaveResult(before, m).0;
    }

    /** save: saveAndReturnId with the id discarded. */
    method Save(m: MessageDto, dbFailure: Option<string>) returns (r: Outcome<SaveFailure>)
      requires Consistent(Value())
      modifies this
      ensures Consistent(Value())
      ensures dbFailure.Some? ==>
                && r == Fail(CouldNotSaveException("Could not save the message: " + dbFailure.value))
                && Value() == old(Value())
      ensures dbFailure.None? ==> r == Pass && Value() == SaveResult(old(Value()), m).0
    {
      var id := SaveAndReturnId(m, dbFailure);
      r := if id.Success? then Pass else Fail(id.error);
    }

    /** updateStatus: overwrite the status column of the rows with key
        (uid, folderId). */
    method UpdateStatus(uid: int, folderId: int, s: Status, dbFailure: Option<string>)
      returns (r: Outcome<SaveFailure>)
      requires Consistent(Value())
      modifies this
      ensures Consistent(Value())
      ensures nextId == old(nextId)
      ensures dbFailure.Some? ==>
                && r == Fail(CouldNotSaveException("Could not update the message status: " + dbFailure.value))
                && rows == old(rows)
      ensures dbFailure.None? ==> r == Pass && rows == WithStatus(old(rows), uid, folderId, StatusValue(s))
    {
      if dbFailure.Some? {
        return Fail(CouldNotSaveException("Could not update the message status: " + dbFailure.value));
      }
      ghost var before := rows;
      var v := StatusValue(s);
      var i := 0;
      while i < |rows|
        invariant 0 <= i <= |rows| == |before|
        invariant nextId == old(nextId)
        invariant forall k :: 0 <= k < i ==>
                    rows[k] == if HasKey(before[k], uid, folderId) then before[k].(status := v) else before[k]
        invariant forall k :: i <= k < |rows| ==> rows[k] == before[k]
      {
        if HasKey(rows[i], uid, folderId) {
          rows := rows[i := rows[i].(status := v)];
        }
        i := i + 1;
      }
      WithStatusPointwise(before, rows, uid, folderId, v);
      UpdateStatusKeepsConsistent(Table(before, nextId), uid, folderId, v);
      return Pass;
    }

    /** The resource model's load by entity id. */
    method Load(id: int) returns (r: Option<Row>)
      ensures r == RowWithId(rows, id)
    {
      var i := 0;
      while i < |rows|
        invariant 0 <= i <= |rows|
        invariant RowWithId(rows[..i], id) == None
      {
        assert rows[..i + 1][..i] == rows[..i];
        if rows[i].id == id {
          RowWithIdExtend(rows[..i + 1], rows, id);
          return Some(rows[i]);
        }
        i := i + 1;
      }
      assert rows[..i] == rows;
      return None;
    }

    /** The resource model's delete of one row. */
    method Delete(id: int)
      requires Consistent(Value())
      modifies this
      ensures Consistent(Value())
      ensures nextId == old(nextId) && rows == WithoutId(old(rows), id)
    {
      var kept := [];
      var i := 0;
      while i < |rows|
        invariant 0 <= i <= |rows|
        invariant kept == WithoutId(rows[..i], id)
      {
        assert rows[..i + 1][..i] == rows[..i];
        if rows[i].id != id {
          kept := kept + [rows[i]];
        }
        i := i + 1;
      }
      assert rows[..i] == rows;
      WithoutIdKeepsConsistent(Value(), id);
      rows := kept;
    }
  }

  // ---------------------------------------------------------------------
  // Lemmas

  /** A first match in a prefix is the first match of the whole sequence. */
  lemma IndexOfKeyExtend(p: seq<Row>, rows: seq<Row>, uid: int, folderId: int)
    requires |p| <= |rows| && rows[..|p|] == p && IndexOfKey(p, uid, folderId).Some?
    ensures IndexOfKey(rows, uid, folderId) == IndexOfKey(p, uid, folderId)
  {
    var i := IndexOfKey(p, uid, folderId).value;
    assert rows[i] == p[i];
    forall j | 0 <= j < i ensures !HasKey(rows[j], uid, folderId) {
      assert rows[j] == p[j];
    }
  }

  lemma RowWithIdExtend(p: seq<Row>, rows: seq<Row>, id: int)
    requires |p| <= |rows| && rows[..|p|] == p && p != [] && p[|p| - 1].id == id
    requires RowWithId(p[..|p| - 1], id) == None
    ensures RowWithId(rows, id) == Some(p[|p| - 1])
    decreases |rows| - |p|
  {
    if |rows| > |p| {
      var q := rows[..|p| + 1];
      assert q[..|p|] == p && q[..|q| - 1] == p;
      assert rows[..|rows| - 1][..|p|] == p;
      RowWithIdExtend(p, rows[..|rows| - 1], id);
    } else {
      assert rows == p;
    }
  }

  /** In a consistent table a key has at most one row, so the row found
      by `KeyId` is the only row with that key. */
  lemma KeyIdUnique(t: Table, uid: int, folderId: int, k: int)
    requires Consistent(t) && 0 <= k < |t.rows| && HasKey(t.rows[k], uid, folderId)
    ensures KeyId(t, uid, folderId) == Some(t.rows[k].id)
  {
    var i := IndexOfKey(t.rows, uid, folderId).value;
    assert HasKey(t.rows[i], uid, folderId) && i <= k;
  }

  /** Saving the same record twice returns the same id and the second save
      changes nothing. */
  lemma SaveTwiceReturnsSameId(t: Table, m: MessageDto)
    ensures var (t1, id1) := SaveResult(t, m);
            var (t2, id2) := SaveResult(t1, m);
            t2 == t1 && id2 == id1
  {
  }

  /** After any sequence of saves on a consistent table, at most one row has
      a given key. */
  lemma {:induction false} SavesKeepKeysUnique(t: Table, ms: seq<MessageDto>)
    requires Consistent(t)
    ensures Consistent(SaveAll(t, ms))
    ensures |SaveAll(t, ms).rows| <= |t.rows| + |ms|
    decreases |ms|
  {
    if ms != [] {
      SavesKeepKeysUnique(SaveResult(t, ms[0]).0, ms[1..]);
    }
  }

  function SaveAll(t: Table, ms: seq<MessageDto>): Table
    decreases |ms|
  {
    if ms == [] then t else SaveAll(SaveResult(t, ms[0]).0, ms[1..])
  }

  /** Saving a record whose key is already stored leaves every field of the
      stored row as it was: nothing is refreshed. */
  lemma SaveDoesNotRefresh(t: Table, m: MessageDto, k: int)
    requires Consistent(t) && 0 <= k < |t.rows| && HasKey(t.rows[k], m.uid, m.folderId)
    ensures SaveResult(t, m) == (t, t.rows[k].id)
  {
    KeyIdUnique(t, m.uid, m.folderId, k);
  }

  /** A newly saved row stores the record's fields and reads back its status. */
  lemma SavedRowReadsBack(t: Table, m: MessageDto)
    requires KeyId(t, m.uid, m.folderId).None?
    ensures var (t', id) := SaveResult(t, m);
            var row := t'.rows[|t'.rows| - 1];
            && row.id == id && row.uid == m.uid && row.folderId == m.folderId
            && row.subject == m.subject && row.sender == m.sender && row.content == m.content
            && row.messageId == m.messageId && row.messageType == None
            && StatusFrom(row.status) == Some(m.status)
  {
    StatusRoundTrip(m.status);
  }

  /** Saving one record does not change which row any other key finds. */
  lemma SaveLeavesOtherKeys(t: Table, m: MessageDto, uid: int, folderId: int)
    requires !(uid == m.uid && folderId == m.folderId)
    ensures KeyId(SaveResult(t, m).0, uid, folderId) == KeyId(t, uid, folderId)
  {
    var t' := SaveResult(t, m).0;
    if t' != t {
      assert t'.rows[..|t'.rows| - 1] == t.rows;
    }
  }

  /** updateStatus changes the status column of the matching rows to `v`
      and nothing else: ids, keys and every other column and row stay. */
  lemma UpdateStatusOnlyTouchesStatus(rows: seq<Row>, uid: int, folderId: int, v: string, k: int)
    requires 0 <= k < |rows|
    ensures var r := WithStatus(rows, uid, folderId, v);
            && r[k].(status := rows[k].status) == rows[k]
            && (HasKey(rows[k], uid, folderId) ==> r[k].status == v)
            && (!HasKey(rows[k], uid, folderId) ==> r[k] == rows[k])
  {
  }

  /** updateStatus on a key that has no row leaves the table as it was. */
  lemma UpdateStatusAbsentKeyIsNoop(rows: seq<Row>, uid: int, folderId: int, v: string)
    requires IndexOfKey(rows, uid, folderId).None?
    ensures WithStatus(rows, uid, folderId, v) == rows
  {
    var r := WithStatus(rows, uid, folderId, v);
    assert forall k :: 0 <= k < |rows| ==> r[k] == rows[k];
  }

  /** Rows that agree position by position with WithStatus are WithStatus. */
  lemma WithStatusPointwise(rows: seq<Row>, r: seq<Row>, uid: int, folderId: int, v: string)
    requires |r| == |rows|
    requires forall k :: 0 <= k < |rows| ==>
               r[k] == if HasKey(rows[k], uid, folderId) then rows[k].(status := v) else rows[k]
    ensures r == WithStatus(rows, uid, folderId, v)
  {
  }

  /** Position by position, two row sequences carry the same ids and keys. */
  ghost predicate SameIdsAndKeys(a: seq<Row>, b: seq<Row>)
  {
    && |a| == |b|
    && forall k :: 0 <= k < |a| ==> a[k].id == b[k].id && a[k].uid == b[k].uid && a[k].folderId == b[k].folderId
  }

  /** Consistency depends only on the ids and keys of the rows. */
  lemma SameIdsAndKeysConsistent(t: Table, rows: seq<Row>)
    requires Consistent(t) && SameIdsAndKeys(t.rows, rows)
    ensures Consistent(Table(rows, t.nextId))
  {
  }

  /** updateStatus keeps the table consistent and every key's row id. */
  lemma UpdateStatusKeepsConsistent(t: Table, uid: int, folderId: int, v: string)
    requires Consistent(t)
    ensures Consistent(Table(WithStatus(t.rows, uid, folderId, v), t.nextId))
    ensures forall u, f :: KeyId(Table(WithStatus(t.rows, uid, folderId, v), t.nextId), u, f) == KeyId(t, u, f)
  {
    var r := WithStatus(t.rows, uid, folderId, v);
    assert SameIdsAndKeys(t.rows, r);
    SameIdsAndKeysConsistent(t, r);
    forall u, f ensures KeyId(Table(r, t.nextId), u, f) == KeyId(t, u, f) {
      SameKeysSameIndex(t.rows, r, u, f);
    }
  }

  /** Two row sequences that agree on every id and key agree on every lookup. */
  lemma {:induction false} SameKeysSameIndex(a: seq<Row>, b: seq<Row>, uid: int, folderId: int)
    requires SameIdsAndKeys(a, b)
    ensures IndexOfKey(a, uid, folderId) == IndexOfKey(b, uid, folderId)
    decreases |a|
  {
    if a != [] {
      assert SameIdsAndKeys(a[..|a| - 1], b[..|b| - 1]);
      SameKeysSameIndex(a[..|a| - 1], b[..|b| - 1], uid, folderId);
    }
  }

  ghost predicate DistinctIdsAndKeys(rows: seq<Row>)
  {
    forall i, j :: 0 <= i < j < |rows| ==>
      rows[i].id != rows[j].id && !HasKey(rows[j], rows[i].uid, rows[i].folderId)
  }

  /** Deleting a row keeps the table consistent. */
  lemma WithoutIdKeepsConsistent(t: Table, id: int)
    requires Consistent(t)
    ensures Consistent(Table(WithoutId(t.rows, id), t.nextId))
  {
    WithoutIdKeepsDistinct(t.rows, id);
  }

  lemma {:induction false} WithoutIdKeepsDistinct(rows: seq<Row>, id: int)
    requires DistinctIdsAndKeys(rows)
    ensures DistinctIdsAndKeys(WithoutId(rows, id))
  {
    if rows != [] {
      var init := rows[..|rows| - 1];
      var last := rows[|rows| - 1];
      WithoutIdKeepsDistinct(init, id);
      var w := WithoutId(init, id);
      if last.id != id {
        forall k | 0 <= k < |w|
          ensures w[k].id != last.id && !HasKey(last, w[k].uid, w[k].folderId)
        {
          assert w[k] in init;
          var m :| 0 <= m < |init| && init[m] == w[k];
          assert rows[m] == init[m];
        }
        var r := w + [last];
        forall i, j | 0 <= i < j < |r|
          ensures r[i].id != r[j].id && !HasKey(r[j], r[i].uid, r[i].folderId)
        {
          if j < |w| {
            assert r[i] == w[i] && r[j] == w[j];
          } else {
            assert r[i] == w[i] && r[j] == last;
          }
        }
      }
    }
  }
}
