// The three tables of the time-clock server and the two request handlers
// that write them: the employee upsert and the punch registration. Each
// table is a sequence of rows in insertion (rowid) order; AUTOINCREMENT is
// a per-table counter of the next id to hand out.

module TimeClock {
  import opened JsString
  import opened Lateness

  datatype Option<T> = None | Some(value: T)

  /** A nullable TEXT column, or a JSON body field that may be missing or null. */
  type Text = Option<string>

  /** JavaScript truthiness of a string field: present and non-empty. */
  predicate Truthy(t: Text)
  {
    t.Some? && t.value != ""
  }

  /** JavaScript truthiness of the numeric `id` of the upsert request. */
  predicate IsEdit(id: Option<int>)
  {
    id.Some? && id.value != 0
  }

  /** SQLite's IFNULL(a, b). */
  function IfNull(a: Text, b: Text): Text
  {
    if a.Some? then a else b
  }

  /** A row of `funcionarios`. */
  datatype Employee = Employee(
    id: int,
    name: Text,
    lunchBreak: Text,
    workdays: Text,
    profilePhoto: Text,
    biometricId: Text)

  /** A row of `registros_ponto`. */
  datatype Punch = Punch(id: int, employeeId: int, date: string, time: string, kind: string)

  /** A row of `fotos_registros`. */
  datatype PunchPhoto = PunchPhoto(id: int, punchId: int, photo: string)

  /** What the upsert handler answers. */
  datatype SaveReply = Updated | Created

  /** What the punch handler answers: 404 "not found", or success. */
  datatype PunchReply = EmployeeNotFound | Registered

  /** The profile-photo filter of the upsert handler: a photo is kept only
      when it is present and JavaScript reports more than 100 code units. */
  function FilterProfilePhoto(photo: Text): (r: Text)
    ensures r == None || r == photo
    ensures r.Some? <==> photo.Some? && Utf16Length(photo.value) > 100
  {
    if photo.Some? && Utf16Length(photo.value) > 100 then photo else None
  }

  /** For ordinary (BMP) text the filter keeps the photo exactly when it has
      more than 100 characters, and turns it into null otherwise. */
  lemma FilterKeepsLongPhotos(photo: string)
    requires IsBmp(photo)
    ensures FilterProfilePhoto(Some(photo)) == (if |photo| > 100 then Some(photo) else None)
  {
    Utf16LengthOfBmp(photo);
  }

  /** A missing, null or short photo is always filtered out. */
  lemma FilterDropsShortPhotos(photo: Text)
    requires photo.None? || |photo.value| <= 50
    ensures FilterProfilePhoto(photo) == None
  {
  }

  /** `WHERE nome = ?`: SQL equality, which never holds when either side is NULL. */
  predicate NameMatches(e: Employee, name: Text)
  {
    name.Some? && e.name == name
  }

  /** The row `SELECT id FROM funcionarios WHERE nome = ?` returns to `db.get`:
      the first matching row in rowid order, as its index. */
  function FirstByName(rows: seq<Employee>, name: Text): (r: Option<nat>)
    ensures r.None? <==> forall i :: 0 <= i < |rows| ==> !NameMatches(rows[i], name)
    ensures r.Some? ==> r.value < |rows| && NameMatches(rows[r.value], name)
    ensures r.Some? ==> forall j :: 0 <= j < r.value ==> !NameMatches(rows[j], name)
  {
    if rows == [] then None
    else if NameMatches(rows[0], name) then Some(0)
    else match FirstByName(rows[1..], name)
      case None => None
      case Some(k) => Some(k + 1)
  }

  /** The row as the UPDATE of the edit branch leaves it. */
  function EditedRow(e: Employee, name: Text, lunchBreak: Text, workdays: Text,
                     photo: Text, biometricId: Text): (r: Employee)
    ensures r.id == e.id
    ensures r.profilePhoto == (if photo.Some? then photo else e.profilePhoto)
  {
    Employee(e.id, name, lunchBreak, workdays, IfNull(photo, e.profilePhoto), biometricId)
  }

  /** `UPDATE funcionarios SET ... WHERE id = ?` over all rows: the rows with
      that id are edited, every other row is left as it was. */
  function UpdateWhereId(rows: seq<Employee>, id: int, name: Text, lunchBreak: Text,
                         workdays: Text, photo: Text, biometricId: Text): (r: seq<Employee>)
    ensures |r| == |rows|
    ensures forall i :: 0 <= i < |rows| && rows[i].id != id ==> r[i] == rows[i]
    ensures forall i :: 0 <= i < |rows| && rows[i].id == id ==>
      r[i] == EditedRow(rows[i], name, lunchBreak, workdays, photo, biometricId)
  {
    if rows == [] then []
    else
      var head := if rows[0].id == id
        then EditedRow(rows[0], name, lunchBreak, workdays, photo, biometricId)
        else rows[0];
      [head] + UpdateWhereId(rows[1..], id, name, lunchBreak, workdays, photo, biometricId)
  }

  /** An UPDATE naming an id no row has changes nothing. */
  lemma UpdateUnknownIdNoChange(rows: seq<Employee>, id: int, name: Text, lunchBreak: Text,
                                workdays: Text, photo: Text, biometricId: Text)
    requires forall i :: 0 <= i < |rows| ==> rows[i].id != id
    ensures UpdateWhereId(rows, id, name, lunchBreak, workdays, photo, biometricId) == rows
  {
  }

  /** Editing the employee at index `k` of a table with unique ids:
      name, lunch window, workdays and biometric id are overwritten, the
      photo is replaced only by a non-null filtered photo, and every other
      row is left as it was. */
  lemma EditChangesOnlyThatEmployee(rows: seq<Employee>, next: int, k: nat, name: Text,
                                    lunchBreak: Text, workdays: Text, photo: Text, biometricId: Text)
    requires IdsAscend(rows, (e: Employee) => e.id, next)
    requires k < |rows|
    ensures var r := UpdateWhereId(rows, rows[k].id, name, lunchBreak, workdays,
                                   FilterProfilePhoto(photo), biometricId);
      |r| == |rows| &&
      r[k].id == rows[k].id && r[k].name == name && r[k].lunchBreak == lunchBreak &&
      r[k].workdays == workdays && r[k].biometricId == biometricId &&
      (FilterProfilePhoto(photo).Some? ==> r[k].profilePhoto == photo) &&
      (FilterProfilePhoto(photo).None? ==> r[k].profilePhoto == rows[k].profilePhoto) &&
      (forall i :: 0 <= i < |rows| && i != k ==> r[i] == rows[i])
  {
  }

  /** The UPDATE never changes an id, so the ids stay unique and ascending. */
  lemma UpdateKeepsIdsAscend(rows: seq<Employee>, next: int, id: int, name: Text, lunchBreak: Text,
                             workdays: Text, photo: Text, biometricId: Text)
    requires IdsAscend(rows, (e: Employee) => e.id, next)
    ensures IdsAscend(UpdateWhereId(rows, id, name, lunchBreak, workdays, photo, biometricId),
                      (e: Employee) => e.id, next)
  {
    var r := UpdateWhereId(rows, id, name, lunchBreak, workdays, photo, biometricId);
    assert forall i :: 0 <= i < |rows| ==> r[i].id == rows[i].id;
  }

  /** Looking up a name after appending a row: earlier rows keep priority, and
      the appended row is found when it is the only one with that name. */
  lemma {:induction false} FirstByNameAppend(rows: seq<Employee>, e: Employee, name: Text)
    ensures FirstByName(rows, name).Some? ==> FirstByName(rows + [e], name) == FirstByName(rows, name)
    ensures FirstByName(rows, name).None? && NameMatches(e, name) ==>
      FirstByName(rows + [e], name) == Some(|rows|)
    ensures FirstByName(rows, name).None? && !NameMatches(e, name) ==>
      FirstByName(rows + [e], name) == None
  {
    if rows != [] {
      assert (rows + [e])[0] == rows[0];
      assert (rows + [e])[1..] == rows[1..] + [e];
      FirstByNameAppend(rows[1..], e, name);
    } else {
      assert rows + [e] == [e];
    }
  }

  /** Ids, as `id` reads them off the rows of a table, strictly ascend in
      rowid order, are positive and lie below the AUTOINCREMENT counter. */
  ghost predicate IdsAscend<R>(rows: seq<R>, id: R -> int, next: int)
  {
    (forall i, j :: 0 <= i < j < |rows| ==> id(rows[i]) < id(rows[j])) &&
    (forall i :: 0 <= i < |rows| ==> 0 < id(rows[i]) < next)
  }

  /** Some punch row has id `id`. */
  ghost predicate HasPunch(punches: seq<Punch>, id: int)
  {
    exists j :: 0 <= j < |punches| && punches[j].id == id
  }

  /** The database file: the three tables and their AUTOINCREMENT counters. */
  class Database {
    var employees: seq<Employee>
    var punches: seq<Punch>
    var punchPhotos: seq<PunchPhoto>
    var nextEmployeeId: int
    var nextPunchId: int
    var nextPhotoId: int

    /** Ids are unique and ascending in each table; every punch names an
        employee id that was handed out; every punch photo names an existing
        punch. */
    ghost predicate Valid()
      reads this
    {
      0 < nextEmployeeId && 0 < nextPunchId && 0 < nextPhotoId &&
      IdsAscend(employees, (e: Employee) => e.id, nextEmployeeId) &&
      IdsAscend(punches, (p: Punch) => p.id, nextPunchId) &&
      IdsAscend(punchPhotos, (f: PunchPhoto) => f.id, nextPhotoId) &&
      (forall i :: 0 <= i < |punches| ==> 0 < punches[i].employeeId < nextEmployeeId) &&
      (forall i :: 0 <= i < |punchPhotos| ==> HasPunch(punches, punchPhotos[i].punchId))
    }

    /** A freshly created database file: empty tables, counters at 1. */
    constructor ()
      ensures Valid()
      ensures employees == [] && punches == [] && punchPhotos == []
      ensures nextEmployeeId == 1 && nextPunchId == 1 && nextPhotoId == 1
    {
      employees, punches, punchPhotos := [], [], [];
      nextEmployeeId, nextPunchId, nextPhotoId := 1, 1, 1;
    }

    /** `UPDATE funcionarios ... WHERE id = ?` of the edit branch. */
    method UpdateEmployee(id: int, name: Text, lunchBreak: Text, workdays: Text,
                          photo: Text, biometricId: Text)
      requires Valid()
      modifies this`employees
      ensures Valid()
      ensures employees == UpdateWhereId(old(employees), id, name, lunchBreak, workdays, photo, biometricId)
    {
      UpdateKeepsIdsAscend(employees, nextEmployeeId, id, name, lunchBreak, workdays, photo, biometricId);
      employees := UpdateWhereId(employees, id, name, lunchBreak, workdays, photo, biometricId);
    }

    /** `INSERT INTO funcionarios` of the new-employee branch: appends one
        employee under the next AUTOINCREMENT id. */
    method InsertEmployee(name: Text, lunchBreak: Text, workdays: Text,
                          photo: Text, biometricId: Text)
      requires Valid()
      modifies this`employees, this`nextEmployeeId
      ensures Valid()
      ensures nextEmployeeId == old(nextEmployeeId) + 1
      ensures employees == old(employees) + [Employee(old(nextEmployeeId), name, lunchBreak, workdays,
                                                      photo, biometricId)]
    {
      employees := employees + [Employee(nextEmployeeId, name, lunchBreak, workdays, photo, biometricId)];
      nextEmployeeId := nextEmployeeId + 1;
    }

    /** POST /admin/cadastrar-funcionario. A truthy `id` edits the row with
        that id (keeping its photo when the filtered photo is null); any other
        `id` appends a new employee under the next AUTOINCREMENT id. Punches
        and punch photos are untouched. */
    method SaveEmployee(id: Option<int>, name: Text, lunchBreak: Text, workdays: Text,
                        profilePhoto: Text, biometricId: Text) returns (reply: SaveReply)
      requires Valid()
      modifies this
      ensures Valid()
      ensures punches == old(punches) && punchPhotos == old(punchPhotos)
      ensures nextPunchId == old(nextPunchId) && nextPhotoId == old(nextPhotoId)
      ensures IsEdit(id) ==>
        reply == Updated && nextEmployeeId == old(nextEmployeeId) &&
        employees == UpdateWhereId(old(employees), id.value, name, lunchBreak, workdays,
                                   FilterProfilePhoto(profilePhoto), biometricId)
      ensures !IsEdit(id) ==>
        reply == Created && nextEmployeeId == old(nextEmployeeId) + 1 &&
        employees == old(employees) + [Employee(old(nextEmployeeId), name, lunchBreak, workdays,
                                                FilterProfilePhoto(profilePhoto), biometricId)]
    {
      var photo := FilterProfilePhoto(profilePhoto);
      if IsEdit(id) {
        UpdateEmployee(id.value, name, lunchBreak, workdays, photo, biometricId);
        reply := Updated;
      } else {
        InsertEmployee(name, lunchBreak, workdays, photo, biometricId);
        reply := Created;
      }
    }

    /** `INSERT INTO registros_ponto`: appends one punch under the next
        AUTOINCREMENT id and returns that id (`this.lastID`). */
    method InsertPunch(employeeId: int, date: string, time: string, kind: string)
      returns (punchId: int)
      requires Valid()
      requires 0 < employeeId < nextEmployeeId
      modifies this`punches, this`nextPunchId
      ensures Valid()
      ensures punchId == old(nextPunchId) && nextPunchId == old(nextPunchId) + 1
      ensures punches == old(punches) + [Punch(punchId, employeeId, date, time, kind)]
      ensures HasPunch(punches, punchId)
    {
      ghost var before := punches;
      punchId := nextPunchId;
      punches := punches + [Punch(punchId, employeeId, date, time, kind)];
      nextPunchId := nextPunchId + 1;
      assert punches[|punches| - 1].id == punchId;
      forall i | 0 <= i < |punchPhotos| ensures HasPunch(punches, punchPhotos[i].punchId) {
        assert HasPunch(before, punchPhotos[i].punchId);
        var j :| 0 <= j < |before| && before[j].id == punchPhotos[i].punchId;
        assert punches[j] == before[j];
      }
    }

    /** `INSERT INTO fotos_registros`: appends one photo of the punch `punchId`
        under the next AUTOINCREMENT id. */
    method InsertPunchPhoto(punchId: int, photo: string)
      requires Valid()
      requires HasPunch(punches, punchId)
      modifies this`punchPhotos, this`nextPhotoId
      ensures Valid()
      ensures nextPhotoId == old(nextPhotoId) + 1
      ensures punchPhotos == old(punchPhotos) + [PunchPhoto(old(nextPhotoId), punchId, photo)]
    {
      punchPhotos := punchPhotos + [PunchPhoto(nextPhotoId, punchId, photo)];
      nextPhotoId := nextPhotoId + 1;
    }

    /** POST /bater-ponto at local time `hour`:`minute`, with `date` and
        `time` the formatted strings of that same instant. An unknown name
        answers 404 and changes nothing; otherwise one punch row carrying the
        classified label is appended for the first employee of that name, and
        one photo row for it exactly when `photo` is truthy. */
    method RegisterPunch(employeeName: Text, kind: string, photo: Text,
                         date: string, time: string, hour: Hour, minute: Minute)
      returns (reply: PunchReply)
      requires Valid()
      modifies this
      ensures Valid()
      ensures employees == old(employees) && nextEmployeeId == old(nextEmployeeId)
      ensures FirstByName(old(employees), employeeName).None? ==>
        reply == EmployeeNotFound &&
        punches == old(punches) && nextPunchId == old(nextPunchId) &&
        punchPhotos == old(punchPhotos) && nextPhotoId == old(nextPhotoId)
      ensures FirstByName(old(employees), employeeName).Some? ==>
        reply == Registered &&
        punches == old(punches) + [Punch(old(nextPunchId),
                                         old(employees)[FirstByName(old(employees), employeeName).value].id,
                                         date, time, FinalKind(kind, hour, minute))] &&
        nextPunchId == old(nextPunchId) + 1
      ensures FirstByName(old(employees), employeeName).Some? && Truthy(photo) ==>
        punchPhotos == old(punchPhotos) + [PunchPhoto(old(nextPhotoId), old(nextPunchId), photo.value)] &&
        nextPhotoId == old(nextPhotoId) + 1
      ensures FirstByName(old(employees), employeeName).Some? && !Truthy(photo) ==>
        punchPhotos == old(punchPhotos) && nextPhotoId == old(nextPhotoId)
    {
      var found := FirstByName(employees, employeeName);
      if found.None? {
        return EmployeeNotFound;
      }
      var employeeId := employees[found.value].id;
      var punchId := InsertPunch(employeeId, date, time, FinalKind(kind, hour, minute));
      if Truthy(photo) {
        InsertPunchPhoto(punchId, photo.value);
      }
      reply := Registered;
    }
  }
}
