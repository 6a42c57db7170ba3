/** The RSVP handler of the single-guest application: the file of confirmations
    (invitados.csv), its initialisation, and the checks that decide whether a
    submitted form becomes a new confirmation row. */
module Rsvp {
  import opened Wrappers
  import opened Text
  import opened Roster

  /** One data row of the confirmations file, in column order
      Fecha, Nombre, Asistentes, Mensaje. The timestamp and the message are
      opaque text. */
  datatype Row = Row(fecha: string, nombre: string, asistentes: int, mensaje: string)

  /** The header row that init_db writes into a new confirmations file. */
  const Header: seq<string> := ["Fecha", "Nombre", "Asistentes", "Mensaje"]

  /** The cells the csv writer emits for a row; the count is written as str(). */
  function Cells(r: Row): seq<string> {
    [r.fecha, r.nombre, ShowInt(r.asistentes), r.mensaje]
  }

  /** A written row reads back under the header: one cell per column, the
      Nombre cell is the guest's name and the Asistentes cell parses to the count. */
  lemma CellsReadBack(r: Row)
    ensures |Cells(r)| == |Header|
    ensures Header[1] == "Nombre" && Cells(r)[1] == r.nombre
    ensures Header[2] == "Asistentes" && ParseInt(Cells(r)[2]) == Some(r.asistentes)
  {
    ParseShowRoundTrip(r.asistentes);
  }

  /** The lines of the file below the header, one per row. */
  function CsvLines(rows: seq<Row>): (lines: seq<seq<string>>)
    ensures |lines| == |rows|
    ensures forall i :: 0 <= i < |rows| ==> lines[i] == Cells(rows[i])
  {
    if rows == [] then [] else [Cells(rows[0])] + CsvLines(rows[1..])
  }

  /** The Nombre column of the data rows: [row['Nombre'] for row in reader]. */
  function Names(rows: seq<Row>): (names: seq<string>)
    ensures |names| == |rows|
    ensures forall i :: 0 <= i < |rows| ==> names[i] == rows[i].nombre
  {
    if rows == [] then [] else [rows[0].nombre] + Names(rows[1..])
  }

  /** The duplicate check: the name is already in the Nombre column. */
  function IsConfirmed(rows: seq<Row>, name: string): (confirmed: bool)
    ensures confirmed <==> exists i :: 0 <= i < |rows| && rows[i].nombre == name
  {
    name in Names(rows)
  }

  /** No two data rows confirm the same name. */
  ghost predicate UniqueNames(rows: seq<Row>) {
    forall i, j :: 0 <= i < j < |rows| ==> rows[i].nombre != rows[j].nombre
  }

  /** The validation errors the form reports, with what each message shows. */
  datatype ErrorKind =
    | InvalidNumber
    | NameNotFound(name: string)
    | SeatLimit(allowed: int)
    | AlreadyConfirmed(name: string)

  /** What the page renders after a submission. */
  datatype Outcome = Success(guest: string) | Error(kind: ErrorKind)

  /** lista_maestra.get(nombre): the allotment of a name, if it has one. */
  function Lookup(roster: map<string, int>, name: string): Option<int> {
    if name in roster then Some(roster[name]) else None
  }

  /** The answer to a submission, given the roster and the confirmed rows:
      the checks run in the order the handler runs them, and the first that
      fails decides the error. */
  function Decide(roster: map<string, int>, rows: seq<Row>, rawName: string, count: Option<int>): Outcome {
    var name := Trim(rawName);
    match count
    case None => Error(InvalidNumber)
    case Some(n) =>
      match Lookup(roster, name)
      case None => Error(NameNotFound(name))
      case Some(allowed) =>
        if n > allowed then Error(SeatLimit(allowed))
        else if IsConfirmed(rows, name) then Error(AlreadyConfirmed(name))
        else Success(name)
  }

  /** A count that is not an integer is reported first, whatever the roster
      and the file hold. */
  lemma InvalidNumberFirst(roster: map<string, int>, rows: seq<Row>, rawName: string)
    ensures Decide(roster, rows, rawName, None) == Error(InvalidNumber)
  {
  }

  /** An integer count for a stripped name that is not a key of the roster is
      reported as not found. The match is exact: no case folding. */
  lemma UnknownNameRejected(roster: map<string, int>, rows: seq<Row>, rawName: string, n: int)
    requires Trim(rawName) !in roster
    ensures Decide(roster, rows, rawName, Some(n)) == Error(NameNotFound(Trim(rawName)))
  {
  }

  /** A known guest asking for more seats than allotted gets the seat-limit
      error naming the allotment, even if already confirmed. */
  lemma SeatLimitEnforced(roster: map<string, int>, rows: seq<Row>, rawName: string, n: int)
    requires Trim(rawName) in roster && n > roster[Trim(rawName)]
    ensures Decide(roster, rows, rawName, Some(n)) == Error(SeatLimit(roster[Trim(rawName)]))
  {
  }

  /** A known guest within the allotment whose name is already in the Nombre
      column is rejected as a duplicate. */
  lemma DuplicateRejected(roster: map<string, int>, rows: seq<Row>, rawName: string, n: int, i: nat)
    requires Trim(rawName) in roster && n <= roster[Trim(rawName)]
    requires i < |rows| && rows[i].nombre == Trim(rawName)
    ensures Decide(roster, rows, rawName, Some(n)) == Error(AlreadyConfirmed(Trim(rawName)))
  {
  }

  /** A submission succeeds exactly when the count is an integer, the stripped
      name is in the roster, the count is at most its allotment (no lower bound
      is checked) and no row confirms that name yet; success names the guest. */
  lemma SuccessIff(roster: map<string, int>, rows: seq<Row>, rawName: string, count: Option<int>)
    ensures Decide(roster, rows, rawName, count).Success? <==>
      && count.Some?
      && Trim(rawName) in roster
      && count.value <= roster[Trim(rawName)]
      && forall i :: 0 <= i < |rows| ==> rows[i].nombre != Trim(rawName)
    ensures Decide(roster, rows, rawName, count).Success? ==>
      Decide(roster, rows, rawName, count).guest == Trim(rawName)
  {
  }

  /** Resubmitting a form that has just succeeded is rejected as a duplicate. */
  lemma RepeatIsDuplicate(roster: map<string, int>, rows: seq<Row>, rawName: string, count: Option<int>,
                          fecha: string, mensaje: string)
    requires Decide(roster, rows, rawName, count).Success?
    ensures var rows' := rows + [Row(fecha, Trim(rawName), count.value, mensaje)];
      Decide(roster, rows', rawName, count) == Error(AlreadyConfirmed(Trim(rawName)))
  {
    var rows' := rows + [Row(fecha, Trim(rawName), count.value, mensaje)];
    assert rows'[|rows|].nombre == Trim(rawName);
  }

  /** Appending the row of a successful submission keeps names unique. */
  lemma SuccessKeepsNamesUnique(roster: map<string, int>, rows: seq<Row>, rawName: string, count: Option<int>,
                                fecha: string, mensaje: string)
    requires UniqueNames(rows)
    requires Decide(roster, rows, rawName, count).Success?
    ensures UniqueNames(rows + [Row(fecha, Trim(rawName), count.value, mensaje)])
  {
    SuccessIff(roster, rows, rawName, count);
  }

  /** An illustration, on one roster, of the exact match after stripping that
      UnknownNameRejected and SuccessIff state for all inputs: "ana" is not the
      guest "Ana", while " Ana\n" is. */
  lemma NameMatchIsExact()
    ensures Decide(map["Ana" := 2], [], "ana", Some(1)) == Error(NameNotFound("ana"))
    ensures Decide(map["Ana" := 2], [], " Ana\n", Some(2)) == Success("Ana")
  {
    TrimUnpadded(Whitespace, "ana");
    assert Trim(" Ana\n") == "Ana";
  }

  /** An illustration, on one roster, of SuccessIff having no lower bound on
      the count: zero and negative counts pass. */
  lemma NoLowerBound()
    ensures Decide(map["Ana" := 2], [], "Ana", Some(0)) == Success("Ana")
    ensures Decide(map["Ana" := 2], [], "Ana", Some(-3)) == Success("Ana")
  {
    TrimUnpadded(Whitespace, "Ana");
  }

  /** The remote spreadsheet write. Every failure inside it is caught and
      logged, so it has no effect on the local file or on the outcome. */
  method SaveToSheets(row: Row) {
  }

  /** The confirmations file: whether it exists, and its data rows below the
      header. A file that does not exist has no rows. */
  class ConfirmedFile {
    var present: bool
    var rows: seq<Row>

    ghost predicate Valid()
      reads this
    {
      present || rows == []
    }

    /** The file's text as lines of cells; a missing file has none. */
    function Lines(): seq<seq<string>>
      reads this
    {
      if present then [Header] + CsvLines(rows) else []
    }

    constructor (present: bool, rows: seq<Row>)
      requires present || rows == []
      ensures Valid() && this.present == present && this.rows == rows
    {
      this.present := present;
      this.rows := rows;
    }

    /** init_db: creates a header-only file when there is none, and leaves an
        existing file alone; so a second call changes nothing. */
    method InitDb()
      requires Valid()
      modifies this
      ensures Valid() && present && rows == old(rows)
      ensures old(present) ==> unchanged(this)
      ensures !old(present) ==> Lines() == [Header]
    {
      if !present {
        present := true;
        rows := [];
      }
    }

    /** rsvp: validates one submission against the master list and the file
        and, when every check passes, appends exactly one row. */
    method Rsvp(master: Option<seq<MasterRow>>, rawName: string, count: Option<int>,
                mensaje: string, fecha: string) returns (outcome: Outcome)
      requires Valid()
      modifies this
      ensures Valid()
      ensures outcome == Decide(Loaded(master), old(rows), rawName, count)
      ensures outcome.Success? ==>
        present && rows == old(rows) + [Row(fecha, outcome.guest, count.value, mensaje)]
      ensures outcome.Error? ==> unchanged(this)
      ensures old(UniqueNames(rows)) ==> UniqueNames(rows)
    {
      var name := Trim(rawName);
      if count.None? {
        return Error(InvalidNumber);
      }
      var n := count.value;
      var roster := LoadRoster(master);
      if name !in roster {
        return Error(NameNotFound(name));
      }
      var allowed := roster[name];
      if n > allowed {
        return Error(SeatLimit(allowed));
      }
      InitDb();
      if IsConfirmed(rows, name) {
        return Error(AlreadyConfirmed(name));
      }
      var row := Row(fecha, name, n, mensaje);
      ghost var before := rows;
      rows := rows + [row];
      SaveToSheets(row);
      SuccessIff(roster, before, rawName, count);
      outcome := Success(name);
    }
  }
}
