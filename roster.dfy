/** The master guest list (lista_maestra.csv): the roster that maps each guest's
    name to the number of seats set aside for that guest. */
module Roster {
  import opened Wrappers
  import opened Text

  /** One data row of the master list: its Nombre and Asignados cells. */
  datatype MasterRow = MasterRow(nombre: string, asignados: string)

  /** The seat count of one row: int() of the stripped Asignados cell. */
  function Seats(row: MasterRow): Option<int> {
    ParseInt(Trim(row.asignados))
  }

  /** A row whose Asignados cell makes int() raise ValueError. */
  predicate BadSeats(row: MasterRow) {
    Seats(row).None?
  }

  /** The roster built from the rows in order, a later row overwriting an
      earlier one with the same stripped name; None as soon as one Asignados
      cell fails to parse. */
  function RosterOf(rows: seq<MasterRow>): Option<map<string, int>>
    decreases |rows|
  {
    if |rows| == 0 then Some(map[])
    else
      match RosterOf(rows[..|rows| - 1])
      case None => None
      case Some(m) =>
        var last := rows[|rows| - 1];
        match Seats(last)
        case None => None
        case Some(n) => Some(m[Trim(last.nombre) := n])
  }

  /** What loading the master list yields: the empty roster when the file
      cannot be read (source None: the file is missing, or it is not valid
      UTF-8, a ValueError the loader also catches) or some Asignados cell is
      not an integer. */
  function Loaded(source: Option<seq<MasterRow>>): map<string, int> {
    match source
    case None => map[]
    case Some(rows) =>
      match RosterOf(rows)
      case None => map[]
      case Some(m) => m
  }

  /** cargar_lista_maestra: one pass over the rows filling the map; the first
      row whose seat count does not parse discards the partial map. */
  method LoadRoster(source: Option<seq<MasterRow>>) returns (roster: map<string, int>)
    ensures roster == Loaded(source)
  {
    if source.None? {
      return map[];
    }
    var rows := source.value;
    var m: map<string, int> := map[];
    var i := 0;
    while i < |rows|
      invariant 0 <= i <= |rows|
      invariant RosterOf(rows[..i]) == Some(m)
    {
      var row := rows[i];
      var seats := ParseInt(Trim(row.asignados));
      assert rows[..i + 1][..i] == rows[..i];
      if seats.None? {
        FailedPrefixFails(rows, i + 1);
        return map[];
      }
      m := m[Trim(row.nombre) := seats.value];
      i := i + 1;
    }
    assert rows[..i] == rows;
    roster := m;
  }

  /** Once a prefix of the rows fails to load, the whole list fails. */
  lemma {:induction false} FailedPrefixFails(rows: seq<MasterRow>, j: nat)
    requires j <= |rows|
    requires RosterOf(rows[..j]) == None
    ensures RosterOf(rows) == None
    decreases |rows| - j
  {
    if j < |rows| {
      assert rows[..j + 1][..j] == rows[..j];
      FailedPrefixFails(rows, j + 1);
    } else {
      assert rows[..j] == rows;
    }
  }

  /** Loading fails exactly when some row's Asignados cell is not an integer. */
  lemma {:induction false} RosterFailsIffBadRow(rows: seq<MasterRow>)
    ensures RosterOf(rows).None? <==> exists i :: 0 <= i < |rows| && BadSeats(rows[i])
    decreases |rows|
  {
    if |rows| > 0 {
      var init := rows[..|rows| - 1];
      var last := |rows| - 1;
      RosterFailsIffBadRow(init);
      if RosterOf(init).None? {
        var i :| 0 <= i < |init| && BadSeats(init[i]);
        assert init[i] == rows[i];
      } else if BadSeats(rows[last]) {
        assert RosterOf(rows).None?;
      } else {
        assert RosterOf(rows).Some?;
        assert forall i :: 0 <= i < |init| ==> !BadSeats(init[i]);
        assert forall i :: 0 <= i < |init| ==> init[i] == rows[i];
      }
    }
  }

  /** The keys of a loaded roster are exactly the stripped names of the rows. */
  lemma {:induction false} RosterKeys(rows: seq<MasterRow>, m: map<string, int>)
    requires RosterOf(rows) == Some(m)
    ensures forall k :: k in m <==> exists i :: 0 <= i < |rows| && Trim(rows[i].nombre) == k
    decreases |rows|
  {
    if |rows| > 0 {
      var init := rows[..|rows| - 1];
      var m' := RosterOf(init).value;
      RosterKeys(init, m');
      assert forall i :: 0 <= i < |init| ==> init[i] == rows[i];
    }
  }

  /** A name maps to the seat count of the last row that carries it. */
  lemma {:induction false} RosterValueIsLastRow(rows: seq<MasterRow>, m: map<string, int>, i: nat)
    requires RosterOf(rows) == Some(m)
    requires i < |rows|
    requires forall j :: i < j < |rows| ==> Trim(rows[j].nombre) != Trim(rows[i].nombre)
    ensures Trim(rows[i].nombre) in m && Some(m[Trim(rows[i].nombre)]) == Seats(rows[i])
    decreases |rows|
  {
    if i < |rows| - 1 {
      var init := rows[..|rows| - 1];
      assert init[i] == rows[i];
      assert forall j :: i < j < |init| ==> init[j] == rows[j];
      RosterValueIsLastRow(init, RosterOf(init).value, i);
    }
  }

  /** Loading is all or nothing: the empty roster for a missing file or for any
      unparsable seat count, and otherwise one entry per distinct stripped name. */
  lemma LoadedAllOrNothing(source: Option<seq<MasterRow>>)
    ensures source.None? ==> Loaded(source) == map[]
    ensures source.Some? && (exists i :: 0 <= i < |source.value| && BadSeats(source.value[i])) ==>
              Loaded(source) == map[]
    ensures source.Some? && (forall i :: 0 <= i < |source.value| ==> !BadSeats(source.value[i])) ==>
              forall k :: k in Loaded(source) <==> exists i :: 0 <= i < |source.value| && Trim(source.value[i].nombre) == k
  {
    if source.Some? {
      RosterFailsIffBadRow(source.value);
      if RosterOf(source.value).Some? {
        RosterKeys(source.value, RosterOf(source.value).value);
      }
    }
  }
}
