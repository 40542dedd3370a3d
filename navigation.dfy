/** The screen selector of `MainContent` (MainActivity.kt): three
    mutually exclusive screens and the callbacks each one offers. */
module Navigation {
  import opened Wrappers

  datatype Screen = CsvTable | DbTable | DbChart

  /** The callbacks a screen can fire: `onShowDbTable` (CSV table),
      `onShowChart` and `onShowCsvTable` (database table), `onBack` (database
      chart). */
  datatype Event = ShowDbTable | ShowChart | ShowCsvTable | Back

  /** The screen a callback selects, or None when the current screen does
      not offer that callback. */
  function Next(s: Screen, e: Event): Option<Screen>
  {
    match (s, e)
    case (CsvTable, ShowDbTable) => Some(DbTable)
    case (DbTable, ShowChart) => Some(DbChart)
    case (DbTable, ShowCsvTable) => Some(CsvTable)
    case (DbChart, Back) => Some(DbTable)
    case _ => None
  }

  /** The four transitions, as a relation between screens. */
  const TRANSITIONS: set<(Screen, Screen)> :=
    {(CsvTable, DbTable), (DbTable, DbChart), (DbTable, CsvTable), (DbChart, DbTable)}

  /** Some callback leads from s to t exactly when (s, t) is one of the
      four transitions. */
  lemma NextIsTransitions(s: Screen, t: Screen)
    ensures (exists e :: Next(s, e) == Some(t)) <==> (s, t) in TRANSITIONS
  {
    if (s, t) in TRANSITIONS {
      var e := match s
        case CsvTable => ShowDbTable
        case DbChart => Back
        case DbTable => if t == DbChart then ShowChart else ShowCsvTable;
      assert Next(s, e) == Some(t);
    }
  }

  /** The screen after one callback; one the screen does not offer changes
      nothing. */
  function Step(s: Screen, e: Event): Screen
  {
    match Next(s, e)
    case Some(t) => t
    case None => s
  }

  /** The screens shown while the callbacks fire one after another,
      starting with `s`. */
  function Trace(s: Screen, events: seq<Event>): (r: seq<Screen>)
    ensures |r| == |events| + 1 && r[0] == s
    decreases |events|
  {
    if |events| == 0 then [s] else [s] + Trace(Step(s, events[0]), events[1..])
  }

  /** Two screens shown one right after the other: the same screen, or a
      change to or from the database table. */
  predicate Adjacent(a: Screen, b: Screen)
  {
    a == b || a == DbTable || b == DbTable
  }

  /** The CSV table and the database chart are never shown one right after
      the other: every change of screen goes to or from the database
      table. */
  lemma {:induction false} EveryChangePassesDbTable(s: Screen, events: seq<Event>)
    ensures forall i :: 0 <= i < |events| ==> Adjacent(Trace(s, events)[i], Trace(s, events)[i + 1])
    decreases |events|
  {
    if |events| > 0 {
      var next := Step(s, events[0]);
      var rest := Trace(next, events[1..]);
      EveryChangePassesDbTable(next, events[1..]);
      var tr := Trace(s, events);
      assert tr == [s] + rest;
      forall i | 0 <= i < |events| ensures Adjacent(tr[i], tr[i + 1]) {
        if i == 0 {
          assert tr[1] == rest[0] == next;
        } else {
          assert Adjacent(rest[i - 1], rest[i]);
        }
      }
    }
  }

  /** `currentScreen`, remembered across recompositions. */
  class Navigator {
    var currentScreen: Screen

    constructor ()
      ensures currentScreen == DbTable
    {
      currentScreen := DbTable;
    }

    /** A callback of the current screen fires. */
    method Handle(e: Event)
      modifies this
      ensures currentScreen == Step(old(currentScreen), e)
      ensures (old(currentScreen), currentScreen) in TRANSITIONS || currentScreen == old(currentScreen)
    {
      match Next(currentScreen, e)
      case Some(t) =>
        NextIsTransitions(currentScreen, t);
        currentScreen := t;
      case None =>
    }
  }
}
