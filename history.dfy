/** The undo/redo history of app.js: two stacks of saved states. Every
    render that is not itself replaying a saved state pushes a snapshot,
    dropping the oldest once more than MAX_HISTORY = 20 are kept, and empties
    the redo stack; undo moves the top snapshot to the redo stack and shows
    the one below it; redo moves it back. The undo button is disabled while
    at most one snapshot is kept, the redo button while the redo stack is
    empty. */
module UndoHistory {

  datatype Option<T> = None | Some(value: T)

  const MaxHistory: nat := 20

  /** The two stacks; the top of each is its last element. */
  datatype Stacks<T> = Stacks(history: seq<T>, redo: seq<T>)

  /** Between them the stacks never hold more than MaxHistory snapshots:
      saving starts from an empty redo stack, undo and redo only move one. */
  predicate Bounded<T>(s: Stacks<T>)
  {
    |s.history| + |s.redo| <= MaxHistory
  }

  /** saveToHistory: push, shift once if over the limit, clear redo. */
  function Saved<T>(s: Stacks<T>, entry: T): Stacks<T>
  {
    var pushed := s.history + [entry];
    Stacks(if |pushed| > MaxHistory then pushed[1..] else pushed, [])
  }

  /** undoAction: nothing while at most one snapshot is kept. */
  function Undone<T>(s: Stacks<T>): Stacks<T>
  {
    if |s.history| <= 1 then s
    else Stacks(s.history[..|s.history| - 1], s.redo + [s.history[|s.history| - 1]])
  }

  /** redoAction: nothing while the redo stack is empty. */
  function Redone<T>(s: Stacks<T>): Stacks<T>
  {
    if |s.redo| == 0 then s
    else Stacks(s.history + [s.redo[|s.redo| - 1]], s.redo[..|s.redo| - 1])
  }

  /** Loading a new image and resetting both empty the two stacks. */
  function Cleared<T>(): Stacks<T>
  {
    Stacks([], [])
  }

  /** The undo button is enabled exactly when more than one snapshot is kept. */
  predicate UndoEnabled<T>(s: Stacks<T>)
  {
    |s.history| > 1
  }

  /** The redo button is enabled exactly when the redo stack is not empty. */
  predicate RedoEnabled<T>(s: Stacks<T>)
  {
    |s.redo| != 0
  }

  /** Saving keeps at most MaxHistory snapshots, the new one on top and the
      others the most recent ones in order, and disables redo. */
  lemma SavedKeepsRecent<T>(s: Stacks<T>, entry: T)
    requires Bounded(s)
    ensures Bounded(Saved(s, entry))
    ensures var h := Saved(s, entry).history;
      |h| == (if |s.history| < MaxHistory then |s.history| + 1 else MaxHistory)
      && h[|h| - 1] == entry
      && h[..|h| - 1] == s.history[|s.history| + 1 - |h|..]
    ensures !RedoEnabled(Saved(s, entry))
  {
    var pushed := s.history + [entry];
    var h := Saved(s, entry).history;
    if |pushed| > MaxHistory {
      assert h[..|h| - 1] == s.history[1..];
    } else {
      assert h[..|h| - 1] == s.history;
    }
  }

  /** Undo and redo keep the bound. */
  lemma MovesKeepBound<T>(s: Stacks<T>)
    requires Bounded(s)
    ensures Bounded(Undone(s)) && Bounded(Redone(s)) && Bounded(Cleared<T>())
  {
  }

  /** Each button is enabled exactly when its action would change something. */
  lemma ButtonsMatchActions<T>(s: Stacks<T>)
    ensures UndoEnabled(s) <==> Undone(s) != s
    ensures RedoEnabled(s) <==> Redone(s) != s
  {
    if UndoEnabled(s) {
      assert |Undone(s).history| < |s.history|;
    }
    if RedoEnabled(s) {
      assert |Redone(s).redo| < |s.redo|;
    }
  }

  /** An effective undo followed by a redo restores both stacks exactly. */
  lemma UndoThenRedo<T>(s: Stacks<T>)
    requires UndoEnabled(s)
    ensures Redone(Undone(s)) == s
  {
    var u := Undone(s);
    assert u.redo[..|u.redo| - 1] == s.redo;
    assert u.history + [u.redo[|u.redo| - 1]] == s.history;
  }

  /** A redo followed by an undo restores both stacks, unless the history
      was empty (then the undo finds a single snapshot and does nothing). */
  lemma RedoThenUndo<T>(s: Stacks<T>)
    requires RedoEnabled(s) && |s.history| >= 1
    ensures Undone(Redone(s)) == s
  {
    var r := Redone(s);
    assert r.history[..|r.history| - 1] == s.history;
    assert r.redo + [r.history[|r.history| - 1]] == s.redo;
  }

  /** Undo then redo shows the snapshot that was on top before the undo. */
  lemma UndoShowsPrevious<T>(s: Stacks<T>)
    requires UndoEnabled(s)
    ensures var u := Undone(s); |u.history| >= 1 && u.history[|u.history| - 1] == s.history[|s.history| - 2]
    ensures RedoEnabled(Undone(s))
  {
  }

  /** historyStack and redoStack of app.js. */
  class History<T> {
    var historyStack: seq<T>
    var redoStack: seq<T>

    /** The two stacks as a value. */
    function State(): Stacks<T>
      reads this
    {
      Stacks(historyStack, redoStack)
    }

    /** Both stacks start empty. */
    constructor ()
      ensures State() == Cleared<T>()
    {
      historyStack, redoStack := [], [];
    }

    /** saveToHistory. */
    method Save(entry: T)
      modifies this
      ensures State() == Saved(old(State()), entry)
    {
      historyStack := historyStack + [entry];
      if |historyStack| > MaxHistory {
        historyStack := historyStack[1..];
      }
      redoStack := [];
    }

    /** undoAction: returns the snapshot to show, or None when it does nothing. */
    method Undo() returns (restored: Option<T>)
      modifies this
      ensures State() == Undone(old(State()))
      ensures restored == if UndoEnabled(old(State())) then Some(historyStack[|historyStack| - 1]) else None
    {
      if |historyStack| <= 1 {
        return None;
      }
      redoStack := redoStack + [historyStack[|historyStack| - 1]];
      historyStack := historyStack[..|historyStack| - 1];
      restored := None;
      if |historyStack| > 0 {
        restored := Some(historyStack[|historyStack| - 1]);
      }
    }

    /** redoAction: returns the snapshot to show, or None when it does nothing. */
    method Redo() returns (restored: Option<T>)
      modifies this
      ensures State() == Redone(old(State()))
      ensures restored == if RedoEnabled(old(State())) then Some(historyStack[|historyStack| - 1]) else None
    {
      if |redoStack| == 0 {
        return None;
      }
      var state := redoStack[|redoStack| - 1];
      redoStack := redoStack[..|redoStack| - 1];
      historyStack := historyStack + [state];
      restored := Some(state);
    }

    /** historyStack.length = 0; redoStack.length = 0. */
    method Clear()
      modifies this
      ensures State() == Cleared<T>()
    {
      historyStack, redoStack := [], [];
    }

    /** updateUndoRedoButtons: whether each button is enabled. */
    method ButtonStates() returns (undoEnabled: bool, redoEnabled: bool)
      ensures undoEnabled == UndoEnabled(State()) && redoEnabled == RedoEnabled(State())
    {
      undoEnabled := !(|historyStack| <= 1);
      redoEnabled := !(|redoStack| == 0);
    }
  }
}
