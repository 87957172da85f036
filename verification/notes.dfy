/** The notes editor's state (apps/day03-notes/app.js): the list of notes, the selected
    note, and per-note undo and redo stacks of snapshots capped at 60 entries; creating,
    deleting and selecting notes; committing a block edit; importing notes; and the
    relative-time label. Ids and timestamps are supplied by the caller: timestamps are
    milliseconds, and `now` stands for the clock. */
module Notes {
  import opened Common
  import opened Seqs
  import opened NoteBlocks

  const HistoryLimit: nat := 60

  datatype Note = Note(id: string, title: string, blocks: seq<Block>, createdAt: int, updatedAt: int)

  /** What an undo snapshot keeps of a note. */
  datatype Snapshot = Snapshot(title: string, blocks: seq<Block>)

  datatype Stacks = Stacks(undo: seq<Snapshot>, redo: seq<Snapshot>)

  /** The editor: the notes in list order, the selected note's id, and the history map. */
  datatype Editor = Editor(notes: seq<Note>, selected: Option<string>, history: map<string, Stacks>)

  function SnapshotOf(n: Note): Snapshot {
    Snapshot(n.title, n.blocks)
  }

  predicate HasNote(ns: seq<Note>, id: string) {
    exists k :: 0 <= k < |ns| && ns[k].id == id
  }

  /** `notes.find(n => n.id === id)`, as an index: the first note with the id, or -1. */
  function NoteIndex(ns: seq<Note>, id: string): (r: int)
    ensures -1 <= r < |ns|
    ensures r == -1 <==> !HasNote(ns, id)
    ensures r >= 0 ==> ns[r].id == id && forall k :: 0 <= k < r ==> ns[k].id != id
    decreases |ns|
  {
    if |ns| == 0 then -1
    else if ns[0].id == id then 0
    else
      var k := NoteIndex(ns[1..], id);
      if k == -1 then
        assert forall j :: 1 <= j < |ns| ==> ns[j] == ns[1..][j - 1];
        -1
      else k + 1
  }

  /* ---------- history ---------- */

  /** Every note's two stacks hold at most 60 snapshots between them. */
  predicate Bounded(h: map<string, Stacks>) {
    forall k :: k in h ==> |h[k].undo| + |h[k].redo| <= HistoryLimit
  }

  function UndoStack(h: map<string, Stacks>, id: string): seq<Snapshot> {
    if id in h then h[id].undo else []
  }

  /** pushHistory: append a snapshot of the note, drop the oldest one when there are more
      than 60, and empty the redo stack. */
  function PushHistory(h: map<string, Stacks>, n: Note): (r: map<string, Stacks>)
    ensures r.Keys == h.Keys + {n.id}
    ensures forall k :: k in h && k != n.id ==> r[k] == h[k]
    ensures r[n.id].redo == []
    ensures |r[n.id].undo| > 0 && r[n.id].undo[|r[n.id].undo| - 1] == SnapshotOf(n)
    ensures |UndoStack(h, n.id)| <= HistoryLimit ==>
              |r[n.id].undo| == Min(|UndoStack(h, n.id)| + 1, HistoryLimit) &&
              r[n.id].undo[..|r[n.id].undo| - 1] ==
                UndoStack(h, n.id)[|UndoStack(h, n.id)| + 1 - |r[n.id].undo|..]
    ensures Bounded(h) ==> Bounded(r)
  {
    var u := UndoStack(h, n.id) + [SnapshotOf(n)];
    h[n.id := Stacks(if |u| > HistoryLimit then u[1..] else u, [])]
  }

  /** applySnapshotToNote: the snapshot's title and blocks, stamped with the current time. */
  function ApplySnapshot(n: Note, s: Snapshot, now: int): (r: Note)
    ensures SnapshotOf(r) == s && r.id == n.id && r.createdAt == n.createdAt && r.updatedAt == now
  {
    n.(title := s.title, blocks := s.blocks, updatedAt := now)
  }

  /** The conditions under which undo acts: a selected note that exists and has a
      non-empty undo stack. The source would throw on a selected id with no note, before
      changing anything. */
  predicate CanUndo(e: Editor) {
    e.selected.Some? && e.selected.value in e.history && |e.history[e.selected.value].undo| > 0 &&
    HasNote(e.notes, e.selected.value)
  }

  predicate CanRedo(e: Editor) {
    e.selected.Some? && e.selected.value in e.history && |e.history[e.selected.value].redo| > 0 &&
    HasNote(e.notes, e.selected.value)
  }

  /** undo: the selected note's current title and blocks go onto the redo stack, and the
      most recent undo snapshot is popped and applied. */
  function Undo(e: Editor, now: int): (r: Editor)
    ensures !CanUndo(e) ==> r == e
    ensures r.selected == e.selected && r.history.Keys == e.history.Keys && |r.notes| == |e.notes|
    ensures CanUndo(e) ==>
              var id := e.selected.value;
              var i := NoteIndex(e.notes, id);
              r.history[id].undo == e.history[id].undo[..|e.history[id].undo| - 1] &&
              r.history[id].redo == e.history[id].redo + [SnapshotOf(e.notes[i])] &&
              SnapshotOf(r.notes[i]) == e.history[id].undo[|e.history[id].undo| - 1] &&
              forall k :: 0 <= k < |e.notes| && k != i ==> r.notes[k] == e.notes[k]
    ensures forall k :: k in e.history && k != e.selected.GetOr("") ==> r.history[k] == e.history[k]
    ensures Bounded(e.history) ==> Bounded(r.history)
  {
    if !CanUndo(e) then e
    else
      var id := e.selected.value;
      var st := e.history[id];
      var i := NoteIndex(e.notes, id);
      var snap := st.undo[|st.undo| - 1];
      Editor(e.notes[i := ApplySnapshot(e.notes[i], snap, now)], e.selected,
             e.history[id := Stacks(st.undo[..|st.undo| - 1], st.redo + [SnapshotOf(e.notes[i])])])
  }

  /** Redo pops a snapshot before it looks the note up: on a selected id with a redo
      snapshot but no note, the pop happens and then the lookup throws. */
  predicate RedoPopsThenThrows(e: Editor) {
    e.selected.Some? && e.selected.value in e.history && |e.history[e.selected.value].redo| > 0 &&
    !HasNote(e.notes, e.selected.value)
  }

  /** redo: the mirror image of undo. The undo stack is not capped here. */
  function Redo(e: Editor, now: int): (r: Editor)
    ensures !CanRedo(e) && !RedoPopsThenThrows(e) ==> r == e
    ensures RedoPopsThenThrows(e) ==>
              var id := e.selected.value;
              r == e.(history := e.history[id := e.history[id].(redo := e.history[id].redo[..|e.history[id].redo| - 1])])
    ensures r.selected == e.selected && r.history.Keys == e.history.Keys && |r.notes| == |e.notes|
    ensures CanRedo(e) ==>
              var id := e.selected.value;
              var i := NoteIndex(e.notes, id);
              r.history[id].redo == e.history[id].redo[..|e.history[id].redo| - 1] &&
              r.history[id].undo == e.history[id].undo + [SnapshotOf(e.notes[i])] &&
              SnapshotOf(r.notes[i]) == e.history[id].redo[|e.history[id].redo| - 1] &&
              forall k :: 0 <= k < |e.notes| && k != i ==> r.notes[k] == e.notes[k]
    ensures forall k :: k in e.history && k != e.selected.GetOr("") ==> r.history[k] == e.history[k]
    ensures Bounded(e.history) ==> Bounded(r.history)
  {
    if RedoPopsThenThrows(e) then
      var id := e.selected.value;
      e.(history := e.history[id := e.history[id].(redo := e.history[id].redo[..|e.history[id].redo| - 1])])
    else if !CanRedo(e) then e
    else
      var id := e.selected.value;
      var st := e.history[id];
      var i := NoteIndex(e.notes, id);
      var snap := st.redo[|st.redo| - 1];
      Editor(e.notes[i := ApplySnapshot(e.notes[i], snap, now)], e.selected,
             e.history[id := Stacks(st.undo + [SnapshotOf(e.notes[i])], st.redo[..|st.redo| - 1])])
  }

  lemma NoteIndexUnchanged(ns: seq<Note>, i: nat, n: Note, id: string)
    requires i < |ns| && NoteIndex(ns, id) == i && n.id == id
    ensures NoteIndex(ns[i := n], id) == i
  {
    var ns' := ns[i := n];
    assert ns'[i].id == id;
    assert forall k :: 0 <= k < i ==> ns'[k].id != id;
  }

  /** Redo right after an undo puts back the note's title and blocks and both stacks; only
      the note's modification time differs. */
  lemma RedoAfterUndo(e: Editor, t1: int, t2: int)
    requires CanUndo(e)
    ensures var i := NoteIndex(e.notes, e.selected.value);
            Redo(Undo(e, t1), t2) == e.(notes := e.notes[i := e.notes[i].(updatedAt := t2)])
  {
    var id := e.selected.value;
    var i := NoteIndex(e.notes, id);
    var u := Undo(e, t1);
    NoteIndexUnchanged(e.notes, i, u.notes[i], id);
    assert CanRedo(u);
    var st := e.history[id];
    assert st.undo[..|st.undo| - 1] + [st.undo[|st.undo| - 1]] == st.undo;
    assert (st.redo + [SnapshotOf(e.notes[i])])[..|st.redo|] == st.redo;
    assert Redo(u, t2).history[id] == st;
    assert Redo(u, t2).history == e.history;
  }

  /** Undo right after a redo likewise restores everything but the modification time. */
  lemma UndoAfterRedo(e: Editor, t1: int, t2: int)
    requires CanRedo(e)
    ensures var i := NoteIndex(e.notes, e.selected.value);
            Undo(Redo(e, t1), t2) == e.(notes := e.notes[i := e.notes[i].(updatedAt := t2)])
  {
    var id := e.selected.value;
    var i := NoteIndex(e.notes, id);
    var st := e.history[id];
    var n := ApplySnapshot(e.notes[i], st.redo[|st.redo| - 1], t1);
    var back := Stacks(st.undo + [SnapshotOf(e.notes[i])], st.redo[..|st.redo| - 1]);
    var u := Editor(e.notes[i := n], e.selected, e.history[id := back]);
    RedoStep(e, t1);
    assert Undo(u, t2) == e.(notes := e.notes[i := e.notes[i].(updatedAt := t2)]) by {
      NoteIndexUnchanged(e.notes, i, n, id);
      assert u.notes[i] == n;
      UndoStep(u, t2);
      assert back.undo[..|back.undo| - 1] == st.undo;
      assert back.redo + [SnapshotOf(n)] == st.redo;
      assert ApplySnapshot(n, SnapshotOf(e.notes[i]), t2) == e.notes[i].(updatedAt := t2);
      HistoryRestored(e.history, id, back);
    }
  }

  lemma HistoryRestored(h: map<string, Stacks>, id: string, s: Stacks)
    requires id in h
    ensures h[id := s][id := h[id]] == h
  {
  }

  /** What redo does when it acts. */
  lemma RedoStep(e: Editor, now: int)
    requires CanRedo(e)
    ensures var id := e.selected.value;
            var st := e.history[id];
            var i := NoteIndex(e.notes, id);
            Redo(e, now) == Editor(e.notes[i := ApplySnapshot(e.notes[i], st.redo[|st.redo| - 1], now)], e.selected,
                                   e.history[id := Stacks(st.undo + [SnapshotOf(e.notes[i])], st.redo[..|st.redo| - 1])])
  {
  }

  /** What undo does when it acts. */
  lemma UndoStep(e: Editor, now: int)
    requires CanUndo(e)
    ensures var id := e.selected.value;
            var st := e.history[id];
            var i := NoteIndex(e.notes, id);
            Undo(e, now) == Editor(e.notes[i := ApplySnapshot(e.notes[i], st.undo[|st.undo| - 1], now)], e.selected,
                                   e.history[id := Stacks(st.undo[..|st.undo| - 1], st.redo + [SnapshotOf(e.notes[i])])])
  {
  }

  /* ---------- editing ---------- */

  /** A block edit on a note (insert, delete, move, slash command or menu change): the
      note with the id gets the new blocks, then a snapshot of the edited note is pushed.
      A missing note changes nothing. */
  function CommitBlocks(e: Editor, id: string, blocks: seq<Block>): (r: Editor)
    ensures !HasNote(e.notes, id) ==> r == e
    ensures HasNote(e.notes, id) ==>
              var i := NoteIndex(e.notes, id);
              |r.notes| == |e.notes| && r.notes[i].blocks == blocks &&
              r.notes[i].title == e.notes[i].title &&
              (forall k :: 0 <= k < |e.notes| && k != i ==> r.notes[k] == e.notes[k]) &&
              r.history == PushHistory(e.history, r.notes[i])
    ensures r.selected == e.selected
  {
    var i := NoteIndex(e.notes, id);
    if i < 0 then e
    else
      var n := e.notes[i].(blocks := blocks);
      Editor(e.notes[i := n], e.selected, PushHistory(e.history, n))
  }

  /** Because the snapshot is taken after the edit, the first undo that follows an edit
      gives back the edited title and blocks: it changes nothing a reader can see. */
  lemma UndoAfterEditShowsEdit(e: Editor, blocks: seq<Block>, now: int)
    requires e.selected.Some? && HasNote(e.notes, e.selected.value)
    ensures var r := CommitBlocks(e, e.selected.value, blocks);
            var i := NoteIndex(e.notes, e.selected.value);
            SnapshotOf(Undo(r, now).notes[i]) == SnapshotOf(r.notes[i])
  {
    var id := e.selected.value;
    var i := NoteIndex(e.notes, id);
    var r := CommitBlocks(e, id, blocks);
    NoteIndexUnchanged(e.notes, i, r.notes[i], id);
  }

  /** Taking the snapshot before the edit, as an undo that reverts the edit needs. */
  function CommitBlocksSnapshotFirst(e: Editor, id: string, blocks: seq<Block>): (r: Editor)
    ensures !HasNote(e.notes, id) ==> r == e
    ensures r.selected == e.selected
  {
    var i := NoteIndex(e.notes, id);
    if i < 0 then e
    else
      Editor(e.notes[i := e.notes[i].(blocks := blocks)], e.selected, PushHistory(e.history, e.notes[i]))
  }

  /** With the snapshot taken first, undo right after an edit restores the blocks and
      title the note had before it. */
  lemma UndoRevertsEdit(e: Editor, blocks: seq<Block>, now: int)
    requires e.selected.Some? && HasNote(e.notes, e.selected.value)
    ensures var i := NoteIndex(e.notes, e.selected.value);
            SnapshotOf(Undo(CommitBlocksSnapshotFirst(e, e.selected.value, blocks), now).notes[i]) ==
              SnapshotOf(e.notes[i])
  {
    var id := e.selected.value;
    var i := NoteIndex(e.notes, id);
    var r := CommitBlocksSnapshotFirst(e, id, blocks);
    NoteIndexUnchanged(e.notes, i, r.notes[i], id);
  }

  /* ---------- notes ---------- */

  /** createNote: an "Untitled" note with one empty paragraph goes first, its initial
      snapshot is recorded, and it becomes the selected note. */
  function CreateNote(e: Editor, id: string, blockId: string, now: int): (r: Editor)
    ensures |r.notes| == |e.notes| + 1 && r.notes[1..] == e.notes
    ensures r.notes[0] == Note(id, "Untitled", [NewParagraph(blockId)], now, now)
    ensures r.selected == Some(id) && id in r.history
    ensures id !in e.history ==> r.history[id] == Stacks([SnapshotOf(r.notes[0])], [])
    ensures forall k :: k in e.history && k != id ==> k in r.history && r.history[k] == e.history[k]
  {
    var n := Note(id, "Untitled", [NewParagraph(blockId)], now, now);
    Editor([n] + e.notes, Some(id), PushHistory(e.history, n))
  }

  /** deleteNote, after the confirmation dialog (`confirmed`): every note with the id
      goes, with its history; if it was selected, the first remaining note is selected, or
      none. */
  function DeleteNote(e: Editor, id: string, confirmed: bool): (r: Editor)
    ensures !confirmed ==> r == e
    ensures confirmed ==> !HasNote(r.notes, id) && id !in r.history && IsSubseq(r.notes, e.notes)
    ensures confirmed ==> forall k :: 0 <= k < |e.notes| && e.notes[k].id != id ==> e.notes[k] in r.notes
    ensures confirmed ==> forall n :: multiset(r.notes)[n] == (if n.id != id then multiset(e.notes)[n] else 0)
    ensures confirmed ==> forall k :: k in e.history && k != id ==> k in r.history && r.history[k] == e.history[k]
    ensures confirmed && e.selected == Some(id) ==>
              r.selected == (if |r.notes| > 0 then Some(r.notes[0].id) else None)
    ensures confirmed && e.selected != Some(id) ==> r.selected == e.selected
  {
    if !confirmed then e
    else
      var keep := OtherNote(id);
      FilterIsSubseq(e.notes, keep);
      FilterCounts(e.notes, keep);
      var ns := Filter(e.notes, keep);
      var sel := if e.selected == Some(id) then (if |ns| > 0 then Some(ns[0].id) else None) else e.selected;
      Editor(ns, sel, e.history - {id})
  }

  function OtherNote(id: string): Note -> bool {
    (n: Note) => n.id != id
  }

  /** selectNote: the id becomes selected; an id with no note clears the selection. */
  function SelectNote(e: Editor, id: string): (r: Editor)
    ensures r.notes == e.notes && r.history == e.history
    ensures r.selected.Some? <==> HasNote(e.notes, id)
    ensures r.selected.Some? ==> r.selected.value == id
  {
    if HasNote(e.notes, id) then e.(selected := Some(id)) else e.(selected := None)
  }

  /* ---------- import ---------- */

  /** A note as read from an import file: an empty id and a missing time stamp are
      JavaScript's falsy values. */
  datatype IncomingNote = IncomingNote(id: string, title: string, blocks: seq<Block>, createdAt: Option<int>, updatedAt: Option<int>)

  /** The parsed file: a falsy value, an object with optional `note` and `notes` (`None`
      when absent or, for `notes`, not an array), or an array of notes. */
  datatype Payload = Falsy | Object(note: Option<IncomingNote>, notes: Option<seq<IncomingNote>>) | List(items: seq<IncomingNote>)

  /** The notes a payload carries, or `None` when it is rejected. */
  function IncomingOf(p: Payload): (r: Option<seq<IncomingNote>>)
    ensures r.None? <==> p.Falsy? || (p.Object? && p.note.None? && p.notes.None?)
  {
    match p
    case Falsy => None
    case Object(note, notes) => if note.Some? then Some([note.value]) else notes
    case List(items) => Some(items)
  }

  /** Fill in a fresh id and the current time where the incoming note has none. */
  function Complete(n: IncomingNote, newId: string, now: int): (r: Note)
    ensures r.id == (if n.id == "" then newId else n.id)
    ensures r.title == n.title && r.blocks == n.blocks
    ensures r.createdAt == (if n.createdAt.Some? then n.createdAt.value else now)
    ensures r.updatedAt == (if n.updatedAt.Some? then n.updatedAt.value else now)
  {
    Note(if n.id == "" then newId else n.id, n.title, n.blocks, n.createdAt.GetOr(now), n.updatedAt.GetOr(now))
  }

  function Ids(ns: seq<Note>): set<string> {
    set n | n in ns :: n.id
  }

  predicate DistinctIds(ns: seq<Note>) {
    forall i, j :: 0 <= i < j < |ns| ==> ns[i].id != ns[j].id
  }

  /** `Map.prototype.set` on a map kept as a list in insertion order: an existing key keeps
      its place and takes the new value; a new key goes last. */
  function Upsert(ns: seq<Note>, n: Note): (r: seq<Note>)
    ensures n in r
    ensures Ids(r) == Ids(ns) + {n.id}
    ensures forall m :: m in ns && m.id != n.id ==> m in r
    ensures forall m :: m in r ==> m == n || m in ns
    ensures DistinctIds(ns) ==> DistinctIds(r)
  {
    var i := NoteIndex(ns, n.id);
    if i < 0 then ns + [n]
    else
      var r := ns[i := n];
      assert r[i] == n;
      forall m | m in ns && m.id != n.id
        ensures m in r
      {
        var j :| 0 <= j < |ns| && ns[j] == m;
        assert r[j] == m;
      }
      assert Ids(r) == Ids(ns) + {n.id} by {
        forall x | x in Ids(ns) ensures x in Ids(r) {
          var m :| m in ns && m.id == x;
          if m.id == n.id { assert n in r; } else { assert m in r; }
        }
      }
      r
  }

  function UpsertAll(ns: seq<Note>, incoming: seq<Note>): (r: seq<Note>)
    ensures Ids(r) == Ids(ns) + Ids(incoming)
    ensures forall m :: m in r ==> m in ns || m in incoming
    ensures DistinctIds(ns) ==> DistinctIds(r)
    decreases |incoming|
  {
    if |incoming| == 0 then ns
    else
      assert Ids(incoming) == {incoming[0].id} + Ids(incoming[1..]) by {
        assert forall m :: m in incoming ==> m == incoming[0] || m in incoming[1..];
      }
      UpsertAll(Upsert(ns, incoming[0]), incoming[1..])
  }

  /** An incoming note that no later incoming note shares an id with ends up in the merge. */
  lemma {:induction false} LastIncomingWins(ns: seq<Note>, incoming: seq<Note>, k: nat)
    requires k < |incoming|
    requires forall j :: k < j < |incoming| ==> incoming[j].id != incoming[k].id
    ensures incoming[k] in UpsertAll(ns, incoming)
    decreases |incoming|
  {
    if k == 0 {
      KeptThroughUpserts(Upsert(ns, incoming[0]), incoming[1..], incoming[0]);
    } else {
      LastIncomingWins(Upsert(ns, incoming[0]), incoming[1..], k - 1);
    }
  }

  lemma {:induction false} KeptThroughUpserts(ns: seq<Note>, incoming: seq<Note>, m: Note)
    requires m in ns
    requires forall j :: 0 <= j < |incoming| ==> incoming[j].id != m.id
    ensures m in UpsertAll(ns, incoming)
    decreases |incoming|
  {
    if |incoming| > 0 {
      KeptThroughUpserts(Upsert(ns, incoming[0]), incoming[1..], m);
    }
  }

  /* the stable sort, newest first */

  predicate NewestFirst(ns: seq<Note>) {
    forall i, j :: 0 <= i < j < |ns| ==> ns[i].updatedAt >= ns[j].updatedAt
  }

  /** Insert `n` after every note at least as recent, which keeps equal time stamps in
      their original order. */
  function InsertByDate(sorted: seq<Note>, n: Note): (r: seq<Note>)
    ensures multiset(r) == multiset(sorted) + multiset{n}
    decreases |sorted|
  {
    if |sorted| == 0 then [n]
    else
      var last := sorted[|sorted| - 1];
      var init := sorted[..|sorted| - 1];
      assert sorted == init + [last];
      if last.updatedAt >= n.updatedAt then sorted + [n]
      else InsertByDate(init, n) + [last]
  }

  predicate AllAtLeast(ns: seq<Note>, t: int) {
    forall i :: 0 <= i < |ns| ==> ns[i].updatedAt >= t
  }

  lemma AtLeastByMultiset(a: seq<Note>, b: seq<Note>, t: int)
    requires multiset(a) == multiset(b) && AllAtLeast(b, t)
    ensures AllAtLeast(a, t)
  {
    forall i | 0 <= i < |a|
      ensures a[i].updatedAt >= t
    {
      assert a[i] in multiset(b);
      var j :| 0 <= j < |b| && b[j] == a[i];
    }
  }

  lemma {:induction false} InsertByDateSorted(sorted: seq<Note>, n: Note)
    requires NewestFirst(sorted)
    ensures NewestFirst(InsertByDate(sorted, n))
    decreases |sorted|
  {
    if |sorted| > 0 {
      var last := sorted[|sorted| - 1];
      var init := sorted[..|sorted| - 1];
      if last.updatedAt < n.updatedAt {
        var r0 := InsertByDate(init, n);
        InsertByDateSorted(init, n);
        assert AllAtLeast(init + [n], last.updatedAt);
        assert multiset(r0) == multiset(init + [n]);
        AtLeastByMultiset(r0, init + [n], last.updatedAt);
        assert InsertByDate(sorted, n) == r0 + [last];
      }
    }
  }

  /** Array.prototype.sort with the comparator `b.updatedAt - a.updatedAt`: a stable sort
      that puts the most recently updated note first. */
  function SortByDate(ns: seq<Note>): (r: seq<Note>)
    ensures multiset(r) == multiset(ns)
    ensures NewestFirst(r)
    decreases |ns|
  {
    if |ns| == 0 then []
    else
      assert ns == ns[..|ns| - 1] + [ns[|ns| - 1]];
      InsertByDateSorted(SortByDate(ns[..|ns| - 1]), ns[|ns| - 1]);
      InsertByDate(SortByDate(ns[..|ns| - 1]), ns[|ns| - 1])
  }

  function Stamped(t: int): Note -> bool {
    (n: Note) => n.updatedAt == t
  }

  /** The notes stamped `t`, in their order. */
  function StampedAt(ns: seq<Note>, t: int): seq<Note> {
    Filter(ns, Stamped(t))
  }

  lemma StampedOne(n: Note, t: int)
    ensures StampedAt([n], t) == (if n.updatedAt == t then [n] else [])
  {
    assert [n][1..] == [];
  }

  lemma StampedConcat(a: seq<Note>, b: seq<Note>, t: int)
    ensures StampedAt(a + b, t) == StampedAt(a, t) + StampedAt(b, t)
  {
    FilterConcat(a, b, Stamped(t));
  }

  /** Inserting a note puts it after every note with its time stamp. */
  lemma {:induction false} InsertByDateStable(sorted: seq<Note>, n: Note, t: int)
    ensures StampedAt(InsertByDate(sorted, n), t) == StampedAt(sorted, t) + StampedAt([n], t)
    decreases |sorted|
  {
    if |sorted| == 0 {
      assert InsertByDate(sorted, n) == [n];
      assert StampedAt(sorted, t) == [];
    } else {
      var last := sorted[|sorted| - 1];
      var init := sorted[..|sorted| - 1];
      assert sorted == init + [last];
      if last.updatedAt >= n.updatedAt {
        assert InsertByDate(sorted, n) == sorted + [n];
        StampedConcat(sorted, [n], t);
      } else {
        var front := InsertByDate(init, n);
        assert InsertByDate(sorted, n) == front + [last];
        InsertByDateStable(init, n, t);
        StampedConcat(front, [last], t);
        StampedConcat(init, [last], t);
        StampedOne(n, t);
        StampedOne(last, t);
        var a, l, m := StampedAt(init, t), StampedAt([last], t), StampedAt([n], t);
        assert StampedAt(front, t) == a + m;
        assert StampedAt(sorted, t) == a + l;
        if n.updatedAt == t {
          assert l == [];
          assert a + m + l == a + l + m;
        } else {
          assert m == [];
          assert a + m + l == a + l + m;
        }
      }
    }
  }

  /** The sort is stable: notes with the same time stamp keep their relative order. */
  lemma {:induction false} SortByDateStable(ns: seq<Note>, t: int)
    ensures StampedAt(SortByDate(ns), t) == StampedAt(ns, t)
    decreases |ns|
  {
    if |ns| > 0 {
      var init := ns[..|ns| - 1];
      var last := ns[|ns| - 1];
      assert ns == init + [last];
      assert SortByDate(ns) == InsertByDate(SortByDate(init), last);
      SortByDateStable(init, t);
      InsertByDateStable(SortByDate(init), last, t);
      StampedConcat(init, [last], t);
    }
  }

  datatype ImportResult = Rejected | Imported(editor: Editor)

  /** The incoming notes completed with fresh ids (`freshId(i)` for the i-th) and time
      stamps. */
  function Completed(incoming: seq<IncomingNote>, freshId: nat -> string, now: int): (r: seq<Note>)
    ensures |r| == |incoming|
    ensures forall i :: 0 <= i < |r| ==> r[i] == Complete(incoming[i], freshId(i), now)
  {
    seq(|incoming|, i requires 0 <= i < |incoming| => Complete(incoming[i], freshId(i), now))
  }

  /** ns[j] is the last note in `ns` with its id. */
  predicate LastWithId(ns: seq<Note>, j: int) {
    0 <= j < |ns| && forall l :: j < l < |ns| ==> ns[l].id != ns[j].id
  }

  /** pushHistory for each incoming note in turn; the ids not incoming keep their
      stacks. */
  function PushAll(h: map<string, Stacks>, ns: seq<Note>): (r: map<string, Stacks>)
    ensures r.Keys == h.Keys + Ids(ns)
    ensures forall k :: k in h && k !in Ids(ns) ==> r[k] == h[k]
    ensures Bounded(h) ==> Bounded(r)
    decreases |ns|
  {
    if |ns| == 0 then h
    else
      assert Ids(ns) == {ns[0].id} + Ids(ns[1..]) by {
        assert forall m :: m in ns ==> m == ns[0] || m in ns[1..];
      }
      PushAll(PushHistory(h, ns[0]), ns[1..])
  }

  lemma LastNotLater(ns: seq<Note>)
    requires LastWithId(ns, 0)
    ensures ns[0].id !in Ids(ns[1..])
  {
    forall m | m in ns[1..]
      ensures m.id != ns[0].id
    {
      var l :| 0 <= l < |ns[1..]| && ns[1..][l] == m;
      assert ns[l + 1] == m;
    }
  }

  /** The stacks of `n`'s id hold a snapshot of `n` on top of the undo stack and an empty
      redo stack, as pushHistory leaves them. */
  predicate HasTop(h: map<string, Stacks>, n: Note) {
    n.id in h && h[n.id].redo == [] && |h[n.id].undo| > 0 &&
    h[n.id].undo[|h[n.id].undo| - 1] == SnapshotOf(n)
  }

  /** After the pushes, every incoming id has an empty redo stack and a snapshot of the
      last incoming note with that id on top of its undo stack. */
  lemma {:induction false} PushAllTops(h: map<string, Stacks>, ns: seq<Note>, j: nat)
    requires LastWithId(ns, j)
    ensures HasTop(PushAll(h, ns), ns[j])
    decreases |ns|
  {
    var h1 := PushHistory(h, ns[0]);
    assert PushAll(h, ns) == PushAll(h1, ns[1..]);
    if j == 0 {
      PushAllHeadTop(h, ns);
      assert HasTop(h1, ns[0]);
    } else {
      LastWithIdTail(ns, j);
      PushAllTops(h1, ns[1..], j - 1);
      assert ns[1..][j - 1] == ns[j];
    }
  }

  lemma PushAllHeadTop(h: map<string, Stacks>, ns: seq<Note>)
    requires LastWithId(ns, 0)
    ensures var r := PushAll(h, ns);
            r[ns[0].id] == PushHistory(h, ns[0])[ns[0].id]
  {
    LastNotLater(ns);
  }

  lemma LastWithIdTail(ns: seq<Note>, j: nat)
    requires LastWithId(ns, j) && j > 0
    ensures LastWithId(ns[1..], j - 1)
  {
    forall l | j - 1 < l < |ns[1..]|
      ensures ns[1..][l].id != ns[1..][j - 1].id
    {
      assert ns[1..][l] == ns[l + 1];
    }
  }

  /** importNotesFile: reject a payload without notes; otherwise merge the completed
      incoming notes into the notes by id (incoming wins), record a snapshot of each, and
      sort newest first. */
  function ImportNotes(e: Editor, p: Payload, freshId: nat -> string, now: int): (r: ImportResult)
    ensures r.Rejected? <==> IncomingOf(p).None?
    ensures r.Imported? ==>
              var inc := Completed(IncomingOf(p).value, freshId, now);
              Ids(r.editor.notes) == Ids(e.notes) + Ids(inc) &&
              NewestFirst(r.editor.notes) &&
              DistinctIds(r.editor.notes) &&
              (forall m :: m in r.editor.notes ==> m in e.notes || m in inc) &&
              r.editor.selected == e.selected &&
              r.editor.history.Keys == e.history.Keys + Ids(inc) &&
              r.editor.history == PushAll(e.history, inc)
    ensures Bounded(e.history) && r.Imported? ==> Bounded(r.editor.history)
  {
    match IncomingOf(p)
    case None => Rejected
    case Some(items) =>
      var inc := Completed(items, freshId, now);
      var merged := UpsertAll(UpsertAll([], e.notes), inc);
      var sorted := SortByDate(merged);
      SortKeepsIds(merged, sorted);
      Imported(Editor(sorted, e.selected, PushAll(e.history, inc)))
  }

  /** After an import, the last incoming note with each id is the top snapshot of that
      id's undo stack, and its redo stack is empty. */
  lemma ImportSnapshotsIncoming(e: Editor, p: Payload, freshId: nat -> string, now: int, j: nat)
    requires IncomingOf(p).Some? && LastWithId(Completed(IncomingOf(p).value, freshId, now), j)
    ensures ImportNotes(e, p, freshId, now).Imported?
    ensures HasTop(ImportNotes(e, p, freshId, now).editor.history,
                   Completed(IncomingOf(p).value, freshId, now)[j])
  {
    PushAllTops(e.history, Completed(IncomingOf(p).value, freshId, now), j);
  }

  lemma SortKeepsIds(ns: seq<Note>, sorted: seq<Note>)
    requires multiset(sorted) == multiset(ns)
    ensures Ids(sorted) == Ids(ns)
    ensures forall m :: m in sorted <==> m in ns
    ensures DistinctIds(ns) ==> DistinctIds(sorted)
  {
    assert forall m :: m in sorted <==> m in multiset(sorted);
    assert forall m :: m in ns <==> m in multiset(ns);
    if DistinctIds(ns) {
      SortKeepsDistinct(ns, sorted);
    }
  }

  lemma SortKeepsDistinct(ns: seq<Note>, sorted: seq<Note>)
    requires multiset(sorted) == multiset(ns) && DistinctIds(ns)
    ensures DistinctIds(sorted)
  {
    if !DistinctIds(sorted) {
      var i, j :| 0 <= i < j < |sorted| && sorted[i].id == sorted[j].id;
      var a, b := sorted[i], sorted[j];
      assert a in multiset(ns) && b in multiset(ns);
      DistinctIdsNoDuplicates(ns, a, b);
      TwiceCounted(sorted, i, j);
      DistinctCount(ns, a);
    }
  }

  /** A note found at two positions is counted at least twice. */
  lemma TwiceCounted(ns: seq<Note>, i: nat, j: nat)
    requires i < j < |ns| && ns[i] == ns[j]
    ensures multiset(ns)[ns[i]] >= 2
  {
    var a := ns[i];
    var front, mid, back := ns[..i], ns[i + 1..j], ns[j + 1..];
    assert ns == front + [a] + mid + [a] + back;
    assert multiset(front + [a] + mid + [a] + back)[a] == multiset(front)[a] + 1 + multiset(mid)[a] + 1 + multiset(back)[a];
  }

  lemma DistinctIdsNoDuplicates(ns: seq<Note>, a: Note, b: Note)
    requires DistinctIds(ns) && a in ns && b in ns && a.id == b.id
    ensures a == b
  {
  }

  lemma {:induction false} DistinctCount(ns: seq<Note>, a: Note)
    requires DistinctIds(ns)
    ensures multiset(ns)[a] <= 1
    decreases |ns|
  {
    if |ns| > 0 {
      assert ns == [ns[0]] + ns[1..];
      DistinctCount(ns[1..], a);
      if ns[0] == a {
        assert a !in ns[1..];
      }
    }
  }

  /** Every incoming note that no later incoming note shares an id with is in the result
      of an import. */
  lemma ImportIncomingWins(e: Editor, p: Payload, freshId: nat -> string, now: int, k: nat)
    requires IncomingOf(p).Some?
    requires var inc := Completed(IncomingOf(p).value, freshId, now);
             k < |inc| && forall j :: k < j < |inc| ==> inc[j].id != inc[k].id
    ensures Completed(IncomingOf(p).value, freshId, now)[k] in ImportNotes(e, p, freshId, now).editor.notes
  {
    var inc := Completed(IncomingOf(p).value, freshId, now);
    var merged := UpsertAll(UpsertAll([], e.notes), inc);
    LastIncomingWins(UpsertAll([], e.notes), inc, k);
    SortKeepsIds(merged, SortByDate(merged));
  }

  /* ---------- relative time ---------- */

  datatype Ago = Ago(amount: int, unit: char)

  /** timeAgo's bucketing of a difference in milliseconds, each step a floor division. */
  function AgoOf(diff: int): (a: Ago)
    ensures a.unit in "smhd"
    ensures diff >= 0 ==> a.amount >= 0
  {
    var s := diff / 1000;
    if s < 60 then Ago(s, 's')
    else
      var m := s / 60;
      if m < 60 then Ago(m, 'm')
      else
        var h := m / 60;
        if h < 24 then Ago(h, 'h') else Ago(h / 24, 'd')
  }

  /** timeAgo: the amount followed by its unit letter. */
  function TimeAgo(now: int, stamp: int): (r: string)
    ensures |r| >= 2 && r[|r| - 1] in "smhd"
    ensures var d := now - stamp;
            (d < 60000 ==> r == IntToString(d / 1000) + "s") &&
            (60000 <= d < 3600000 ==> r == IntToString(d / 60000) + "m") &&
            (3600000 <= d < 86400000 ==> r == IntToString(d / 3600000) + "h") &&
            (86400000 <= d ==> r == IntToString(d / 86400000) + "d")
  {
    TimeAgoBuckets(now - stamp);
    var a := AgoOf(now - stamp);
    IntToString(a.amount) + [a.unit]
  }

  /** The unit is chosen by thresholds of one minute, one hour and one day, and the amount
      is the difference divided once by the unit's length. */
  lemma TimeAgoBuckets(diff: int)
    ensures AgoOf(diff).unit == 's' <==> diff < 60000
    ensures AgoOf(diff).unit == 'm' <==> 60000 <= diff < 3600000
    ensures AgoOf(diff).unit == 'h' <==> 3600000 <= diff < 86400000
    ensures AgoOf(diff).unit == 'd' <==> 86400000 <= diff
    ensures AgoOf(diff).amount == diff / (match AgoOf(diff).unit
                                          case 's' => 1000 case 'm' => 60000
                                          case 'h' => 3600000 case _ => 86400000)
  {
    var s := diff / 1000;
    assert s < 60 <==> diff < 60000;
    if s >= 60 {
      var m := s / 60;
      assert m == diff / 60000;
      if m >= 60 {
        var h := m / 60;
        assert h == diff / 3600000;
        assert h / 24 == diff / 86400000;
      }
    }
  }
}
