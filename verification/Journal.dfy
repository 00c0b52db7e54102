/** An undo journal: the inverse of every mutation and the markers of the frames, in one stream. */
module Journal {
  import opened Collections

  datatype Item<E> = Checkpoint | Commit | Entry(change: E)

  /** Undoing one entry; None when the entry names something that is not there. */
  type Undo<!S, !E> = (S, E) -> Option<S>

  /** The index of the innermost checkpoint that no commit closes, when `closed` commits behind `j` still
      wait for their checkpoint. */
  function OpenIndex<E>(j: seq<Item<E>>, closed: nat): (index: Option<nat>)
    ensures index.Some? ==> index.value < |j| && j[index.value].Checkpoint?
    decreases |j|
  {
    if j == [] then None else
    var rest := j[..|j| - 1];
    match j[|j| - 1]
    case Commit => OpenIndex(rest, closed + 1)
    case Checkpoint => if closed == 0 then Some(|j| - 1) else OpenIndex(rest, closed - 1)
    case Entry(_) => OpenIndex(rest, closed)
  }

  /** The state before the entries of `items`, undone from the last to the first. */
  function Rewind<S, E>(undo: Undo<S, E>, s: S, items: seq<Item<E>>): Option<S>
    decreases |items|
  {
    if items == [] then Some(s) else
    var rest := items[..|items| - 1];
    match items[|items| - 1]
    case Entry(e) =>
      var before := undo(s, e);
      if before.None? then None else Rewind(undo, before.value, rest)
    case _ => Rewind(undo, s, rest)
  }

  /** The states at the open checkpoints of `j`, outermost first, when `j` led to the state `s`. */
  function Snapshots<S, E>(undo: Undo<S, E>, s: S, j: seq<Item<E>>, closed: nat): Option<seq<S>>
    decreases |j|
  {
    if OpenIndex(j, closed).None? then Some([]) else
    var rest := j[..|j| - 1];
    match j[|j| - 1]
    case Commit => Snapshots(undo, s, rest, closed + 1)
    case Checkpoint =>
      if closed > 0 then Snapshots(undo, s, rest, closed - 1) else
      var outer := Snapshots(undo, s, rest, 0);
      if outer.None? then None else Some(outer.value + [s])
    case Entry(e) =>
      var before := undo(s, e);
      if before.None? then None else Snapshots(undo, before.value, rest, closed)
  }

  /** There is a snapshot exactly when there is an open checkpoint. */
  lemma {:induction false} SnapshotsOpen<S, E>(undo: Undo<S, E>, s: S, j: seq<Item<E>>, closed: nat)
    requires Snapshots(undo, s, j, closed).Some?
    ensures Snapshots(undo, s, j, closed).value == [] <==> OpenIndex(j, closed).None?
    decreases |j|
  {
    if OpenIndex(j, closed).Some? {
      var rest := j[..|j| - 1];
      match j[|j| - 1]
      case Commit => SnapshotsOpen(undo, s, rest, closed + 1);
      case Checkpoint => if closed > 0 { SnapshotsOpen(undo, s, rest, closed - 1); }
      case Entry(e) => SnapshotsOpen(undo, undo(s, e).value, rest, closed);
    }
  }

  /** Recording an inverse that does undo the mutation keeps every snapshot. */
  lemma RecordKeeps<S, E>(undo: Undo<S, E>, before: S, after: S, j: seq<Item<E>>, e: E)
    requires undo(after, e) == Some(before)
    ensures OpenIndex(j + [Entry(e)], 0) == OpenIndex(j, 0)
    ensures Snapshots(undo, after, j + [Entry(e)], 0) == Snapshots(undo, before, j, 0)
  {
    assert (j + [Entry(e)])[..|j|] == j;
  }

  /** A checkpoint saves the current state. */
  lemma CheckpointSaves<S, E>(undo: Undo<S, E>, s: S, j: seq<Item<E>>)
    requires Snapshots(undo, s, j, 0).Some?
    ensures Snapshots(undo, s, j + [Checkpoint], 0) == Some(Snapshots(undo, s, j, 0).value + [s])
  {
    assert (j + [Checkpoint])[..|j|] == j;
  }

  /** One more commit behind the journal drops the innermost snapshot and keeps the others. */
  lemma {:induction false} CommitCloses<S, E>(undo: Undo<S, E>, s: S, j: seq<Item<E>>, closed: nat)
    requires OpenIndex(j, closed).Some? && Snapshots(undo, s, j, closed).Some?
    ensures var saved := Snapshots(undo, s, j, closed).value;
            saved != [] && Snapshots(undo, s, j, closed + 1) == Some(saved[..|saved| - 1])
    decreases |j|
  {
    var rest := j[..|j| - 1];
    match j[|j| - 1]
    case Commit => CommitCloses(undo, s, rest, closed + 1);
    case Checkpoint => if closed > 0 { CommitCloses(undo, s, rest, closed - 1); }
    case Entry(e) => CommitCloses(undo, undo(s, e).value, rest, closed);
  }

  /** A commit drops the innermost snapshot: its mutations now belong to the parent. */
  lemma CommitDrops<S, E>(undo: Undo<S, E>, s: S, j: seq<Item<E>>)
    requires OpenIndex(j, 0).Some? && Snapshots(undo, s, j, 0).Some?
    ensures var saved := Snapshots(undo, s, j, 0).value;
            saved != [] && Snapshots(undo, s, j + [Commit], 0) == Some(saved[..|saved| - 1])
  {
    assert (j + [Commit])[..|j|] == j;
    CommitCloses(undo, s, j, 0);
  }

  /** Undoing everything after the open checkpoint succeeds and gives the innermost snapshot; what is left
      of the journal keeps the others. */
  lemma {:induction false} RevertRestores<S, E>(undo: Undo<S, E>, s: S, j: seq<Item<E>>, closed: nat)
    requires OpenIndex(j, closed).Some? && Snapshots(undo, s, j, closed).Some?
    ensures var m := OpenIndex(j, closed).value; var saved := Snapshots(undo, s, j, closed).value;
            && saved != []
            && Rewind(undo, s, j[m + 1..]) == Some(saved[|saved| - 1])
            && Snapshots(undo, saved[|saved| - 1], j[..m], 0) == Some(saved[..|saved| - 1])
    decreases |j|
  {
    var rest, m := j[..|j| - 1], OpenIndex(j, closed).value;
    if j[|j| - 1].Checkpoint? && closed == 0 {
      assert j[m + 1..] == [];
    } else {
      assert j[m + 1..][..|j| - m - 2] == rest[m + 1..] && rest[..m] == j[..m];
      match j[|j| - 1]
      case Commit => RevertRestores(undo, s, rest, closed + 1);
      case Checkpoint => RevertRestores(undo, s, rest, closed - 1);
      case Entry(e) => RevertRestores(undo, undo(s, e).value, rest, closed);
    }
  }

  /** The backward scan for the open checkpoint. */
  method OpenCheckpointIndex<E>(journal: seq<Item<E>>) returns (open: Option<nat>)
    ensures open == OpenIndex(journal, 0)
  {
    var closed := 0;
    assert journal[..|journal|] == journal;
    for index := |journal| downto 0
      invariant closed >= 0 && OpenIndex(journal[..index], closed) == OpenIndex(journal, 0)
    {
      assert journal[..index + 1][..index] == journal[..index];
      match journal[index]
      case Commit => closed := closed + 1;
      case Checkpoint =>
        if closed == 0 { return Some(index); }
        closed := closed - 1;
      case Entry(_) =>
    }
    open := None;
  }
}
