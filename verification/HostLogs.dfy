/** Log records under the journal: appending to a record is not journaled, so it is safe only while the
    listing of that record is still in the innermost open frame. */
module HostLogs {
  import opened Collections
  import opened Journal
  import opened HostModel
  import opened HostOps

  /** A log was begun since the innermost open checkpoint. */
  function LogInFrame(j: seq<Item<Change>>, closed: nat): bool
    decreases |j|
  {
    if j == [] then false else
    var rest := j[..|j| - 1];
    match j[|j| - 1]
    case Commit => LogInFrame(rest, closed + 1)
    case Checkpoint => closed != 0 && LogInFrame(rest, closed - 1)
    case Entry(e) => e.LogAppended? || LogInFrame(rest, closed)
  }

  /** It is what a revert would undo. */
  lemma {:induction false} LogInFrameIsUndone(j: seq<Item<Change>>, closed: nat)
    requires OpenIndex(j, closed).Some?
    ensures LogInFrame(j, closed) <==> Entry(LogAppended) in j[OpenIndex(j, closed).value + 1..]
    decreases |j|
  {
    var rest, m := j[..|j| - 1], OpenIndex(j, closed).value;
    if m + 1 < |j| {
      assert j[m + 1..] == rest[m + 1..] + [j[|j| - 1]];
      match j[|j| - 1]
      case Commit => LogInFrameIsUndone(rest, closed + 1);
      case Checkpoint => LogInFrameIsUndone(rest, closed - 1);
      case Entry(e) => LogInFrameIsUndone(rest, closed);
    }
  }

  lemma UndoneLogs(s: Store, e: Change)
    requires UndoEntry(s, e).Some?
    ensures |UndoEntry(s, e).value.logs| == |s.logs| - if e.LogAppended? then 1 else 0
  {
  }

  /** It shows in the number of logs. */
  lemma {:induction false} LogInFrameCounts(s: Store, j: seq<Item<Change>>, closed: nat)
    requires OpenIndex(j, closed).Some? && Snapshots(UndoEntry, s, j, closed).Some?
    ensures var saved := Snapshots(UndoEntry, s, j, closed).value;
            && saved != []
            && |saved[|saved| - 1].logs| <= |s.logs|
            && (LogInFrame(j, closed) <==> |saved[|saved| - 1].logs| < |s.logs|)
    decreases |j|
  {
    var rest := j[..|j| - 1];
    match j[|j| - 1]
    case Commit => LogInFrameCounts(s, rest, closed + 1);
    case Checkpoint => if closed > 0 { LogInFrameCounts(s, rest, closed - 1); }
    case Entry(e) =>
      UndoneLogs(s, e);
      LogInFrameCounts(UndoEntry(s, e).value, rest, closed);
  }

  /** `t` is `s` with a longer last log record. */
  ghost predicate Grown(s: Store, t: Store) {
    && s.logs != [] && |t.logs| == |s.logs|
    && t.logs[..|s.logs| - 1] == s.logs[..|s.logs| - 1]
    && t.logs[|s.logs| - 1].offset == s.logs[|s.logs| - 1].offset <= |s.logData|
    && s.logData <= t.logData
    && t == s.(logs := t.logs, logData := t.logData)
  }

  /** Undoing the listing forgets the growth; undoing anything else keeps it. */
  lemma GrownUndone(s: Store, t: Store, e: Change)
    requires Grown(s, t)
    ensures UndoEntry(s, e).Some? <==> UndoEntry(t, e).Some?
    ensures e.LogAppended? ==> UndoEntry(s, e) == UndoEntry(t, e)
    ensures !e.LogAppended? && UndoEntry(s, e).Some? ==> Grown(UndoEntry(s, e).value, UndoEntry(t, e).value)
  {
    if e.LogAppended? {
      var offset := s.logs[|s.logs| - 1].offset;
      assert CutAt(t.logData, offset) == CutAt(s.logData, offset);
    } else {
      OtherUndone(s, t, e);
    }
  }

  lemma OtherUndone(s: Store, t: Store, e: Change)
    requires !e.LogAppended? && t == s.(logs := t.logs, logData := t.logData)
    ensures Restore(t, e) == if Restore(s, e).None? then None else
                             Some(Restore(s, e).value.(logs := t.logs, logData := t.logData))
    ensures Restore(s, e).Some? ==> Restore(s, e).value.logs == s.logs && Restore(s, e).value.logData == s.logData
  {
  }

  /** The snapshots after a record grew: the same if the record belongs to the innermost frame, and otherwise
      the innermost snapshot has grown too. */
  lemma {:induction false} GrownSnapshots(s: Store, t: Store, j: seq<Item<Change>>, closed: nat)
    requires Grown(s, t) && OpenIndex(j, closed).Some? && Snapshots(UndoEntry, s, j, closed).Some?
    ensures Snapshots(UndoEntry, t, j, closed).Some?
    ensures LogInFrame(j, closed) ==> Snapshots(UndoEntry, t, j, closed) == Snapshots(UndoEntry, s, j, closed)
    ensures !LogInFrame(j, closed) ==>
            var was, now := Snapshots(UndoEntry, s, j, closed).value, Snapshots(UndoEntry, t, j, closed).value;
            && was != [] && |was[|was| - 1].logs| == |s.logs|
            && now != [] && |now[|now| - 1].logs| == |s.logs|
            && was[|was| - 1].logs[|s.logs| - 1] == s.logs[|s.logs| - 1]
            && now[|now| - 1].logs[|s.logs| - 1] == t.logs[|s.logs| - 1]
    decreases |j|
  {
    var rest := j[..|j| - 1];
    match j[|j| - 1]
    case Commit => GrownSnapshots(s, t, rest, closed + 1);
    case Checkpoint =>
      if closed > 0 { GrownSnapshots(s, t, rest, closed - 1); }
      else if OpenIndex(rest, 0).Some? { GrownSnapshots(s, t, rest, 0); }
    case Entry(e) =>
      GrownUndone(s, t, e);
      if !e.LogAppended? {
        OtherUndone(s, t, e);
        GrownSnapshots(UndoEntry(s, e).value, UndoEntry(t, e).value, rest, closed);
      }
  }

  /** Exactly when log_add_topic keeps every snapshot: no frame is open, or the frame began the log itself. */
  lemma TopicKeepsSnapshots(h: Host, topic: Word)
    requires Saved(h).Some? && LogReady(h) && h.currentLog == Some(|h.store.logs| - 1)
    requires h.store.logs[|h.store.logs| - 1].offset <= |h.store.logData|
    ensures Saved(AddTopic(h, topic).value) == Saved(h) <==> !FrameOpen(h) || LogInFrame(h.journal, 0)
  {
    if FrameOpen(h) {
      var n := |h.store.logs| - 1;
      var t := TopicAdded(h.store, n, topic);
      assert |t.logs[n].topics| == |h.store.logs[n].topics| + 1;
      GrownSnapshots(Observed(h.store), Observed(t), h.journal, 0);
    }
  }

  /** Exactly when appending data keeps every snapshot: also when there is nothing to append. */
  lemma DataKeepsSnapshots(h: Host, payload: seq<bv8>)
    requires Saved(h).Some? && LogReady(h) && h.currentLog == Some(|h.store.logs| - 1)
    requires h.store.logs[|h.store.logs| - 1].offset <= |h.store.logData|
    ensures Saved(AddData(h, payload).value) == Saved(h) <==>
            payload == [] || !FrameOpen(h) || LogInFrame(h.journal, 0)
  {
    var n := |h.store.logs| - 1;
    var t := DataAdded(h.store, n, payload);
    if payload == [] {
      assert t == h.store;
    } else if FrameOpen(h) {
      assert t.logs[n].length != h.store.logs[n].length;
      GrownSnapshots(Observed(h.store), Observed(t), h.journal, 0);
    }
  }

  /** A topic added across a checkpoint survives the revert of that checkpoint. */
  lemma TopicAcrossCheckpoint(h: Host, a: Address, topic: Word)
    ensures var begun := BeginLog(h, a);
            var reverted := RevertFrame(AddTopic(CheckpointFrame(begun), topic).value).value;
            reverted.store.logs[|h.store.logs|].topics == [topic] && begun.store.logs[|h.store.logs|].topics == []
  {
    var g := AddTopic(CheckpointFrame(BeginLog(h, a)), topic).value;
    assert OpenIndex(g.journal, 0) == Some(|g.journal| - 1);
    assert g.journal[|g.journal|..] == [];
  }
}
