/** What the command history promises over sequences of calls: replay order,
 *  pruning of the redo branch, the capacity bound, reset, and agreement with
 *  a two-stack reference model of linear undo/redo.
 */
module HistoryProperties {
  import opened Commands
  import opened History

  // ---------------------------------------------------------------------------
  // Construction and replay

  /** A fresh history holds only the ClearCommand, and a replay pass on it
   *  hands out nothing: the first getNextCommand returns null. */
  lemma InitialState()
    ensures Valid(Initial())
    ensures Initial().queue == [Clear] && Initial().counter == 1 && Initial().index == 1
    ensures Next(Initial()).command.None? && Next(Initial()).after == Initial()
    ensures Drain(Initial()).commands == []
  {
  }

  /** Calling getNextCommand until it returns null yields the active prefix from
   *  the cursor on, in queue order, and leaves the cursor at the counter, where
   *  every further call returns null and changes nothing. */
  lemma {:induction false} DrainReplaysActive(s: State)
    requires Valid(s)
    ensures Drain(s).commands == s.queue[s.index..s.counter]
    ensures Drain(s).final == s.(index := s.counter)
    ensures Next(Drain(s).final).command.None? && Next(Drain(s).final).after == Drain(s).final
    decreases s.counter - s.index
  {
    if s.index < s.counter {
      var f := Next(s);
      DrainReplaysActive(f.after);
      assert s.queue[s.index..s.counter] == [s.queue[s.index]] + s.queue[s.index + 1..s.counter];
    }
  }

  /** After an undo the replay restarts at slot 0, so it hands out the base
   *  command followed by every command that is still active. */
  lemma UndoReplaysFromBase(s: State)
    requires Valid(s) && s.counter > 1
    ensures Drain(Undo(s)).commands == s.queue[..s.counter - 1]
    ensures Drain(Undo(s)).commands[0] == s.queue[0]
  {
    DrainReplaysActive(Undo(s));
  }

  /** After a redo the replay hands out exactly the one re-activated command. */
  lemma RedoReplaysOne(s: State)
    requires Valid(s) && s.counter < |s.queue|
    ensures Drain(Redo(s)).commands == [s.queue[s.counter]]
  {
  }

  // ---------------------------------------------------------------------------
  // Commit, truncation and capacity

  /** Truncation removes exactly the redo branch, last command first: putting
   *  the released commands back in reverse order restores the old queue, and
   *  each removed command is released once. */
  lemma TruncateReleasesRedoBranch(s: State)
    requires Valid(s)
    ensures Truncate(s).after.queue == Active(s)
    ensures Truncate(s).after.queue + Reverse(Truncate(s).released) == s.queue
    ensures multiset(Truncate(s).released) == multiset(RedoBranch(s))
  {
    ReverseReverse(RedoBranch(s));
    assert Active(s) + RedoBranch(s) == s.queue;
    ReverseMultiset(RedoBranch(s));
  }

  /** With no redo branch and room left, committing each of `cs` in turn
   *  accepts every one, releases nothing and appends them in order. */
  lemma {:induction false} CommitEachAppends(s: State, cs: seq<Command>)
    requires Valid(s) && s.counter == |s.queue| && s.counter + |cs| <= MAX_COMMANDS
    ensures CommitEach(s, cs).accepted
    ensures CommitEach(s, cs).released == []
    ensures CommitEach(s, cs).after.queue == s.queue + cs
    ensures CommitEach(s, cs).after.counter == s.counter + |cs|
    decreases |cs|
  {
    if cs != [] {
      var first := Commit(s, cs[0]);
      assert s.queue[..s.counter] == s.queue;
      assert s.queue[s.counter..] == [];
      CommitEachAppends(first.after, cs[1..]);
      assert s.queue + [cs[0]] + cs[1..] == s.queue + cs;
    }
  }

  /** The base command takes one of the MAX_COMMANDS slots: a fresh history
   *  accepts MAX_COMMANDS - 1 commits, and the next one is rejected and leaves
   *  the history as it was. */
  lemma CapacityFromInitial(cs: seq<Command>, extra: Command)
    requires |cs| == MAX_COMMANDS - 1
    ensures CommitEach(Initial(), cs).accepted
    ensures CommitEach(Initial(), cs).after.counter == MAX_COMMANDS
    ensures CommitEach(Initial(), cs).after.queue == [Clear] + cs
    ensures !Commit(CommitEach(Initial(), cs).after, extra).accepted
    ensures Commit(CommitEach(Initial(), cs).after, extra).after == CommitEach(Initial(), cs).after
  {
    CommitEachAppends(Initial(), cs);
    var full := CommitEach(Initial(), cs).after;
    assert full.queue[..full.counter] == full.queue;
  }

  /** A rejected commit changes nothing and releases nothing: a full active
   *  prefix fills the whole queue, so there is no redo branch to truncate. */
  lemma RejectedCommitChangesNothing(s: State, c: Command)
    requires Valid(s)
    ensures !Commit(s, c).accepted ==> Commit(s, c).released == [] && Commit(s, c).after == s
  {
    if s.counter == MAX_COMMANDS {
      assert s.queue[s.counter..] == [];
      assert s.queue[..s.counter] == s.queue;
    }
  }

  /** `k` undos, as long as they do not reach the base, shrink the active
   *  prefix by exactly `k` and leave the queue alone. */
  lemma {:induction false} UndoTimesShrinks(s: State, k: nat)
    requires Valid(s) && k < s.counter
    ensures UndoTimes(s, k).queue == s.queue
    ensures UndoTimes(s, k).counter == s.counter - k
    ensures k > 0 ==> UndoTimes(s, k).index == 0
    decreases k
  {
    if k > 0 {
      UndoTimesShrinks(Undo(s), k - 1);
    }
  }

  /** Undo then edit prunes the redo future: after `k` undos a commit keeps the
   *  first counter - k commands, appends the new one and releases the `k`
   *  undone commands, last first. */
  lemma CommitAfterUndoPrunes(s: State, k: nat, c: Command)
    requires Valid(s) && 0 < k < s.counter && s.counter == |s.queue|
    ensures Commit(UndoTimes(s, k), c).accepted
    ensures Commit(UndoTimes(s, k), c).after.queue == s.queue[..s.counter - k] + [c]
    ensures Commit(UndoTimes(s, k), c).after.counter == s.counter - k + 1
    ensures Commit(UndoTimes(s, k), c).released == Reverse(s.queue[s.counter - k..])
  {
    UndoTimesShrinks(s, k);
  }

  /** Commit A, B and C on a fresh history, undo twice, commit D: the queue is
   *  [ClearCommand, A, D] with counter 3, and C then B were released. */
  lemma PruneScenario(a: Command, b: Command, c: Command, d: Command)
    ensures Commit(Undo(Undo(CommitEach(Initial(), [a, b, c]).after)), d)
         == Committed(State([Clear, a, d], 3, 0, None), [c, b], true)
  {
    CommitEachAppends(Initial(), [a, b, c]);
    var h := CommitEach(Initial(), [a, b, c]).after;
    assert h == State([Clear, a, b, c], 4, 1, None);
    var u := Undo(Undo(h));
    assert u == State([Clear, a, b, c], 2, 0, None);
    assert u.queue[..2] == [Clear, a];
    assert u.queue[2..] == [b, c];
    assert Reverse([b, c]) == [c, b];
  }

  // ---------------------------------------------------------------------------
  // Reset and undo/redo round trips

  /** resetAndClear returns the queue and both cursors to their state after
   *  construction, and a second call ends in the same state. The second call
   *  is told the bitmap is recycled: any copy still referenced after the first
   *  call was recycled before it. */
  lemma ResetIdempotent(s: State, alreadyRecycled: bool)
    ensures var once := ResetAndClear(s, alreadyRecycled).after;
            once == Initial().(original := once.original)
    ensures var once := ResetAndClear(s, alreadyRecycled).after;
            ResetAndClear(once, true).after == once
  {
  }

  /** When slot 0 wraps the original copy, resetAndClear recycles that copy
   *  first and then calls freeResources() on the BitmapCommand wrapping it. */
  lemma ResetRecyclesBeforeFreeingBase(s: State, b: Bitmap)
    requires Valid(s) && s.original == Some(b) && s.queue[0] == BitmapCommand(b)
    ensures ResetEvents(ResetAndClear(s, false))[..2] == [Recycle(b), Free(BitmapCommand(b))]
  {
    assert s.queue == [s.queue[0]] + s.queue[1..];
    assert Frees(s.queue)[0] == Free(BitmapCommand(b));
  }

  /** A redo right after an undo restores the active prefix; the cursor then
   *  points at the re-activated command. */
  lemma UndoRedoRoundTrip(s: State)
    requires Valid(s) && s.counter > 1
    ensures Redo(Undo(s)) == s.(index := s.counter - 1)
  {
  }

  /** An undo right after a redo restores the active prefix and restarts replay. */
  lemma RedoUndoRoundTrip(s: State)
    requires Valid(s) && s.counter < |s.queue|
    ensures Undo(Redo(s)) == s.(index := 0)
  {
  }

  // ---------------------------------------------------------------------------
  // Reference model: linear undo/redo as two stacks

  /** Linear history as a base, the applied edits and the undone edits (next to
   *  redo first). */
  datatype Timeline = Timeline(base: Command, done: seq<Command>, undone: seq<Command>)

  function View(s: State): Timeline
    requires Valid(s)
  {
    Timeline(s.queue[0], s.queue[1..s.counter], s.queue[s.counter..])
  }

  function TUndo(t: Timeline): Timeline {
    if t.done == [] then t
    else Timeline(t.base, t.done[..|t.done| - 1], [t.done[|t.done| - 1]] + t.undone)
  }

  function TRedo(t: Timeline): Timeline {
    if t.undone == [] then t
    else Timeline(t.base, t.done + [t.undone[0]], t.undone[1..])
  }

  /** An edit forgets the undone edits; it is recorded only while the base
   *  and the applied edits leave a slot free. */
  function TCommit(t: Timeline, c: Command): Timeline {
    if 1 + |t.done| >= MAX_COMMANDS then Timeline(t.base, t.done, [])
    else Timeline(t.base, t.done + [c], [])
  }

  /** undo moves the last applied edit onto the undone stack. */
  lemma UndoRefines(s: State)
    requires Valid(s)
    ensures View(Undo(s)) == TUndo(View(s))
  {
  }

  /** redo moves the next undone edit back onto the applied edits. */
  lemma RedoRefines(s: State)
    requires Valid(s)
    ensures View(Redo(s)) == TRedo(View(s))
  {
  }

  /** commitCommand records the edit and forgets the undone edits; when the
   *  active prefix is full there are no undone edits and nothing changes. */
  lemma CommitRefines(s: State, c: Command)
    requires Valid(s)
    ensures View(Commit(s, c).after) == TCommit(View(s), c)
  {
  }

  /** resetAndClear leaves a bare ClearCommand base with nothing done or undone. */
  lemma ResetRefines(s: State, alreadyRecycled: bool)
    ensures View(ResetAndClear(s, alreadyRecycled).after) == Timeline(Clear, [], [])
  {
  }

  /** setOriginalBitmap replaces only the base. */
  lemma SetOriginalRefines(s: State, copy: Bitmap)
    requires Valid(s)
    ensures View(SetOriginal(s, copy).after) == View(s).(base := BitmapCommand(copy))
  {
  }
}
