/** The command history of CommandHandlerImplementation as a value.
 *
 *  A `State` holds the four fields of the Java object: the command queue, the
 *  active-prefix length `counter` (mCommandCounter), the replay cursor `index`
 *  (mCommandIndex) and the reference to the original bitmap copy
 *  (mOriginalBitmap). Each operation is a function from the old state to the
 *  new state, together with the commands it called freeResources() on, in
 *  call order. The class in module CommandHandling is proved to follow these
 *  functions.
 */
module History {
  import opened Commands

  /** The hard capacity of the queue (MAX_COMMANDS). */
  const MAX_COMMANDS: int := 256

  datatype State = State(queue: seq<Command>, counter: int, index: int, original: Option<Bitmap>)

  /** The result of an operation that may release commands. */
  datatype Transition = Transition(after: State, released: seq<Command>)

  /** The result of getNextCommand: the new state and the command handed out (None for null). */
  datatype Fetched = Fetched(after: State, command: Option<Command>)

  /** The result of commitCommand: the new state, the released redo branch and the returned flag. */
  datatype Committed = Committed(after: State, released: seq<Command>, accepted: bool)

  /** The result of resetAndClear: the new state, the released commands and the recycled copy, if any. */
  datatype Cleared = Cleared(after: State, released: seq<Command>, recycled: Option<Bitmap>)

  /** A resource-release call the history makes: freeResources() on a command
   *  or recycle() on a bitmap. */
  datatype Event = Free(command: Command) | Recycle(bitmap: Bitmap)

  /** freeResources() called on each of `cs`, in order. */
  function Frees(cs: seq<Command>): (es: seq<Event>)
    ensures |es| == |cs|
  {
    if cs == [] then [] else [Free(cs[0])] + Frees(cs[1..])
  }

  lemma {:induction false} FreesAppend(a: seq<Command>, b: seq<Command>)
    ensures Frees(a + b) == Frees(a) + Frees(b)
  {
    if a == [] {
      assert a + b == b;
    } else {
      assert (a + b)[1..] == a[1..] + b;
      FreesAppend(a[1..], b);
    }
  }

  /** The calls resetAndClear makes, in order: the recycle of the copy comes
   *  before every freeResources() call. */
  function ResetEvents(r: Cleared): (es: seq<Event>)
    ensures r.recycled.Some? ==> es == [Recycle(r.recycled.value)] + Frees(r.released)
    ensures r.recycled.None? ==> es == Frees(r.released)
  {
    match r.recycled
    case Some(b) => [Recycle(b)] + Frees(r.released)
    case None => Frees(r.released)
  }

  /** The object invariant every operation keeps. */
  predicate Valid(s: State) {
    && 1 <= s.counter <= |s.queue| <= MAX_COMMANDS
    && 0 <= s.index <= s.counter
    && IsBase(s.queue[0])
  }

  /** The active prefix: the commands currently applied, base included. */
  function Active(s: State): seq<Command>
    requires Valid(s)
  {
    s.queue[..s.counter]
  }

  /** The redo branch: undone commands that a redo can re-activate. */
  function RedoBranch(s: State): seq<Command>
    requires Valid(s)
  {
    s.queue[s.counter..]
  }

  function Reverse<T>(s: seq<T>): (r: seq<T>)
    ensures |r| == |s|
  {
    if s == [] then [] else Reverse(s[1..]) + [s[0]]
  }

  lemma {:induction false} ReverseAppend<T>(a: seq<T>, b: seq<T>)
    ensures Reverse(a + b) == Reverse(b) + Reverse(a)
  {
    if a == [] {
      assert a + b == b;
    } else {
      assert (a + b)[1..] == a[1..] + b;
      ReverseAppend(a[1..], b);
    }
  }

  lemma {:induction false} ReverseReverse<T>(s: seq<T>)
    ensures Reverse(Reverse(s)) == s
  {
    if s != [] {
      ReverseAppend(Reverse(s[1..]), [s[0]]);
      ReverseReverse(s[1..]);
      assert Reverse([s[0]]) == [s[0]];
      assert [s[0]] + s[1..] == s;
    }
  }

  lemma {:induction false} ReverseMultiset<T>(s: seq<T>)
    ensures multiset(Reverse(s)) == multiset(s)
  {
    if s != [] {
      ReverseMultiset(s[1..]);
      assert s == [s[0]] + s[1..];
    }
  }

  /** The state built by the constructor: one ClearCommand, both cursors at 1. */
  function Initial(): (s: State)
    ensures Valid(s) && |s.queue| == 1
    ensures Next(s).command.None?
  {
    State([Clear], 1, 1, None)
  }

  /** getNextCommand: hand out the command under the cursor and advance it, or null
   *  once the cursor has reached the end of the active prefix. */
  function Next(s: State): (r: Fetched)
    requires Valid(s)
    ensures Valid(r.after)
    ensures r.after.queue == s.queue && r.after.counter == s.counter && r.after.original == s.original
    ensures r.command.Some? <==> s.index < s.counter
    ensures r.command.Some? ==> r.command.value == s.queue[s.index] && r.after.index == s.index + 1
    ensures r.command.None? ==> r.after == s
  {
    if s.index < s.counter then Fetched(s.(index := s.index + 1), Some(s.queue[s.index]))
    else Fetched(s, None)
  }

  /** The first half of commitCommand: drop the redo branch from the tail,
   *  releasing the last command first. */
  function Truncate(s: State): (r: Transition)
    requires Valid(s)
    ensures Valid(r.after) && |r.after.queue| == s.counter
    ensures r.after.counter == s.counter && r.after.index == s.index && r.after.original == s.original
    ensures |r.released| == |s.queue| - s.counter
  {
    Transition(s.(queue := s.queue[..s.counter]), Reverse(s.queue[s.counter..]))
  }

  /** commitCommand: truncate, then append unless the active prefix is full. */
  function Commit(s: State, c: Command): (r: Committed)
    requires Valid(s)
    ensures Valid(r.after)
    ensures r.accepted <==> s.counter < MAX_COMMANDS
    ensures r.after.queue == Active(s) + (if r.accepted then [c] else [])
    ensures r.after.counter == |r.after.queue|
    ensures r.after.index == s.index && r.after.original == s.original
    ensures r.released == Reverse(RedoBranch(s))
  {
    var t := Truncate(s);
    if t.after.counter == MAX_COMMANDS then Committed(t.after, t.released, false)
    else Committed(t.after.(queue := t.after.queue + [c], counter := t.after.counter + 1), t.released, true)
  }

  /** undo: shrink the active prefix by one and restart replay from slot 0. */
  function Undo(s: State): (r: State)
    requires Valid(s)
    ensures Valid(r)
    ensures r.queue == s.queue && r.original == s.original
    ensures s.counter > 1 ==> r.counter == s.counter - 1 && r.index == 0
    ensures s.counter == 1 ==> r == s
  {
    if s.counter > 1 then s.(counter := s.counter - 1, index := 0) else s
  }

  /** redo: re-activate the first command of the redo branch and point the
   *  cursor at it, so that only that command is replayed. */
  function Redo(s: State): (r: State)
    requires Valid(s)
    ensures Valid(r)
    ensures r.queue == s.queue && r.original == s.original
    ensures s.counter < |s.queue| ==> r.counter == s.counter + 1 && r.index == s.counter
    ensures s.counter == |s.queue| ==> r == s
  {
    if s.counter < |s.queue| then s.(index := s.counter, counter := s.counter + 1) else s
  }

  /** resetAndClear: recycle the original copy unless the host reports it already
   *  recycled, release every queued command in queue order, reseed with a
   *  ClearCommand. `alreadyRecycled` is the answer of Bitmap.isRecycled(). */
  function ResetAndClear(s: State, alreadyRecycled: bool): (r: Cleared)
    ensures Valid(r.after)
    ensures r.after.queue == [Clear] && r.after.counter == 1 && r.after.index == 1
    ensures r.released == s.queue
    ensures r.after.original.None? <==> s.original.None? || !alreadyRecycled
    ensures r.after.original.Some? ==> r.after.original == s.original
    ensures r.recycled == if s.original.Some? && !alreadyRecycled then s.original else None
  {
    var recycle := s.original.Some? && !alreadyRecycled;
    Cleared(State([Clear], 1, 1, if recycle then None else s.original),
            s.queue,
            if recycle then s.original else None)
  }

  /** setOriginalBitmap: keep the host's copy and put a BitmapCommand wrapping it
   *  in slot 0, releasing the command that was there. */
  function SetOriginal(s: State, copy: Bitmap): (r: Transition)
    requires Valid(s)
    ensures Valid(r.after)
    ensures |r.after.queue| == |s.queue| && r.after.queue[0] == BitmapCommand(copy)
    ensures r.after.queue[1..] == s.queue[1..]
    ensures r.after.counter == s.counter && r.after.index == s.index
    ensures r.after.original == Some(copy)
    ensures r.released == [s.queue[0]]
  {
    Transition(s.(queue := [BitmapCommand(copy)] + s.queue[1..], original := Some(copy)), [s.queue[0]])
  }

  /** The outcome of a replay pass: getNextCommand called until it returns null. */
  datatype Replay = Replay(commands: seq<Command>, final: State)

  function Drain(s: State): Replay
    requires Valid(s)
    decreases s.counter - s.index
  {
    var f := Next(s);
    match f.command
    case None => Replay([], f.after)
    case Some(c) =>
      var rest := Drain(f.after);
      Replay([c] + rest.commands, rest.final)
  }

  /** commitCommand applied to each of `cs` in turn; `accepted` holds when every
   *  call returned true, `released` collects all releases in order. */
  function CommitEach(s: State, cs: seq<Command>): (r: Committed)
    requires Valid(s)
    ensures Valid(r.after)
    ensures r.after.index == s.index && r.after.original == s.original
    decreases |cs|
  {
    if cs == [] then Committed(s, [], true)
    else
      var first := Commit(s, cs[0]);
      var rest := CommitEach(first.after, cs[1..]);
      Committed(rest.after, first.released + rest.released, first.accepted && rest.accepted)
  }

  /** undo called `k` times. */
  function UndoTimes(s: State, k: nat): (r: State)
    requires Valid(s)
    ensures Valid(r)
    decreases k
  {
    if k == 0 then s else UndoTimes(Undo(s), k - 1)
  }
}
