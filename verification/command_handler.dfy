/** CommandHandlerImplementation as an object whose methods update its fields
 *  in place. Every method is proved to move the object's state exactly as
 *  the matching function of module History does, and to record in a ghost
 *  log each freeResources() and recycle() call it makes, in call order.
 */
module CommandHandling {
  import opened Commands
  import opened History

  class CommandHandler {
    var queue: seq<Command>       // mCommandQueue
    var counter: int              // mCommandCounter: length of the active prefix
    var index: int                // mCommandIndex: replay cursor
    var original: Option<Bitmap>  // mOriginalBitmap

    /** Every freeResources() and recycle() call, in call order. */
    ghost var log: seq<Event>

    /** The object's fields as a History state. */
    function Model(): State
      reads this
    {
      State(queue, counter, index, original)
    }

    predicate Valid()
      reads this
    {
      History.Valid(Model())
    }

    constructor ()
      ensures Valid() && Model() == Initial()
      ensures log == []
    {
      queue := [Clear];
      counter := 1;
      index := 1;
      original := None;
      log := [];
    }

    /** `copy` is the ARGB_8888 copy the host made of the bitmap it passed in. */
    method SetOriginalBitmap(copy: Bitmap)
      requires Valid()
      modifies this
      ensures Valid()
      ensures Model() == SetOriginal(old(Model()), copy).after
      ensures log == old(log) + Frees(SetOriginal(old(Model()), copy).released)
    {
      original := Some(copy);
      var head := queue[0];
      queue := queue[1..];
      log := log + [Free(head)];
      queue := [BitmapCommand(copy)] + queue;
    }

    /** `alreadyRecycled` is what isRecycled() answers for the original copy. */
    method ResetAndClear(alreadyRecycled: bool)
      modifies this
      ensures Valid()
      ensures Model() == History.ResetAndClear(old(Model()), alreadyRecycled).after
      ensures log == old(log) + ResetEvents(History.ResetAndClear(old(Model()), alreadyRecycled))
    {
      ghost var r := History.ResetAndClear(Model(), alreadyRecycled);
      ghost var recycle: seq<Event> := [];
      if original.Some? && !alreadyRecycled {
        recycle := [Recycle(original.value)];
        log := log + recycle;
        original := None;
      }
      assert ResetEvents(r) == recycle + Frees(r.released);
      ghost var start := log;
      var i := 0;
      while i < |queue|
        modifies this`log
        invariant 0 <= i <= |queue|
        invariant queue == old(queue)
        invariant log == start + Frees(queue[..i])
      {
        FreesAppend(queue[..i], [queue[i]]);
        assert queue[..i + 1] == queue[..i] + [queue[i]];
        log := log + [Free(queue[i])];
        i := i + 1;
      }
      assert queue[..i] == r.released;
      queue := [Clear];
      counter := 1;
      index := 1;
    }

    method GetNextCommand() returns (c: Option<Command>)
      requires Valid()
      modifies this`index
      ensures Valid()
      ensures Model() == Next(old(Model())).after
      ensures c == Next(old(Model())).command
    {
      if index < counter {
        c := Some(queue[index]);
        index := index + 1;
      } else {
        c := None;
      }
    }

    method CommitCommand(command: Command) returns (accepted: bool)
      requires Valid()
      modifies this
      ensures Valid()
      ensures Model() == Commit(old(Model()), command).after
      ensures accepted == Commit(old(Model()), command).accepted
      ensures log == old(log) + Frees(Commit(old(Model()), command).released)
    {
      // Drop the redo branch, last command first.
      if counter < |queue| {
        var i := |queue|;
        while i > counter
          modifies this`queue, this`log
          invariant counter <= i <= |old(queue)|
          invariant queue == old(queue)[..i]
          invariant log == old(log) + Frees(Reverse(old(queue)[i..]))
        {
          var last := queue[|queue| - 1];
          queue := queue[..|queue| - 1];
          log := log + [Free(last)];
          assert old(queue)[i - 1..][1..] == old(queue)[i..];
          FreesAppend(Reverse(old(queue)[i..]), [last]);
          i := i - 1;
        }
      }
      if counter == MAX_COMMANDS {
        return false;
      }
      counter := counter + 1;
      queue := queue + [command];
      accepted := true;
    }

    method Undo()
      requires Valid()
      modifies this`counter, this`index
      ensures Valid()
      ensures Model() == History.Undo(old(Model()))
    {
      if counter > 1 {
        counter := counter - 1;
        index := 0;
      }
    }

    method Redo()
      requires Valid()
      modifies this`counter, this`index
      ensures Valid()
      ensures Model() == History.Redo(old(Model()))
    {
      if counter < |queue| {
        index := counter;
        counter := counter + 1;
      }
    }
  }
}
