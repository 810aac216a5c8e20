# Paintroid command history in Dafny

This project models `CommandHandlerImplementation`, the undo/redo command history of the
Paintroid image editor. Every change to the canvas is recorded as a command in a queue.

- Slot 0 of the queue holds the base of every replay. It is a `ClearCommand` (an empty canvas)
  or a `BitmapCommand` that wraps a private copy of the original image.
- `counter` is the length of the *active prefix*: the commands currently applied.
- The commands beyond `counter` form the *redo branch*.
- `index` is the cursor of a replay pass, which pulls commands one at a time with
  `getNextCommand`.
- The queue never holds more than `MAX_COMMANDS` = 256 commands.
- The history calls `freeResources()` on each command it drops. It calls `recycle()` on the
  original copy when it resets.

Files and modules:

- `commands.dfy` (`Commands`): bitmaps and commands as opaque tagged values. A bitmap is
  `Bitmap(id)`. A command is `Clear`, `BitmapCommand(bitmap)` or `Other(id)`. `Option` stands for
  a nullable reference.
- `history.dfy` (`History`): the four fields of the object as a `State` value, and the object
  invariant `Valid`: `1 <= counter <= |queue| <= 256`, `0 <= index <= counter`, and slot 0 is a
  base command. It has one function per operation. Each function gives the new state and the
  commands released, in call order.
- `command_handler.dfy` (`CommandHandling`): the class `CommandHandler`. Its fields are the
  object's fields. One ghost log records every `freeResources()` and `recycle()` call, in the
  order they are made. Each method is proved to move the fields exactly as its `History`
  function does, and to append exactly that function's calls to the log. The two release passes are loops with
  invariants: the tail removal in `commitCommand` and the release of every queued command in
  `resetAndClear`.
- `properties.dfy` (`HistoryProperties`): lemmas over sequences of calls. They cover replay
  order, pruning of the redo branch, the capacity bound, reset, and undo/redo round trips. They
  also prove agreement with an independent reference model of linear undo/redo: a base, a stack
  of applied edits and a stack of undone edits (`Timeline`).

Behaviour of the code worth noting:

- A commit first truncates the redo branch and only then checks the capacity. A commit is
  rejected only when the active prefix already fills all 256 slots. In that case there is no
  redo branch, so a rejected commit changes nothing and releases nothing
  (`HistoryProperties.RejectedCommitChangesNothing`).
- The base command takes one of the 256 slots, so a fresh history accepts 255 commits and
  rejects the 256th (`HistoryProperties.CapacityFromInitial`).
- `resetAndClear` clears the reference to the original copy only when that copy was not already
  recycled. An already-recycled copy stays referenced (`History.ResetAndClear`).
- `undo` resets the replay cursor to 0. The next replay therefore starts at slot 0, the base
  command (`HistoryProperties.UndoReplaysFromBase`).

## Model

| member | source | states |
|---|---|---|
| `CommandHandling.CommandHandler.constructor` | Paintroid/Paintroid/src/at/tugraz/ist/paintroid/command/implementation/CommandHandlerImplementation.java:45-50 | a new history satisfies the invariant, holds only the ClearCommand with counter = index = 1, and its log of release calls is empty |
| `CommandHandling.CommandHandler.SetOriginalBitmap` | Paintroid/Paintroid/src/at/tugraz/ist/paintroid/command/implementation/CommandHandlerImplementation.java:53-57 | keeps the invariant; the new state and the one logged release are those of `History.SetOriginal` |
| `CommandHandling.CommandHandler.ResetAndClear` | Paintroid/Paintroid/src/at/tugraz/ist/paintroid/command/implementation/CommandHandlerImplementation.java:60-72 | from any state, reaches the state of `History.ResetAndClear`; logs the recycle of the copy, if any, and then, from the loop, one release per queued command in queue order |
| `CommandHandling.CommandHandler.GetNextCommand` | Paintroid/Paintroid/src/at/tugraz/ist/paintroid/command/implementation/CommandHandlerImplementation.java:75-83 | may change only the cursor; returns and moves exactly as `History.Next` |
| `CommandHandling.CommandHandler.CommitCommand` | Paintroid/Paintroid/src/at/tugraz/ist/paintroid/command/implementation/CommandHandlerImplementation.java:86-102 | the countdown loop pops the redo branch last-first and logs one release per popped command; the result and the new state are those of `History.Commit` |
| `CommandHandling.CommandHandler.Undo` | Paintroid/Paintroid/src/at/tugraz/ist/paintroid/command/implementation/CommandHandlerImplementation.java:105-110 | may change only the two cursors, as `History.Undo`; releases nothing |
| `CommandHandling.CommandHandler.Redo` | Paintroid/Paintroid/src/at/tugraz/ist/paintroid/command/implementation/CommandHandlerImplementation.java:113-118 | may change only the two cursors, as `History.Redo`; releases nothing |
| `History.Initial` | Paintroid/Paintroid/src/at/tugraz/ist/paintroid/command/implementation/CommandHandlerImplementation.java:45-50 | the constructed state satisfies the invariant, holds one command, and its first getNextCommand returns null |
| `History.Truncate` | Paintroid/Paintroid/src/at/tugraz/ist/paintroid/command/implementation/CommandHandlerImplementation.java:88-92 | dropping the redo branch keeps the invariant, the counter, the cursor and the original; the queue shrinks to counter entries and one command is released per removed entry |
| `History.Next` | Paintroid/Paintroid/src/at/tugraz/ist/paintroid/command/implementation/CommandHandlerImplementation.java:75-83 | a command is returned iff index < counter; it is queue[index] (the slot before the increment) and index grows by exactly 1; otherwise null and nothing changes; queue, counter and original never change; the invariant holds |
| `History.Commit` | Paintroid/Paintroid/src/at/tugraz/ist/paintroid/command/implementation/CommandHandlerImplementation.java:86-102 | accepted iff counter < 256; the queue becomes the active prefix plus the command when accepted, so the command sits in the last slot counter - 1; the redo branch is released in reverse order; the invariant holds |
| `History.Undo` | Paintroid/Paintroid/src/at/tugraz/ist/paintroid/command/implementation/CommandHandlerImplementation.java:105-110 | for counter > 1, counter drops by exactly 1 and index becomes 0; for counter = 1, no change; the queue is never changed; the invariant holds |
| `History.Redo` | Paintroid/Paintroid/src/at/tugraz/ist/paintroid/command/implementation/CommandHandlerImplementation.java:113-118 | for counter < queue length, index becomes the old counter and counter grows by 1; otherwise no change; the queue is never changed; the invariant holds |
| `History.ResetAndClear` | Paintroid/Paintroid/src/at/tugraz/ist/paintroid/command/implementation/CommandHandlerImplementation.java:60-72 | from any state, the queue is [ClearCommand] and counter = index = 1; every queued command is released, in queue order; the copy is recycled and its reference cleared iff one is held and not already recycled |
| `History.SetOriginal` | Paintroid/Paintroid/src/at/tugraz/ist/paintroid/command/implementation/CommandHandlerImplementation.java:53-57 | slot 0 becomes a BitmapCommand wrapping the new copy, and the original reference is that copy; the old head is the one command released; the length, the counter, the index and slots 1.. are unchanged |
| `HistoryProperties.InitialState` | Paintroid/Paintroid/src/at/tugraz/ist/paintroid/command/implementation/CommandHandlerImplementation.java:45-50 | the initial state is valid, holds only the ClearCommand with both cursors at 1, and its first getNextCommand returns null |
| `HistoryProperties.DrainReplaysActive` | Paintroid/Paintroid/src/at/tugraz/ist/paintroid/command/implementation/CommandHandlerImplementation.java:75-83 | calling getNextCommand until null yields queue[index..counter) in order, then leaves index = counter, where every further call returns null and changes nothing |
| `HistoryProperties.UndoReplaysFromBase` | Paintroid/Paintroid/src/at/tugraz/ist/paintroid/command/implementation/CommandHandlerImplementation.java:105-110 | after an undo, the replay yields the base command and then every still-active command |
| `HistoryProperties.RedoReplaysOne` | Paintroid/Paintroid/src/at/tugraz/ist/paintroid/command/implementation/CommandHandlerImplementation.java:113-118 | after a redo, the replay yields exactly the re-activated command |
| `HistoryProperties.TruncateReleasesRedoBranch` | Paintroid/Paintroid/src/at/tugraz/ist/paintroid/command/implementation/CommandHandlerImplementation.java:87-92 | truncation keeps the prefix queue[0..counter); the prefix followed by the released commands reversed is the old queue; each removed command is released once |
| `HistoryProperties.CommitEachAppends` | Paintroid/Paintroid/src/at/tugraz/ist/paintroid/command/implementation/CommandHandlerImplementation.java:94-101 | while there is room and no redo branch, successive commits are all accepted and release nothing; each raises counter by 1 and appends its command |
| `HistoryProperties.CapacityFromInitial` | Paintroid/Paintroid/src/at/tugraz/ist/paintroid/command/implementation/CommandHandlerImplementation.java:94-101 | a fresh history accepts 255 commits and reaches counter 256; the next commit is rejected and leaves the state unchanged |
| `HistoryProperties.RejectedCommitChangesNothing` | Paintroid/Paintroid/src/at/tugraz/ist/paintroid/command/implementation/CommandHandlerImplementation.java:88-96 | a commit that returns false leaves the state unchanged and releases nothing |
| `HistoryProperties.UndoTimesShrinks` | Paintroid/Paintroid/src/at/tugraz/ist/paintroid/command/implementation/CommandHandlerImplementation.java:105-110 | k undos with k < counter leave the queue alone, lower counter by exactly k, and (k > 0) put the cursor at 0 |
| `HistoryProperties.CommitAfterUndoPrunes` | Paintroid/Paintroid/src/at/tugraz/ist/paintroid/command/implementation/CommandHandlerImplementation.java:86-110 | after k undos, a commit keeps the first counter - k commands, appends the new one, and releases the k undone commands last-first |
| `HistoryProperties.PruneScenario` | Paintroid/Paintroid/src/at/tugraz/ist/paintroid/command/implementation/CommandHandlerImplementation.java:86-110 | commit A, B, C, undo twice, commit D: the queue is [ClearCommand, A, D], the counter is 3, and C then B were released |
| `HistoryProperties.ResetIdempotent` | Paintroid/Paintroid/src/at/tugraz/ist/paintroid/command/implementation/CommandHandlerImplementation.java:60-72 | a reset reaches the post-construction queue and cursors, and a second reset reaches the same state |
| `HistoryProperties.ResetRecyclesBeforeFreeingBase` | Paintroid/Paintroid/src/at/tugraz/ist/paintroid/command/implementation/CommandHandlerImplementation.java:60-67 | when slot 0 wraps the held, unrecycled original copy, reset recycles that copy first and then calls freeResources() on the BitmapCommand wrapping it |
| `HistoryProperties.UndoRedoRoundTrip` | Paintroid/Paintroid/src/at/tugraz/ist/paintroid/command/implementation/CommandHandlerImplementation.java:105-118 | redo right after a real undo restores queue and counter, with the cursor on the re-activated command |
| `HistoryProperties.RedoUndoRoundTrip` | Paintroid/Paintroid/src/at/tugraz/ist/paintroid/command/implementation/CommandHandlerImplementation.java:105-118 | undo right after a real redo restores queue and counter, with the cursor at 0 |
| `HistoryProperties.UndoRefines` | Paintroid/Paintroid/src/at/tugraz/ist/paintroid/command/implementation/CommandHandlerImplementation.java:105-110 | undo agrees with the two-stack model: the last applied edit moves onto the undone stack |
| `HistoryProperties.RedoRefines` | Paintroid/Paintroid/src/at/tugraz/ist/paintroid/command/implementation/CommandHandlerImplementation.java:113-118 | redo agrees with the two-stack model: the next undone edit moves back onto the applied edits |
| `HistoryProperties.CommitRefines` | Paintroid/Paintroid/src/at/tugraz/ist/paintroid/command/implementation/CommandHandlerImplementation.java:86-102 | commit agrees with the two-stack model: the undone edits are forgotten, and the edit is recorded only while a slot is free |
| `HistoryProperties.ResetRefines` | Paintroid/Paintroid/src/at/tugraz/ist/paintroid/command/implementation/CommandHandlerImplementation.java:60-72 | after a reset, the two-stack view is a ClearCommand base with nothing applied and nothing undone |
| `HistoryProperties.SetOriginalRefines` | Paintroid/Paintroid/src/at/tugraz/ist/paintroid/command/implementation/CommandHandlerImplementation.java:53-57 | setting the original bitmap changes only the base of the two-stack view |

## Left out

- The `synchronized` modifiers: the history is modelled as a single-threaded object, so the lock and the missing lock on `setOriginalBitmap` are not modelled.
- The unused `Context` constructor parameter.
- `Bitmap.copy(Config.ARGB_8888, false)`: this is native pixel copying. `SetOriginalBitmap` receives the copy as a parameter. A `Bitmap` in the model cannot be null, so two error paths are not modelled: a null `bitmap` argument, which throws a NullPointerException before any field changes, and a failed copy that returns null.
- A `Command` in the model cannot be null, so committing a null command is not modelled. `LinkedList.add` accepts null. `getNextCommand` would later hand that null out, which looks like the end of the replay. A later truncation or `resetAndClear` would then throw a NullPointerException on `freeResources()` after changing only part of the state.
- `Bitmap.isRecycled()`: the recycled state of a bitmap can be changed by code outside this model. `ResetAndClear` therefore receives the answer as the parameter `alreadyRecycled`.
- `Bitmap.recycle()` and `Command.freeResources()`: only the fact and the order of each call are recorded, in the one ghost log `log`. What they free is not modelled. Whether freeing a `BitmapCommand` also recycles the original copy is not modelled either, because `BitmapCommand` is not part of this model.
- `ClearCommand`, `BitmapCommand` and the drawing commands: these classes are not part of this model, and neither is applying a command to a canvas. A command is an opaque tagged value, so two commands with the same tag and id are indistinguishable.
- `LinkedList.add`: it always returns true, so `commitCommand` returns true whenever it appends. Its element-by-element linked-list mechanics are modelled as updates of a `seq`.
