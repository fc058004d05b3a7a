# Asteroids: the Game core in Dafny

This project models the `Game` object of an SFML Asteroids game (`src/game.cpp`).
It covers two things:

- **The session state machine.** The state is one of TitleScreen, InGame, Paused and GameOver, and a running flag records whether the game is still open. Released keys and window events move between the states. `update` moves the game to GameOver once the ship is destroyed.
- **The entity lifecycle.** The game keeps an ordered collection of objects: the ship, asteroids and bullets. The model covers spawning the starting asteroids and splitting destroyed asteroids into two children each. It also covers marking colliding objects as destroyed, reaping destroyed objects, resetting the collection, and the single id counter that hands out object ids.

The project has three modules:

- `Session` (session.dfy) holds pure functions. They give the transition that a key or event triggers and its effect on the state and the running flag. A fold over a run of events models the polling loop. Like the loop, the fold stops at a close: closing the game closes the window, and a closed window yields no more events. Lemmas are proved about that fold.
- `Lifecycle` (lifecycle.dfy) describes each object as a value: its id, its type tag and its destroyed flag. An asteroid also carries a size class and a heading. The size class stands in for the radius, and "radius above `S_ASTEROID`" becomes "size class above Small". The module holds pure functions for what each lifecycle step does to the collection and the counter, plus lemmas about them. The main lemmas cover the child layout, the order-preserving reap, the id invariant (ids pairwise distinct and below the counter), a quiet tick, and reset.
- `GameCore` (game.dfy) holds the `Game` class. Its fields are the state, the running flag, the difficulty, the collection (a `seq`), the id counter and `player`, which stands for `m_player`. Each method follows the code step by step: push_back loops, the child scan, in-place compaction followed by erase. Each method is proved against the `Lifecycle` and `Session` functions.

The ship is one object shared by `m_player` and the collection. The model keeps `player` and the collection's ship record equal (`Valid()`): the ship can only be the first element, and there it equals `player`. Whenever the code changes the ship through one handle (`collide()`, `reset_ship`), the model updates the other as well.

Randomness and collision detection are parameters:

- `rand: nat -> nat` gives the value of the i-th `rand()` call in a spawn loop.
- `collides: (seq<GameObject>, nat) -> bool` is the answer of `collision_check` for the object at an index, against the collection as it stands at that moment.

The starting asteroid count `STARTING_ASTEROIDS` and the counter's initial value are declared in `game.h`, which is not part of this model. The model uses 4 and 0. The proofs do not depend on the value 4, except that the counterexample in `ReapLosesShip` needs at least two starting asteroids.

## Model

| member | source | states |
|---|---|---|
| `Session.MenuTransition` | src/game.cpp:125-152 | The full key table, one if-and-only-if per transition. From TitleScreen, Enter starts and Escape closes. From InGame, Escape pauses. From Paused, Escape resets and Enter resumes. From GameOver, Enter resets. Every other key/state pair triggers nothing, and no key triggers game over. |
| `Session.EventTransition` | src/game.cpp:57-80 | Closed closes from any state. LostFocus and Resized pause exactly when in game and otherwise do nothing. Other events and other keys do nothing. Only Closed or Escape on the title screen closes. A released key triggers what MenuTransition gives for the current state. Pause, Resume and Start happen only from InGame, Paused and TitleScreen respectively. No event triggers game over. |
| `Session.AfterEvents` | src/game.cpp:59-80 | A closed session handles no more events and comes out unchanged, because a closed window yields no events (lines 188-190). The running flag can only drop. |
| `Session.AfterEventsAppend` | src/game.cpp:59-80 | Handling a run of events equals handling its two halves in turn. |
| `Session.CloseEndsSession` | src/game.cpp:59-63 | A Closed event anywhere in a run leaves running false, from any starting state. The events after it are not handled: the result equals that of the run cut off just after the Closed event. |
| `Session.StateHolds` | src/game.cpp:57-80 | A run of events that triggers only Ignore or Close from state s leaves the state at s. The running flag can only drop. |
| `Session.TitleWaitsForEnter` | src/game.cpp:127-133 | Without a released Enter, the title screen is never left. |
| `Session.GameOverWaitsForEnter` | src/game.cpp:146-150 | Without a released Enter, GameOver is never left by input. |
| `Session.PausedWaitsForKey` | src/game.cpp:64-73 | A paused game stays paused through focus and resize events. Only a released Enter or Escape leaves it. |
| `GameCore.Game.constructor` | src/game.cpp:15-27 | The state is TitleScreen, running is true and difficulty is 0. The collection is the ship with id 0 followed by STARTING_ASTEROIDS large asteroids with ids 1 to STARTING_ASTEROIDS. The counter is 1 + STARTING_ASTEROIDS and the id invariant holds. |
| `GameCore.Game.IsRunning` | src/game.cpp:53-55 | Returns the running flag. |
| `GameCore.Game.SpawnAsteroids` | src/game.cpp:114-123 | Appends exactly NewAsteroids(c, n): n large asteroids with ids c to c+n-1 and headings rand(i) % 360. The counter ends at c+n. Nothing else changes. The id invariant is preserved. |
| `GameCore.Game.StartGame` | src/game.cpp:154-158 | The state becomes InGame. Nothing else in the model changes. |
| `GameCore.Game.PauseGame` | src/game.cpp:160-163 | The state becomes Paused. Nothing else in the model changes. |
| `GameCore.Game.ResumeGame` | src/game.cpp:165-168 | The state becomes InGame. Nothing else in the model changes. |
| `GameCore.Game.EnterGameOver` | src/game.cpp:170-174 | The state becomes GameOver. Nothing else in the model changes. |
| `GameCore.Game.CloseGame` | src/game.cpp:188-191 | Running becomes false. Nothing else in the model changes. |
| `GameCore.Game.ResetGame` | src/game.cpp:176-186 | The state becomes TitleScreen and difficulty 0. The ship is revived, in m_player and in the collection. Only the first element is kept, then STARTING_ASTEROIDS new asteroids follow. The size and the counter are both 1 + STARTING_ASTEROIDS. The id invariant holds afterwards exactly when the kept element has id 0. |
| `GameCore.Game.ProcessMenuKeys` | src/game.cpp:125-152 | The state and running flag change as MenuTransition's table says. A reset transition also resets the collection. Any other transition leaves the collection, counter, difficulty and ship unchanged. |
| `GameCore.Game.ProcessEvent` | src/game.cpp:57-84 | One polled event has the effect EventTransition gives on the state and running flag. It resets the collection only when that transition is a reset; otherwise those fields are unchanged. |
| `GameCore.Game.UpdateGameObjects` | src/game.cpp:193-206 | The collection becomes the collision pass of the old one. m_player follows the collection's ship. Nothing else changes. |
| `GameCore.Game.SpawnChildAsteroids` | src/game.cpp:208-223 | The old objects are kept and the children Children(old, c) are appended after them. The counter advances by exactly 2k for k splitting asteroids. The id invariant is preserved. |
| `GameCore.Game.DeleteDestroyedObjects` | src/game.cpp:225-232 | The collection becomes Reap(old, false): the non-destroyed objects in their original order. A destroyed ship is removed too. The id invariant is preserved. |
| `GameCore.RemoveDestroyed` | src/game.cpp:225-231 | The in-place compaction copies each surviving object forward to the next free slot and cuts off the tail. Its result is exactly Reap(objs, false). |
| `GameCore.Game.Update` | src/game.cpp:86-96 | The collection and counter change only when the state was InGame, and then they become TickObjects and TickCounter. Afterwards the state is GameOver if the ship is destroyed, whatever it was before, and is otherwise unchanged. The method always returns true. The id invariant is preserved. |
| `Lifecycle.NewAsteroids` | src/game.cpp:116-122 | Exactly `count` asteroids. The i-th has id first+i, is Large and not destroyed, and has a heading in [0, 360). |
| `Lifecycle.SpawnKeepsIds` | src/game.cpp:114-123 | Appending the spawned asteroids and advancing the counter by n keeps ids distinct and below the counter. |
| `Lifecycle.Parents` | src/game.cpp:210-212 | Every element selected as a parent is a destroyed asteroid larger than Small, and there are no more parents than objects. |
| `Lifecycle.ParentsAppend` | src/game.cpp:209-220 | Selecting parents distributes over concatenation. |
| `Lifecycle.ParentsMembers` | src/game.cpp:210-212 | An object is a parent exactly when it is in the collection and is a destroyed asteroid larger than Small. |
| `Lifecycle.ParentsAt` | src/game.cpp:209-220 | A splitting asteroid at index i is the parent whose position is the number of parents among objs[..i]. |
| `Lifecycle.ParentsOrder` | src/game.cpp:209-220 | Parents keep collection order: of two splitting asteroids, the later one in the collection is the strictly later parent. |
| `Lifecycle.Children` | src/game.cpp:209-220 | Every child is a live asteroid whose id is the counter's starting value n plus its slot. |
| `Lifecycle.ChildrenLayout` | src/game.cpp:208-223 | There are exactly 2k children for k parents, in collection order. Parent j owns slot 2j (+90, id n+2j) and slot 2j+1 (-90, id n+2j+1). |
| `Lifecycle.ChildrenKeepIds` | src/game.cpp:208-223 | Appending the children and advancing the counter by 2k keeps the id invariant. |
| `Lifecycle.Reap` | src/game.cpp:225-231 | Reaping never lengthens the collection. |
| `Lifecycle.ReapAppend` | src/game.cpp:225-231 | Reaping distributes over concatenation. |
| `Lifecycle.ReapMembers` | src/game.cpp:225-231 | An object is in the result exactly when it is in the collection and is not reaped. |
| `Lifecycle.ReapAt` | src/game.cpp:225-231 | A kept object at index i lands at the index equal to the length of Reap(objs[..i]). |
| `Lifecycle.ReapOrder` | src/game.cpp:225-231 | Reaping keeps relative order: kept objects at i < j land at strictly increasing positions. |
| `Lifecycle.ReapKeepsIds` | src/game.cpp:225-231 | Reaping preserves the id invariant with the counter unchanged. |
| `Lifecycle.ReapKeepsShipInFront` | src/game.cpp:225-231 | If the ship can only be first, it can only be first after reaping. A ship at the front of the result is the original first element. |
| `Lifecycle.CollisionPass` | src/game.cpp:197-200 | The pass keeps the length of the collection. |
| `Lifecycle.CollisionPassMarks` | src/game.cpp:197-200 | An object at or after the starting index ends up destroyed exactly when it already was, or when collision_check reports it. The check sees the collection as it stands at that object's turn: earlier objects already marked, later ones not yet. |
| `Lifecycle.CollisionPassShape` | src/game.cpp:197-200 | The collision pass keeps the length, ids and kinds. It only ever sets destroyed flags, and it leaves the objects before the starting index alone. |
| `Lifecycle.TickObjects` | src/game.cpp:86-91 | After one tick, an object is in the collection exactly when it is not destroyed and is either an object after the collision pass or one of the children. |
| `Lifecycle.TickCounter` | src/game.cpp:86-91 | After one tick, the counter has advanced by exactly the number of children appended. |
| `Lifecycle.TickKeepsIds` | src/game.cpp:86-96 | A whole tick preserves the id invariant: collisions, then children, then the reap. |
| `Lifecycle.QuietTick` | src/game.cpp:86-96 | With no collisions and nothing destroyed, a tick leaves the collection and the counter unchanged. |
| `Lifecycle.ResetCollection` | src/game.cpp:176-186 | After a reset, the collection has 1 + STARTING_ASTEROIDS objects. The first keeps the old first element's id and kind, and it is live if it is the ship. Element i after it is a live large asteroid with id i. |
| `Lifecycle.ResetIds` | src/game.cpp:176-186 | After a reset, the id invariant with the counter at 1 + STARTING_ASTEROIDS holds exactly when the kept first element has id 0. |
| `Lifecycle.ReapLosesShip` | src/game.cpp:225-231 | The counterexample for the finding below: the ship is reaped, and the following reset yields a collection with no ship and two objects with id 2. |
| `Lifecycle.ReapSparingShipKeepsReset` | src/game.cpp:225-231 | With the ship spared, as intended, a ship in front stays in front, the id invariant is preserved, and a later reset revives the ship and restores the id invariant. |

## Left out

- Rendering, `game_over_string`, the music and sound calls (play, stop, setVolume), the window and `load_resources` are display and audio I/O.
- Event polling through `pollEvent` is I/O. `ProcessEvent` is one turn of the polling loop. `Session.AfterEvents` folds a run of turns at the level of the state and running flag, and it ends the run at a close, as a closed window does.
- Steering the ship in `process_input` (`control_ship`) is keyboard polling and float physics on the ship, as are the ship's `update`, thrust and rotation.
- Each object's own `update(dt)` and `off_camera`/`wrap_object` are left out. They move objects and wrap positions, changing no id, type tag or destroyed flag. The time step `dt` is therefore ignored.
- Positions, `valid_asteroid_position`, and the position a child inherits are left out.
- `collision_check` and the quadtree behind it are not part of this model. `collides` stands in for them as an oracle.
- `Asteroid::spawn_child` is not part of this model. A child is recorded as a live asteroid of the next smaller size class whose heading is the parent's plus the offset. Whether that heading is normalised to [0, 360) is not modelled.
- `collide()` is modelled as setting the destroyed flag, as `Spaceship::collide` does in a release build. Debug builds, where the ship ignores collisions, are left out.
- Bullets: the code shown never creates a bullet (`fire_weapon` only plays a sound), so their lifetime is not modelled.
- The counter and the asteroid count are `unsigned int` in the code. The model uses unbounded `nat`, so 32-bit wrap-around after 2^32 ids is not modelled.
- `GameCore.Game.ResetGame`: it requires a non-empty collection, because the code's `erase(begin() + 1, end())` has no defined behaviour on an empty vector. The collection can become empty when the ship and every remaining asteroid are destroyed in the same tick and none of the destroyed asteroids splits (a consequence of the finding below).
- `remove_copy_if` is called with overlapping input and output ranges. It is modelled as the order-preserving in-place filter that `remove_if` performs (`GameCore.RemoveDestroyed`).

## Findings

| source | as written | input that shows it | evidently intended | confidence | as-written member | corrected member |
|---|---|---|---|---|---|---|
| src/game.cpp:225-231 | `delete_destroyed_objects` removes every destroyed object, the ship included. `reset_game` (lines 183-185) then keeps whatever object is first and restarts ids at 1. | Ship 0 and large asteroid 1 collide at start-up, so the collection after the collision pass is `ShipHitExample`. The split adds asteroids 5 and 6, the reap leaves [2, 3, 4, 5, 6], and Enter on GameOver resets to [2, 1, 2, 3, 4]. The id 2 appears twice and the ship is no longer in the collection. | The ship is never reaped, so its destruction only triggers game over. A reset then revives it in place at index 0, and ids stay unique. | medium (depends on the collision code, which is not part of this model); not executed | `Lifecycle.ReapLosesShip` | `Lifecycle.ReapSparingShipKeepsReset` |

The `Game` class models the code as written, so `DeleteDestroyedObjects` uses `Reap(_, false)`. The corrected filter is `Reap(_, true)`, and `ReapSparingShipKeepsReset` proves the intended property about it: with it, the ship stays first and a reset restores the id invariant.
