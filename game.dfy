/**
 * The Game object of the Asteroids game: its session fields, the ordered object
 * collection and the id counter, and the methods that change them. Each
 * method follows the code step by step and is proved against the functions of
 * modules Session and Lifecycle.
 *
 * The one Spaceship object is shared: the field player stands for m_player,
 * and while the ship is still in the collection the collection's first element
 * is that same object. Valid() keeps the two copies equal, and every step that
 * changes the ship through one handle changes the other too.
 */
module GameCore {
  import opened Session
  import opened Lifecycle

  class Game {
    var state: GameState
    var running: bool
    var difficulty: nat
    var objects: seq<GameObject>
    var nextObjectId: nat
    var player: GameObject

    /** The ship can only be the first element of the collection, and there it is m_player. */
    ghost predicate Valid()
      reads this
    {
      player.kind.Player? &&
      (forall i :: 0 < i < |objects| ==> !objects[i].kind.Player?) &&
      (ShipAtFront(objects) ==> objects[0] == player)
    }

    /** The state and running flag, as the state machine sees them. */
    function CurrentPhase(): Phase
      reads this
    {
      Phase(state, running)
    }

    /** Nothing but the state and the running flag changed. */
    twostate predicate OnlyPhaseChanged()
      reads this
    {
      objects == old(objects) && nextObjectId == old(nextObjectId) &&
      difficulty == old(difficulty) && player == old(player)
    }

    /** What reset_game does to everything but the state. */
    twostate predicate ResetFrom(rand: nat -> nat)
      reads this
    {
      |old(objects)| >= 1 &&
      objects == ResetCollection(old(objects), rand) &&
      nextObjectId == 1 + STARTING_ASTEROIDS && difficulty == 0 &&
      player == old(player).(destroyed := false) && running == old(running)
    }

    /**
     * Game(): the title screen, running, the ship with id 0 first, then the
     * starting asteroids. rand gives the values rand() returns.
     */
    constructor (rand: nat -> nat)
      ensures Valid()
      ensures state == TitleScreen && running && difficulty == 0
      ensures player == GameObject(0, Player, false)
      ensures objects == [player] + NewAsteroids(1, STARTING_ASTEROIDS, rand)
      ensures nextObjectId == 1 + STARTING_ASTEROIDS
      ensures IdsValid(objects, nextObjectId)
    {
      difficulty := 0;
      running := true;
      state := TitleScreen;
      nextObjectId := 0;
      objects := [];
      player := GameObject(0, Player, false);
      new;
      objects := objects + [player];
      nextObjectId := nextObjectId + 1;
      SpawnAsteroids(STARTING_ASTEROIDS, rand);
    }

    /** is_running() */
    method IsRunning() returns (r: bool)
      ensures r == running
    {
      r := running;
    }

    /**
     * spawn_asteroids: appends count large asteroids with ids taken from the
     * counter in turn; the i-th heading is the i-th random draw modulo 360.
     */
    method SpawnAsteroids(count: nat, rand: nat -> nat)
      requires Valid()
      modifies this
      ensures Valid()
      ensures objects == old(objects) + NewAsteroids(old(nextObjectId), count, rand)
      ensures nextObjectId == old(nextObjectId) + count
      ensures state == old(state) && running == old(running)
      ensures difficulty == old(difficulty) && player == old(player)
      ensures IdsValid(old(objects), old(nextObjectId)) ==> IdsValid(objects, nextObjectId)
    {
      ghost var first := nextObjectId;
      for i := 0 to count
        invariant objects == old(objects) + NewAsteroids(first, i, rand)
        invariant nextObjectId == first + i
        invariant Valid() && player == old(player)
        invariant state == old(state) && running == old(running) && difficulty == old(difficulty)
      {
        var asteroid := GameObject(nextObjectId, Asteroid(Large, rand(i) % 360), false);
        objects := objects + [asteroid];
        nextObjectId := nextObjectId + 1;
        assert NewAsteroids(first, i + 1, rand) == NewAsteroids(first, i, rand) + [asteroid];
      }
      if IdsValid(old(objects), old(nextObjectId)) {
        SpawnKeepsIds(old(objects), first, count, rand);
      }
    }

    /** start_game */
    method StartGame()
      modifies this
      ensures CurrentPhase() == Apply(Start, old(CurrentPhase())) && OnlyPhaseChanged()
    {
      state := InGame;
    }

    /** pause_game */
    method PauseGame()
      modifies this
      ensures CurrentPhase() == Apply(Pause, old(CurrentPhase())) && OnlyPhaseChanged()
    {
      state := Paused;
    }

    /** resume_game */
    method ResumeGame()
      modifies this
      ensures CurrentPhase() == Apply(Resume, old(CurrentPhase())) && OnlyPhaseChanged()
    {
      state := InGame;
    }

    /** game_over */
    method EnterGameOver()
      modifies this
      ensures CurrentPhase() == Apply(ToGameOver, old(CurrentPhase())) && OnlyPhaseChanged()
    {
      state := GameOver;
    }

    /** close_game */
    method CloseGame()
      modifies this
      ensures CurrentPhase() == Apply(Close, old(CurrentPhase())) && OnlyPhaseChanged()
    {
      running := false;
    }

    /**
     * reset_game: difficulty 0, the title screen, the ship revived, the
     * collection cut back to its first element, the counter set to the size
     * that is left, and the starting asteroids spawned again. The code needs a
     * non-empty collection (it erases from begin() + 1).
     */
    method ResetGame(rand: nat -> nat)
      requires Valid() && |objects| >= 1
      modifies this
      ensures Valid()
      ensures CurrentPhase() == Apply(Reset, old(CurrentPhase())) && ResetFrom(rand)
      ensures |objects| == nextObjectId
      ensures IdsValid(objects, nextObjectId) <==> old(objects)[0].id == 0
    {
      difficulty := 0;
      state := TitleScreen;
      player := player.(destroyed := false);
      if objects[0].kind.Player? {
        // reset_ship on m_player changes the collection's first element too
        objects := objects[0 := player];
      }
      assert objects[0] == Revive(old(objects)[0]);
      objects := objects[..1];
      nextObjectId := |objects|;
      SpawnAsteroids(STARTING_ASTEROIDS, rand);
      ResetIds(old(objects), rand);
    }

    /** process_menu_keys: the menu table for a released key. */
    method ProcessMenuKeys(key: Key, rand: nat -> nat)
      requires Valid()
      requires MenuTransition(state, key) == Reset ==> |objects| >= 1
      modifies this
      ensures Valid()
      ensures CurrentPhase() == Apply(MenuTransition(old(state), key), old(CurrentPhase()))
      ensures if MenuTransition(old(state), key) == Reset then ResetFrom(rand) else OnlyPhaseChanged()
    {
      match state
      case TitleScreen =>
        if key == Enter {
          StartGame();
        } else if key == Escape {
          CloseGame();
        }
      case InGame =>
        if key == Escape {
          PauseGame();
        }
      case Paused =>
        if key == Escape {
          ResetGame(rand);
        } else if key == Enter {
          ResumeGame();
        }
      case GameOver =>
        if key == Enter {
          ResetGame(rand);
        }
    }

    /**
     * One event of process_input's polling loop. (Steering the ship while in
     * game is keyboard polling and ship physics, outside this model.)
     */
    method ProcessEvent(e: Event, rand: nat -> nat)
      requires Valid()
      requires EventTransition(state, e) == Reset ==> |objects| >= 1
      modifies this
      ensures Valid()
      ensures CurrentPhase() == Apply(EventTransition(old(state), e), old(CurrentPhase()))
      ensures if EventTransition(old(state), e) == Reset then ResetFrom(rand) else OnlyPhaseChanged()
    {
      match e
      case Closed =>
        CloseGame();
      case LostFocus =>
        if state == InGame {
          PauseGame();
        }
      case Resized =>
        if state == InGame {
          PauseGame();
        }
      case KeyReleased(k) =>
        ProcessMenuKeys(k, rand);
      case OtherEvent =>
    }

    /**
     * update_game_objects: each object moves (kinematics, outside this model),
     * then each in turn is asked about by the collision oracle against the
     * collection as it stands and, if it collides, is marked destroyed.
     */
    method UpdateGameObjects(collides: (seq<GameObject>, nat) -> bool)
      requires Valid()
      modifies this
      ensures Valid()
      ensures objects == CollisionPass(old(objects), collides, 0)
      ensures if ShipAtFront(old(objects)) then player == objects[0] else player == old(player)
      ensures nextObjectId == old(nextObjectId) && CurrentPhase() == old(CurrentPhase())
      ensures difficulty == old(difficulty)
    {
      CollisionPassShape(objects, collides, 0);
      var i := 0;
      while i < |objects|
        invariant 0 <= i <= |objects| == |old(objects)|
        invariant CollisionPass(objects, collides, i) == CollisionPass(old(objects), collides, 0)
        invariant forall j :: 0 <= j < |objects| ==> objects[j].kind == old(objects)[j].kind
        invariant Valid()
        invariant !ShipAtFront(old(objects)) ==> player == old(player)
        invariant nextObjectId == old(nextObjectId) && CurrentPhase() == old(CurrentPhase())
        invariant difficulty == old(difficulty)
      {
        if collides(objects, i) {
          objects := objects[i := Collide(objects[i])];
          if objects[i].kind.Player? {
            // collide() on the ship changes m_player too
            player := objects[i];
          }
        }
        i := i + 1;
      }
    }

    /**
     * spawn_child_asteroids: every destroyed asteroid above the smallest size
     * gets a +90 and a -90 child with the next two ids; the children are
     * appended after the whole scan.
     */
    method SpawnChildAsteroids()
      requires Valid()
      modifies this
      ensures Valid()
      ensures objects == old(objects) + Children(old(objects), old(nextObjectId))
      ensures nextObjectId == old(nextObjectId) + 2 * |Parents(old(objects))|
      ensures player == old(player) && difficulty == old(difficulty)
      ensures CurrentPhase() == old(CurrentPhase())
      ensures IdsValid(old(objects), old(nextObjectId)) ==> IdsValid(objects, nextObjectId)
    {
      ghost var first := nextObjectId;
      var newChildren: seq<GameObject> := [];
      for i := 0 to |objects|
        invariant objects == old(objects) && player == old(player)
        invariant newChildren == Children(objects[..i], first)
        invariant nextObjectId == first + |newChildren|
        invariant CurrentPhase() == old(CurrentPhase()) && difficulty == old(difficulty)
      {
        var o := objects[i];
        ChildrenStep(objects, first, i);
        if o.kind.Asteroid? && o.destroyed && o.kind.size != Small {
          newChildren := newChildren + [SpawnChild(o, 90, nextObjectId)];
          nextObjectId := nextObjectId + 1;
          newChildren := newChildren + [SpawnChild(o, -90, nextObjectId)];
          nextObjectId := nextObjectId + 1;
        }
      }
      assert objects[..|objects|] == objects;
      ChildrenLayout(objects, first);
      objects := objects + newChildren;
      if IdsValid(old(objects), first) {
        ChildrenKeepIds(old(objects), first);
      }
    }

    /**
     * delete_destroyed_objects: every destroyed object, the ship included, is
     * removed; the rest keep their order (the compaction is RemoveDestroyed).
     */
    method DeleteDestroyedObjects()
      requires Valid()
      modifies this
      ensures Valid()
      ensures objects == Reap(old(objects), false)
      ensures nextObjectId == old(nextObjectId) && player == old(player)
      ensures difficulty == old(difficulty) && CurrentPhase() == old(CurrentPhase())
      ensures IdsValid(old(objects), nextObjectId) ==> IdsValid(objects, nextObjectId)
    {
      objects := RemoveDestroyed(objects);
      ReapKeepsShipInFront(old(objects), false);
      if IdsValid(old(objects), nextObjectId) {
        ReapKeepsIds(old(objects), nextObjectId, false);
      }
    }

    /**
     * update: in game, one tick of collisions, splitting and reaping; then, in
     * any state, a destroyed ship means game over. It always reports success.
     */
    method Update(collides: (seq<GameObject>, nat) -> bool) returns (ok: bool)
      requires Valid()
      modifies this
      ensures Valid() && ok
      ensures old(state) == InGame ==>
        objects == TickObjects(old(objects), old(nextObjectId), collides) &&
        nextObjectId == TickCounter(old(objects), old(nextObjectId), collides) &&
        player == (if ShipAtFront(old(objects)) then CollisionPass(old(objects), collides, 0)[0] else old(player))
      ensures old(state) != InGame ==>
        objects == old(objects) && nextObjectId == old(nextObjectId) && player == old(player)
      ensures state == (if player.destroyed then GameOver else old(state))
      ensures running == old(running) && difficulty == old(difficulty)
      ensures IdsValid(old(objects), old(nextObjectId)) ==> IdsValid(objects, nextObjectId)
    {
      if state == InGame {
        UpdateGameObjects(collides);
        SpawnChildAsteroids();
        DeleteDestroyedObjects();
        if IdsValid(old(objects), old(nextObjectId)) {
          TickKeepsIds(old(objects), old(nextObjectId), collides);
        }
      }
      if player.destroyed {
        EnterGameOver();
      }
      ok := true;
    }
  }

  /**
   * The compaction delete_destroyed_objects performs with remove_copy_if and
   * erase: each surviving object is copied forward to the next free slot of
   * the buffer, in order, and everything after the last copied slot is cut off.
   */
  method RemoveDestroyed(objs: seq<GameObject>) returns (kept: seq<GameObject>)
    ensures kept == Reap(objs, false)
  {
    var buf := objs;
    var w := 0;
    var r := 0;
    while r < |buf|
      invariant 0 <= w <= r <= |buf| == |objs|
      invariant buf[..w] == Reap(objs[..r], false)
      invariant forall k :: r <= k < |buf| ==> buf[k] == objs[k]
    {
      ReapStep(objs, false, r);
      if !buf[r].destroyed {
        buf := buf[w := buf[r]];
        assert buf[..w + 1] == buf[..w] + [objs[r]];
        w := w + 1;
      }
      r := r + 1;
    }
    assert objs[..r] == objs;
    kept := buf[..w];
  }
}
