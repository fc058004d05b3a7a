/**
 * The entity lifecycle of the Asteroids game: the records kept in the ordered
 * object collection, and the pure functions that say what spawning, splitting,
 * collision marking and reaping do to that collection and to the id counter.
 * The Game class (module GameCore) is proved against these functions.
 */
module Lifecycle {

  /** Asteroid size classes, ordered by strictly decreasing radius. */
  datatype SizeClass = Large | Medium | Small

  /**
   * The object type tag. An asteroid also carries its size class (standing in
   * for its radius) and its heading in degrees.
   */
  datatype Kind = Player | Asteroid(size: SizeClass, heading: int) | Bullet

  /** One element of the object collection: id, type tag and destroyed flag. */
  datatype GameObject = GameObject(id: nat, kind: Kind, destroyed: bool)

  /** Number of asteroids spawned at start-up and on every reset. */
  const STARTING_ASTEROIDS: nat := 4

  /** The size class of the children of an asteroid of class s. */
  function Smaller(s: SizeClass): SizeClass
  {
    match s
    case Large => Medium
    case Medium => Small
    case Small => Small
  }

  /** An asteroid that is destroyed and larger than the minimum size splits. */
  predicate Splits(o: GameObject)
  {
    o.kind.Asteroid? && o.destroyed && o.kind.size != Small
  }

  /** The child an asteroid spawns at the given heading offset, with the given id. */
  function SpawnChild(parent: GameObject, offset: int, id: nat): GameObject
    requires parent.kind.Asteroid?
  {
    GameObject(id, Asteroid(Smaller(parent.kind.size), parent.kind.heading + offset), false)
  }

  /** What collide() does to an object: it becomes destroyed. */
  function Collide(o: GameObject): GameObject
  {
    o.(destroyed := true)
  }

  // ---------------------------------------------------------------------------
  // Identifiers

  /** Every id is below the counter and no two objects share an id. */
  ghost predicate IdsValid(objs: seq<GameObject>, next: nat)
  {
    (forall i :: 0 <= i < |objs| ==> objs[i].id < next) &&
    (forall i, j :: 0 <= i < j < |objs| ==> objs[i].id != objs[j].id)
  }

  // ---------------------------------------------------------------------------
  // Spawning the starting asteroids

  /**
   * The asteroids spawn_asteroids appends: count large asteroids with ids
   * first, first + 1, ..., whose heading is the i-th random draw modulo 360.
   */
  function NewAsteroids(first: nat, count: nat, rand: nat -> nat): (r: seq<GameObject>)
    ensures |r| == count
    ensures forall i :: 0 <= i < count ==>
      r[i].id == first + i && !r[i].destroyed && r[i].kind.Asteroid? &&
      r[i].kind.size == Large && 0 <= r[i].kind.heading < 360
  {
    seq(count, i requires 0 <= i < count => GameObject(first + i, Asteroid(Large, rand(i) % 360), false))
  }

  /** Spawning n asteroids keeps the id invariant once the counter moves on by n. */
  lemma SpawnKeepsIds(objs: seq<GameObject>, next: nat, count: nat, rand: nat -> nat)
    requires IdsValid(objs, next)
    ensures IdsValid(objs + NewAsteroids(next, count, rand), next + count)
  {
  }

  // ---------------------------------------------------------------------------
  // Splitting destroyed asteroids

  /** The asteroids that split, in collection order. */
  function Parents(objs: seq<GameObject>): (r: seq<GameObject>)
    ensures |r| <= |objs|
    ensures forall i :: 0 <= i < |r| ==> Splits(r[i])
  {
    if objs == [] then []
    else
      var last := objs[|objs| - 1];
      Parents(objs[..|objs| - 1]) + (if Splits(last) then [last] else [])
  }

  /** Selecting parents distributes over concatenation. */
  lemma {:induction false} ParentsAppend(a: seq<GameObject>, b: seq<GameObject>)
    ensures Parents(a + b) == Parents(a) + Parents(b)
  {
    if b == [] {
      assert a + b == a;
    } else {
      var init := b[..|b| - 1];
      assert (a + b)[..|a + b| - 1] == a + init;
      ParentsAppend(a, init);
    }
  }

  /** The parents are exactly the objects of the collection that split. */
  lemma {:induction false} ParentsMembers(objs: seq<GameObject>)
    ensures forall o :: o in Parents(objs) <==> o in objs && Splits(o)
  {
    if objs != [] {
      var init := objs[..|objs| - 1];
      ParentsMembers(init);
      assert objs == init + [objs[|objs| - 1]];
    }
  }

  /** A splitting asteroid at index i is parent number |Parents(objs[..i])|. */
  lemma ParentsAt(objs: seq<GameObject>, i: nat)
    requires i < |objs| && Splits(objs[i])
    ensures |Parents(objs[..i])| < |Parents(objs)|
    ensures Parents(objs)[|Parents(objs[..i])|] == objs[i]
  {
    assert objs == objs[..i] + objs[i..];
    ParentsAppend(objs[..i], objs[i..]);
    assert objs[i..] == [objs[i]] + objs[i + 1..];
    ParentsAppend([objs[i]], objs[i + 1..]);
    assert Parents([objs[i]]) == [objs[i]] by {
      assert [objs[i]][..0] == [];
    }
  }

  /** Parents keep collection order: a later splitting asteroid is a strictly later parent. */
  lemma ParentsOrder(objs: seq<GameObject>, i: nat, j: nat)
    requires i < j < |objs| && Splits(objs[i]) && Splits(objs[j])
    ensures |Parents(objs[..i])| < |Parents(objs[..j])| < |Parents(objs)|
    ensures Parents(objs)[|Parents(objs[..i])|] == objs[i]
    ensures Parents(objs)[|Parents(objs[..j])|] == objs[j]
  {
    ParentsAt(objs, i);
    ParentsAt(objs, j);
    assert objs[..j][..i] == objs[..i] && objs[..j][i] == objs[i];
    ParentsAt(objs[..j], i);
  }

  /**
   * The children spawn_child_asteroids collects: scanning the collection in
   * order, every splitting asteroid contributes its +90 child and then its -90
   * child, taking the next two ids from the counter, which started at next.
   */
  function Children(objs: seq<GameObject>, next: nat): (r: seq<GameObject>)
    ensures forall i :: 0 <= i < |r| ==> r[i].id == next + i && !r[i].destroyed && r[i].kind.Asteroid?
  {
    if objs == [] then []
    else
      var last := objs[|objs| - 1];
      var pre := Children(objs[..|objs| - 1], next);
      pre + (if Splits(last)
             then [SpawnChild(last, 90, next + |pre|), SpawnChild(last, -90, next + |pre| + 1)]
             else [])
  }

  /** Scanning one more element appends that element's children, if it splits. */
  lemma ChildrenStep(objs: seq<GameObject>, next: nat, i: nat)
    requires i < |objs|
    ensures var pre := Children(objs[..i], next);
      Children(objs[..i + 1], next) ==
        pre + (if Splits(objs[i])
               then [SpawnChild(objs[i], 90, next + |pre|), SpawnChild(objs[i], -90, next + |pre| + 1)]
               else [])
  {
    assert objs[..i + 1][..i] == objs[..i];
  }

  /**
   * The children are laid out pairwise: the j-th splitting asteroid owns slots
   * 2j (offset +90) and 2j+1 (offset -90), taking the ids next + 2j and
   * next + 2j + 1.
   */
  lemma {:induction false} ChildrenLayout(objs: seq<GameObject>, next: nat)
    ensures |Children(objs, next)| == 2 * |Parents(objs)|
    ensures forall j :: 0 <= j < |Parents(objs)| ==>
      Children(objs, next)[2 * j] == SpawnChild(Parents(objs)[j], 90, next + 2 * j) &&
      Children(objs, next)[2 * j + 1] == SpawnChild(Parents(objs)[j], -90, next + 2 * j + 1)
  {
    if objs != [] {
      var init := objs[..|objs| - 1];
      var last := objs[|objs| - 1];
      ChildrenLayout(init, next);
      var pre := Children(init, next);
      var ps := Parents(init);
      var cs := Children(objs, next);
      var extra := if Splits(last) then [SpawnChild(last, 90, next + |pre|), SpawnChild(last, -90, next + |pre| + 1)] else [];
      assert cs == pre + extra;
      assert Parents(objs) == ps + (if Splits(last) then [last] else []);
      forall j | 0 <= j < |Parents(objs)|
        ensures cs[2 * j] == SpawnChild(Parents(objs)[j], 90, next + 2 * j)
        ensures cs[2 * j + 1] == SpawnChild(Parents(objs)[j], -90, next + 2 * j + 1)
      {
        if j < |ps| {
          assert Parents(objs)[j] == ps[j];
          assert cs[2 * j] == pre[2 * j] && cs[2 * j + 1] == pre[2 * j + 1];
        } else {
          assert Parents(objs)[j] == last && 2 * j == |pre|;
          assert cs[2 * j] == extra[0] && cs[2 * j + 1] == extra[1];
        }
      }
    }
  }

  /**
   * Splitting keeps the id invariant: the 2k children take the ids
   * next .. next + 2k - 1 and the counter moves on by 2k.
   */
  lemma ChildrenKeepIds(objs: seq<GameObject>, next: nat)
    requires IdsValid(objs, next)
    ensures IdsValid(objs + Children(objs, next), next + 2 * |Parents(objs)|)
  {
    ChildrenLayout(objs, next);
    var cs := Children(objs, next);
    var r := objs + cs;
    forall i | 0 <= i < |r| ensures r[i].id < next + 2 * |Parents(objs)| {
      if i >= |objs| { assert r[i] == cs[i - |objs|]; }
    }
    forall i, j | 0 <= i < j < |r| ensures r[i].id != r[j].id {
      if j >= |objs| {
        assert r[j] == cs[j - |objs|];
        if i >= |objs| { assert r[i] == cs[i - |objs|]; }
      }
    }
  }

  // ---------------------------------------------------------------------------
  // Reaping destroyed objects

  /**
   * Whether reaping removes o. With spareShip false this is the code's
   * predicate (every destroyed object goes, the ship included); with spareShip
   * true a destroyed ship stays, as spawn order and reset expect.
   */
  predicate Reaped(o: GameObject, spareShip: bool)
  {
    o.destroyed && !(spareShip && o.kind.Player?)
  }

  /** The collection after reaping: an order-preserving filter. */
  function Reap(objs: seq<GameObject>, spareShip: bool): (r: seq<GameObject>)
    ensures |r| <= |objs|
  {
    if objs == [] then []
    else
      var last := objs[|objs| - 1];
      Reap(objs[..|objs| - 1], spareShip) + (if Reaped(last, spareShip) then [] else [last])
  }

  /** Reaping one more element of a prefix keeps or drops just that element. */
  lemma ReapStep(objs: seq<GameObject>, spareShip: bool, r: nat)
    requires r < |objs|
    ensures Reap(objs[..r + 1], spareShip) ==
      Reap(objs[..r], spareShip) + (if Reaped(objs[r], spareShip) then [] else [objs[r]])
  {
    assert objs[..r + 1][..r] == objs[..r];
  }

  /** Reaping distributes over concatenation. */
  lemma {:induction false} ReapAppend(a: seq<GameObject>, b: seq<GameObject>, spareShip: bool)
    ensures Reap(a + b, spareShip) == Reap(a, spareShip) + Reap(b, spareShip)
  {
    if b == [] {
      assert a + b == a;
    } else {
      var init := b[..|b| - 1];
      assert (a + b)[..|a + b| - 1] == a + init;
      ReapAppend(a, init, spareShip);
    }
  }

  /** Reaping leaves exactly the objects of the collection that it does not remove. */
  lemma {:induction false} ReapMembers(objs: seq<GameObject>, spareShip: bool)
    ensures forall o :: o in Reap(objs, spareShip) <==> o in objs && !Reaped(o, spareShip)
  {
    if objs != [] {
      var init := objs[..|objs| - 1];
      ReapMembers(init, spareShip);
      assert objs == init + [objs[|objs| - 1]];
    }
  }

  /**
   * Order is preserved: a kept object at index i lands at index
   * |Reap(objs[..i])| of the result, and that index grows strictly with i.
   */
  lemma ReapOrder(objs: seq<GameObject>, spareShip: bool, i: nat, j: nat)
    requires i < j < |objs|
    requires !Reaped(objs[i], spareShip) && !Reaped(objs[j], spareShip)
    ensures |Reap(objs[..i], spareShip)| < |Reap(objs[..j], spareShip)| < |Reap(objs, spareShip)|
    ensures Reap(objs, spareShip)[|Reap(objs[..i], spareShip)|] == objs[i]
    ensures Reap(objs, spareShip)[|Reap(objs[..j], spareShip)|] == objs[j]
  {
    ReapAt(objs, spareShip, i);
    ReapAt(objs, spareShip, j);
    assert objs[..j] == objs[..i] + objs[i..j];
    ReapAppend(objs[..i], objs[i..j], spareShip);
    assert objs[i..j] == [objs[i]] + objs[i + 1..j];
    ReapAppend([objs[i]], objs[i + 1..j], spareShip);
    assert Reap([objs[i]], spareShip) == [objs[i]] by {
      assert [objs[i]][..0] == [];
    }
  }

  /** A kept object at index i sits at index |Reap(objs[..i])| of the result. */
  lemma ReapAt(objs: seq<GameObject>, spareShip: bool, i: nat)
    requires i < |objs| && !Reaped(objs[i], spareShip)
    ensures |Reap(objs[..i], spareShip)| < |Reap(objs, spareShip)|
    ensures Reap(objs, spareShip)[|Reap(objs[..i], spareShip)|] == objs[i]
  {
    assert objs == objs[..i] + objs[i..];
    ReapAppend(objs[..i], objs[i..], spareShip);
    assert objs[i..] == [objs[i]] + objs[i + 1..];
    ReapAppend([objs[i]], objs[i + 1..], spareShip);
    assert Reap([objs[i]], spareShip) == [objs[i]] by {
      assert [objs[i]][..0] == [];
    }
  }

  /** Reaping keeps the id invariant with the counter unchanged. */
  lemma {:induction false} ReapKeepsIds(objs: seq<GameObject>, next: nat, spareShip: bool)
    requires IdsValid(objs, next)
    ensures IdsValid(Reap(objs, spareShip), next)
  {
    if objs != [] {
      var init := objs[..|objs| - 1];
      var last := objs[|objs| - 1];
      assert IdsValid(init, next);
      ReapKeepsIds(init, next, spareShip);
      ReapMembers(init, spareShip);
      var r := Reap(objs, spareShip);
      var pre := Reap(init, spareShip);
      forall i | 0 <= i < |pre| ensures pre[i].id != last.id {
        assert pre[i] in init;
        var k :| 0 <= k < |init| && init[k] == pre[i];
        assert objs[k] == pre[i];
      }
    }
  }

  /**
   * If the ship can only be the first element, reaping keeps it so: no later
   * element of the result is the ship, and a ship at the front of the result
   * is the original first element.
   */
  lemma ReapKeepsShipInFront(objs: seq<GameObject>, spareShip: bool)
    requires forall i :: 0 < i < |objs| ==> !objs[i].kind.Player?
    ensures forall i :: 0 < i < |Reap(objs, spareShip)| ==> !Reap(objs, spareShip)[i].kind.Player?
    ensures |Reap(objs, spareShip)| > 0 && Reap(objs, spareShip)[0].kind.Player? ==>
      Reap(objs, spareShip)[0] == objs[0]
  {
  }

  // ---------------------------------------------------------------------------
  // Marking collisions

  /**
   * The collision pass from index from onwards: the oracle is asked about each
   * object in turn, against the collection as earlier answers have left it, and
   * every object it reports is marked destroyed.
   */
  function CollisionPass(objs: seq<GameObject>, collides: (seq<GameObject>, nat) -> bool, from: nat): (r: seq<GameObject>)
    ensures |r| == |objs|
    decreases |objs| - from
  {
    if from >= |objs| then objs
    else
      var marked := if collides(objs, from) then objs[from := Collide(objs[from])] else objs;
      CollisionPass(marked, collides, from + 1)
  }

  /**
   * The collision pass changes nothing but destroyed flags, only sets them,
   * and leaves the objects before from alone.
   */
  lemma {:induction false} CollisionPassShape(objs: seq<GameObject>, collides: (seq<GameObject>, nat) -> bool, from: nat)
    ensures forall i :: 0 <= i < |objs| ==>
      CollisionPass(objs, collides, from)[i].id == objs[i].id &&
      CollisionPass(objs, collides, from)[i].kind == objs[i].kind &&
      (objs[i].destroyed ==> CollisionPass(objs, collides, from)[i].destroyed)
    ensures forall i :: 0 <= i < from && i < |objs| ==> CollisionPass(objs, collides, from)[i] == objs[i]
    decreases |objs| - from
  {
    if from < |objs| {
      var marked := if collides(objs, from) then objs[from := Collide(objs[from])] else objs;
      CollisionPassShape(marked, collides, from + 1);
    }
  }

  /**
   * What the pass does: an object from index from onwards ends up destroyed
   * exactly when it already was, or the oracle reports it against the
   * collection as it stands at its turn, with the earlier objects already
   * marked and the later ones not yet.
   */
  lemma {:induction false} CollisionPassMarks(objs: seq<GameObject>, collides: (seq<GameObject>, nat) -> bool, from: nat)
    ensures var r := CollisionPass(objs, collides, from);
      forall i :: from <= i < |objs| ==>
        (r[i].destroyed <==> objs[i].destroyed || collides(r[..i] + objs[i..], i))
    decreases |objs| - from
  {
    if from < |objs| {
      var r := CollisionPass(objs, collides, from);
      var marked := if collides(objs, from) then objs[from := Collide(objs[from])] else objs;
      assert r == CollisionPass(marked, collides, from + 1);
      CollisionPassMarks(marked, collides, from + 1);
      CollisionPassShape(marked, collides, from + 1);
      assert r[..from] == objs[..from];
      assert r[..from] + objs[from..] == objs;
      forall i | from < i < |objs| ensures r[..i] + marked[i..] == r[..i] + objs[i..] {
        assert marked[i..] == objs[i..];
      }
    }
  }

  /** Objects whose ids and kinds match pairwise satisfy the same id invariant. */
  lemma SameIdsKeepIds(objs: seq<GameObject>, r: seq<GameObject>, next: nat)
    requires IdsValid(objs, next)
    requires |r| == |objs| && forall i :: 0 <= i < |objs| ==> r[i].id == objs[i].id
    ensures IdsValid(r, next)
  {
  }

  // ---------------------------------------------------------------------------
  // One simulation tick while in game

  /** The collection after one tick: mark collisions, append children, reap. */
  function TickObjects(objs: seq<GameObject>, next: nat, collides: (seq<GameObject>, nat) -> bool): (r: seq<GameObject>)
    ensures forall o :: o in r <==>
      !o.destroyed && (o in CollisionPass(objs, collides, 0) || o in Children(CollisionPass(objs, collides, 0), next))
  {
    var hit := CollisionPass(objs, collides, 0);
    ReapMembers(hit + Children(hit, next), false);
    Reap(hit + Children(hit, next), false)
  }

  /** The id counter after one tick: two ids per splitting asteroid. */
  function TickCounter(objs: seq<GameObject>, next: nat, collides: (seq<GameObject>, nat) -> bool): (r: nat)
    ensures r == next + |Children(CollisionPass(objs, collides, 0), next)|
  {
    ChildrenLayout(CollisionPass(objs, collides, 0), next);
    next + 2 * |Parents(CollisionPass(objs, collides, 0))|
  }

  /** A tick keeps the id invariant. */
  lemma TickKeepsIds(objs: seq<GameObject>, next: nat, collides: (seq<GameObject>, nat) -> bool)
    requires IdsValid(objs, next)
    ensures IdsValid(TickObjects(objs, next, collides), TickCounter(objs, next, collides))
  {
    var hit := CollisionPass(objs, collides, 0);
    CollisionPassShape(objs, collides, 0);
    SameIdsKeepIds(objs, hit, next);
    ChildrenKeepIds(hit, next);
    ReapKeepsIds(hit + Children(hit, next), next + 2 * |Parents(hit)|, false);
  }

  /**
   * With no collisions and nothing destroyed, a tick changes neither the
   * collection nor the counter.
   */
  lemma QuietTick(objs: seq<GameObject>, next: nat, collides: (seq<GameObject>, nat) -> bool)
    requires forall i :: 0 <= i < |objs| ==> !objs[i].destroyed
    requires forall s, i :: !collides(s, i)
    ensures TickObjects(objs, next, collides) == objs
    ensures TickCounter(objs, next, collides) == next
  {
    QuietPass(objs, collides, 0);
    NoneDestroyedNoChildren(objs, next);
    NoneDestroyedNoReap(objs);
    assert objs + [] == objs;
  }

  lemma {:induction false} QuietPass(objs: seq<GameObject>, collides: (seq<GameObject>, nat) -> bool, from: nat)
    requires forall s, i :: !collides(s, i)
    ensures CollisionPass(objs, collides, from) == objs
    decreases |objs| - from
  {
    if from < |objs| {
      QuietPass(objs, collides, from + 1);
    }
  }

  lemma {:induction false} NoneDestroyedNoChildren(objs: seq<GameObject>, next: nat)
    requires forall i :: 0 <= i < |objs| ==> !objs[i].destroyed
    ensures Children(objs, next) == [] && Parents(objs) == []
  {
    if objs != [] {
      NoneDestroyedNoChildren(objs[..|objs| - 1], next);
    }
  }

  lemma {:induction false} NoneDestroyedNoReap(objs: seq<GameObject>)
    requires forall i :: 0 <= i < |objs| ==> !objs[i].destroyed
    ensures Reap(objs, false) == objs
  {
    if objs != [] {
      var init := objs[..|objs| - 1];
      NoneDestroyedNoReap(init);
      assert objs == init + [objs[|objs| - 1]];
    }
  }

  // ---------------------------------------------------------------------------
  // Reset

  /** What reset_ship does to the record of the ship; other objects are untouched. */
  function Revive(o: GameObject): GameObject
  {
    if o.kind.Player? then o.(destroyed := false) else o
  }

  /**
   * The collection after reset_game: the first element (revived if it is the
   * ship) followed by STARTING_ASTEROIDS new asteroids with ids 1, 2, ...
   */
  function ResetCollection(objs: seq<GameObject>, rand: nat -> nat): (r: seq<GameObject>)
    requires |objs| >= 1
    ensures |r| == 1 + STARTING_ASTEROIDS
    ensures r[0].id == objs[0].id && r[0].kind == objs[0].kind
    ensures r[0].destroyed <==> objs[0].destroyed && !objs[0].kind.Player?
    ensures forall i :: 1 <= i < |r| ==>
      r[i].id == i && !r[i].destroyed && r[i].kind.Asteroid? && r[i].kind.size == Large
  {
    [Revive(objs[0])] + NewAsteroids(1, STARTING_ASTEROIDS, rand)
  }

  /**
   * A reset restores the id invariant, with the counter at 1 + STARTING_ASTEROIDS,
   * exactly when the kept first element has id 0.
   */
  lemma ResetIds(objs: seq<GameObject>, rand: nat -> nat)
    requires |objs| >= 1
    ensures IdsValid(ResetCollection(objs, rand), 1 + STARTING_ASTEROIDS) <==> objs[0].id == 0
  {
    var r := ResetCollection(objs, rand);
    if objs[0].id == 0 {
      SpawnKeepsIds([Revive(objs[0])], 1, STARTING_ASTEROIDS, rand);
    } else if objs[0].id <= STARTING_ASTEROIDS {
      assert r[0].id == objs[0].id;
      assert r[objs[0].id] == NewAsteroids(1, STARTING_ASTEROIDS, rand)[objs[0].id - 1];
    } else {
      assert r[0].id >= 1 + STARTING_ASTEROIDS;
    }
  }

  // ---------------------------------------------------------------------------
  // The destroyed ship is reaped

  /** A collection in which the ship is the first element. */
  predicate ShipAtFront(objs: seq<GameObject>)
  {
    |objs| > 0 && objs[0].kind.Player?
  }

  /**
   * The collection at start-up right after the collision pass in which the
   * ship (id 0) and the large asteroid with id 1 hit each other.
   */
  function ShipHitExample(): seq<GameObject>
  {
    [GameObject(0, Player, true), GameObject(1, Asteroid(Large, 0), true),
     GameObject(2, Asteroid(Large, 0), false), GameObject(3, Asteroid(Large, 0), false),
     GameObject(4, Asteroid(Large, 0), false)]
  }

  /** In ShipHitExample only asteroid 1 splits, into children 5 and 6. */
  lemma ShipHitChildren()
    ensures Children(ShipHitExample(), 5) ==
      [SpawnChild(ShipHitExample()[1], 90, 5), SpawnChild(ShipHitExample()[1], -90, 6)]
  {
    var hit := ShipHitExample();
    var two := [SpawnChild(hit[1], 90, 5), SpawnChild(hit[1], -90, 6)];
    assert hit[..1][..0] == [];
    assert Children(hit[..1], 5) == [];
    assert hit[..2][..1] == hit[..1];
    assert Children(hit[..2], 5) == two;
    assert hit[..3][..2] == hit[..2];
    assert Children(hit[..3], 5) == two;
    assert hit[..4][..3] == hit[..3];
    assert Children(hit[..4], 5) == two;
    assert hit[..5][..4] == hit[..4];
    assert hit[..5] == hit;
  }

  /** In ShipHitExample the ship and asteroid 1 are reaped and everything after them stays. */
  lemma ShipHitReap()
    ensures Reap(ShipHitExample() + Children(ShipHitExample(), 5), false) ==
      ShipHitExample()[2..] + Children(ShipHitExample(), 5)
  {
    var hit := ShipHitExample();
    var cs := Children(hit, 5);
    ShipHitChildren();
    var rest := hit[2..] + cs;
    assert hit + cs == hit[..2] + rest;
    ReapAppend(hit[..2], rest, false);
    assert Reap(hit[..2], false) == [] by {
      assert hit[..2][..1] == [hit[0]];
      assert [hit[0]][..0] == [];
    }
    NoneDestroyedNoReap(rest);
  }

  /**
   * As written, reaping removes the destroyed ship: from ShipHitExample, one
   * split-and-reap with the counter at 5 and a reset leave a collection with no
   * ship whose id invariant fails (the kept asteroid 2 and the new asteroid 2).
   */
  lemma ReapLosesShip(rand: nat -> nat)
    ensures IdsValid(ShipHitExample(), 5)
    ensures var hit := ShipHitExample();
      var after := Reap(hit + Children(hit, 5), false);
      |after| >= 1 && !ShipAtFront(after) &&
      !IdsValid(ResetCollection(after, rand), 1 + STARTING_ASTEROIDS) &&
      forall i :: 0 <= i < |ResetCollection(after, rand)| ==> !ResetCollection(after, rand)[i].kind.Player?
  {
    var hit := ShipHitExample();
    ShipHitReap();
    var after := Reap(hit + Children(hit, 5), false);
    assert after[0] == hit[2];
    ResetIds(after, rand);
    var r := ResetCollection(after, rand);
    assert r[0] == Revive(hit[2]);
  }

  /**
   * The corrected reap spares the destroyed ship: if the ship is the first
   * element it stays first, the id invariant survives, and a later reset
   * revives the ship and restores the id invariant.
   */
  lemma ReapSparingShipKeepsReset(objs: seq<GameObject>, next: nat, rand: nat -> nat)
    requires ShipAtFront(objs) && objs[0].id == 0 && IdsValid(objs, next)
    ensures ShipAtFront(Reap(objs, true)) && Reap(objs, true)[0] == objs[0]
    ensures IdsValid(Reap(objs, true), next)
    ensures IdsValid(ResetCollection(Reap(objs, true), rand), 1 + STARTING_ASTEROIDS)
    ensures ResetCollection(Reap(objs, true), rand)[0] == objs[0].(destroyed := false)
  {
    ReapKeepsIds(objs, next, true);
    ReapAt(objs, true, 0);
    assert objs[..0] == [];
    ResetIds(Reap(objs, true), rand);
  }
}
