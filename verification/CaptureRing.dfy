/** The staging ring: eight textures reused in turn, and the registry of handles that resolve to them. */
module CaptureRing {
  import opened Common

  const STAGING_RING_SIZE: nat := 8
  const USIZE: nat := 0x1_0000_0000_0000_0000

  type Texture = nat

  /** The registry (handles in order, and what each resolves to), the texture pool, and the two counters. */
  datatype Ring = Ring(order: seq<nat>, slots: map<nat, Texture>, pool: seq<Texture>, cursor: nat, nextHandle: nat)

  predicate Distinct<T(==)>(s: seq<T>) {
    forall i, j | 0 <= i < j < |s| :: s[i] != s[j]
  }

  predicate ValidPool(pool: seq<Texture>) {
    |pool| == STAGING_RING_SIZE && Distinct(pool)
  }

  /** Drop the oldest handles until the registry fits. */
  function Evicted(order: seq<nat>, slots: map<nat, Texture>): (seq<nat>, map<nat, Texture>)
    decreases |order|
  {
    if |order| > STAGING_RING_SIZE then Evicted(order[1..], slots - {order[0]}) else (order, slots)
  }

  function Inserted(r: Ring, texture: Texture): Ring {
    var (order, slots) := Evicted(r.order + [r.nextHandle], r.slots[r.nextHandle := texture]);
    r.(order := order, slots := slots, nextHandle := r.nextHandle + 1)
  }

  /** A frame arrives: the next texture of the ring is filled and published. */
  function Frame(r: Ring): Ring
    requires r.pool != []
  {
    Inserted(r.(cursor := (r.cursor + 1) % USIZE), r.pool[r.cursor % |r.pool|])
  }

  function Released(r: Ring): Ring {
    r.(order := [], slots := map[])
  }

  /** The content size changed: with a new pool the registry is cleared, without one nothing changes. */
  function Resized(r: Ring, newPool: Option<seq<Texture>>): Ring {
    if newPool.Some? then Released(r.(pool := newPool.value)) else r
  }

  class CaptureSession {
    var order: seq<nat>
    var slots: map<nat, Texture>
    var pool: seq<Texture>
    var ringCursor: nat
    var nextHandle: nat

    function Abs(): Ring
      reads this
    {
      Ring(order, slots, pool, ringCursor, nextHandle)
    }

    ghost predicate Valid()
      reads this
    {
      Invariant(Abs())
    }

    constructor (pool: seq<Texture>, nextHandle: nat)
      requires ValidPool(pool)
      ensures Valid() && Abs() == Ring([], map[], pool, 0, nextHandle)
    {
      order, slots, this.pool, ringCursor, this.nextHandle := [], map[], pool, 0, nextHandle;
    }

    method InsertStaged(texture: Texture) returns (handle: nat)
      modifies this`order, this`slots, this`nextHandle
      ensures handle == old(nextHandle) && Abs() == Inserted(old(Abs()), texture)
    {
      handle := nextHandle;
      nextHandle := nextHandle + 1;
      slots := slots[handle := texture];
      order := order + [handle];
      ghost var o, m := order, slots;
      assert (o, m) == (old(order) + [old(nextHandle)], old(slots)[old(nextHandle) := texture]);
      while |order| > STAGING_RING_SIZE
        invariant Evicted(order, slots) == Evicted(o, m) && nextHandle == handle + 1
        decreases |order|
      {
        var oldest := order[0];
        order := order[1..];
        slots := slots - {oldest};
      }
      assert Evicted(order, slots) == (order, slots);
    }

    method ReleaseStaged()
      requires Valid()
      modifies this`order, this`slots
      ensures Valid() && Abs() == Released(old(Abs()))
    {
      order, slots := [], map[];
    }

    /** The copy step of the frame handler. */
    method CopyFrame() returns (handle: nat)
      requires Valid()
      modifies this`order, this`slots, this`ringCursor, this`nextHandle
      ensures Valid() && handle == old(nextHandle) && Abs() == Frame(old(Abs()))
    {
      ghost var before := Abs();
      assert pool != [];
      FrameKeepsInvariant(before);
      hide Invariant, Inserted, Evicted;
      var index := ringCursor % |pool|;
      assert Frame(before) == Inserted(before.(cursor := (ringCursor + 1) % USIZE), pool[index]);
      hide Frame;
      ringCursor := (ringCursor + 1) % USIZE;
      handle := InsertStaged(pool[index]);
    }

    /** The resize step of the frame handler; `newPool` is what the allocator returned. */
    method Resize(newPool: Option<seq<Texture>>)
      requires Valid() && (newPool.Some? ==> ValidPool(newPool.value))
      modifies this
      ensures Valid() && Abs() == Resized(old(Abs()), newPool)
    {
      if newPool.Some? {
        pool := newPool.value;
        order, slots := [], map[];
      }
    }

    /** What a handle resolves to. */
    method Resolve(handle: nat) returns (r: Option<Texture>)
      requires Valid()
      ensures r == if handle in slots then Some(slots[handle]) else None
    {
      if handle in slots { return Some(slots[handle]); }
      return None;
    }
  }

  // ---------------------------------------------------------------------------
  // What every session keeps.

  /** The place in the ring of the `i`-th oldest registered handle. */
  function RingIndex(r: Ring, i: nat): nat
    requires i < |r.order| <= STAGING_RING_SIZE
  {
    (r.cursor + STAGING_RING_SIZE - (|r.order| - i)) % STAGING_RING_SIZE
  }

  predicate Increasing(order: seq<nat>) {
    forall i, j | 0 <= i < j < |order| :: order[i] < order[j]
  }

  /** The registry resolves exactly the handles in order. */
  predicate SameHandles(r: Ring) {
    && (forall i | 0 <= i < |r.order| :: r.order[i] in r.slots)
    && (forall h | h in r.slots :: h in r.order)
  }

  /** The registered handles name consecutive textures of the ring. */
  predicate Placed(r: Ring) {
    && |r.order| <= STAGING_RING_SIZE == |r.pool|
    && forall i | 0 <= i < |r.order| :: r.order[i] in r.slots && r.slots[r.order[i]] == r.pool[RingIndex(r, i)]
  }

  predicate Invariant(r: Ring) {
    && ValidPool(r.pool)
    && r.cursor < USIZE
    && Increasing(r.order + [r.nextHandle])
    && SameHandles(r)
    && Placed(r)
  }

  /** How many of the oldest handles a frame evicts. */
  function Shift(r: Ring): nat {
    if |r.order| == STAGING_RING_SIZE then 1 else 0
  }

  lemma FrameShape(r: Ring)
    requires |r.order| <= STAGING_RING_SIZE == |r.pool|
    ensures var slots := r.slots[r.nextHandle := r.pool[r.cursor % STAGING_RING_SIZE]];
            Frame(r) == Ring(
              r.order[Shift(r)..] + [r.nextHandle],
              if Shift(r) == 0 then slots else slots - {r.order[0]},
              r.pool,
              (r.cursor + 1) % USIZE,
              r.nextHandle + 1)
  {
    var order := r.order + [r.nextHandle];
    var slots := r.slots[r.nextHandle := r.pool[r.cursor % STAGING_RING_SIZE]];
    if Shift(r) == 1 {
      assert order[1..] == r.order[1..] + [r.nextHandle];
      assert Evicted(order, slots) == Evicted(order[1..], slots - {order[0]});
    } else {
      assert r.order[0..] == r.order;
    }
  }

  lemma FrameIncreasing(r: Ring)
    requires Increasing(r.order + [r.nextHandle])
    ensures Increasing(r.order[Shift(r)..] + [r.nextHandle] + [r.nextHandle + 1])
  {
    var was, now := r.order + [r.nextHandle], r.order[Shift(r)..] + [r.nextHandle] + [r.nextHandle + 1];
    assert forall i | 0 <= i < |now| - 1 :: now[i] == was[i + Shift(r)];
    assert forall i | 0 <= i < |was| - 1 :: was[i] < was[|was| - 1];
  }

  lemma FrameSameHandles(r: Ring, t: Ring)
    requires SameHandles(r) && Increasing(r.order + [r.nextHandle])
    requires |r.order| <= STAGING_RING_SIZE == |r.pool| && t == Frame(r)
    ensures SameHandles(t)
  {
    FrameShape(r);
    var was := r.order + [r.nextHandle];
    assert forall i | 0 <= i < |t.order| :: t.order[i] == was[i + Shift(r)];
    forall i | 0 <= i < |t.order| ensures t.order[i] in t.slots {
      assert Shift(r) == 1 ==> was[0] < was[i + 1];
      assert i + Shift(r) < |r.order| ==> t.order[i] == r.order[i + Shift(r)];
    }
    forall h | h in t.slots ensures h in t.order {
      if h == r.nextHandle {
        assert t.order[|t.order| - 1] == h;
      } else {
        var k :| 0 <= k < |r.order| && r.order[k] == h;
        assert k >= Shift(r);
        assert t.order[k - Shift(r)] == h;
      }
    }
  }

  lemma FramePlaced(r: Ring, t: Ring)
    requires Placed(r) && Increasing(r.order + [r.nextHandle]) && r.cursor < USIZE && t == Frame(r)
    ensures Placed(t)
  {
    FrameShape(r);
    var was, shift := r.order + [r.nextHandle], Shift(r);
    forall i | 0 <= i < |t.order|
      ensures t.order[i] in t.slots && t.slots[t.order[i]] == t.pool[RingIndex(t, i)]
    {
      assert t.order[i] == was[i + shift];
      assert shift == 1 ==> was[0] < was[i + 1];
      NextIndex(r.cursor, |t.order| - i);
      if i + shift < |r.order| {
        assert was[i + shift] < was[|was| - 1];
        assert t.slots[t.order[i]] == r.slots[r.order[i + shift]];
        assert |r.order| - (i + shift) == |t.order| - i - 1;
      }
    }
  }

  lemma FrameKeepsInvariant(r: Ring)
    requires Invariant(r)
    ensures Invariant(Frame(r))
    ensures Frame(r).order == r.order[Shift(r)..] + [r.nextHandle]
  {
    hide ValidPool, Frame;
    assert |r.pool| == STAGING_RING_SIZE;
    FrameShape(r);
    FrameIncreasing(r);
    FrameSameHandles(r, Frame(r));
    FramePlaced(r, Frame(r));
    hide Increasing, SameHandles, Placed;
  }

  /**
   * Moving the cursor by one moves every age by one; the wrap of the counter does not show, because the
   * ring size divides it.
   */
  lemma NextIndex(cursor: nat, age: nat)
    requires cursor < USIZE && 1 <= age <= STAGING_RING_SIZE
    ensures ((cursor + 1) % USIZE + STAGING_RING_SIZE - age) % STAGING_RING_SIZE
            == (cursor + STAGING_RING_SIZE - (age - 1)) % STAGING_RING_SIZE
    ensures age == 1 ==> (cursor + STAGING_RING_SIZE - (age - 1)) % STAGING_RING_SIZE == cursor % STAGING_RING_SIZE
  {
    if cursor + 1 == USIZE {
      assert USIZE == 8 * 0x2000_0000_0000_0000;
    }
  }

  datatype Op = FrameOp | ResizeOp(newPool: Option<seq<Texture>>) | ReleaseOp | OtherSessionOp(handles: nat)

  predicate OpInRange(op: Op) {
    op.ResizeOp? && op.newPool.Some? ==> ValidPool(op.newPool.value)
  }

  function Step(r: Ring, op: Op): Ring
    requires r.pool != []
  {
    match op
    case FrameOp => Frame(r)
    case ResizeOp(newPool) => Resized(r, newPool)
    case ReleaseOp => Released(r)
    case OtherSessionOp(handles) => r.(nextHandle := r.nextHandle + handles)
  }

  /** The ring after a run, with the handles published since the registry was last cleared. */
  datatype Session = Session(ring: Ring, published: seq<nat>)

  lemma StepKeepsInvariant(r: Ring, op: Op)
    requires Invariant(r) && OpInRange(op)
    ensures Invariant(Step(r, op))
  {
    hide Frame, Increasing;
    match op
    case FrameOp => FrameKeepsInvariant(r);
    case OtherSessionOp(handles) => LargerLast(r.order, r.nextHandle, r.nextHandle + handles);
    case ReleaseOp => SingleIncreasing(r.nextHandle);
    case ResizeOp(_) => SingleIncreasing(r.nextHandle);
  }

  lemma LargerLast(order: seq<nat>, last: nat, larger: nat)
    requires Increasing(order + [last]) && last <= larger
    ensures Increasing(order + [larger]) && Increasing(order)
  {
    var was, now := order + [last], order + [larger];
    assert forall i | 0 <= i < |order| :: was[i] == now[i] == order[i] && was[i] < was[|was| - 1];
  }

  lemma SingleIncreasing(last: nat)
    ensures Increasing([] + [last])
  {
  }

  function Published(x: Session, op: Op): seq<nat> {
    match op
    case FrameOp => x.published + [x.ring.nextHandle]
    case ResizeOp(newPool) => if newPool.Some? then [] else x.published
    case ReleaseOp => []
    case OtherSessionOp(_) => x.published
  }

  function Run(pool: seq<Texture>, firstHandle: nat, ops: seq<Op>): (x: Session)
    requires ValidPool(pool) && forall op | op in ops :: OpInRange(op)
    ensures Invariant(x.ring)
    decreases |ops|
  {
    if ops == [] then Session(Ring([], map[], pool, 0, firstHandle), [])
    else
      assert ops[|ops| - 1] in ops;
      var x := Run(pool, firstHandle, ops[..|ops| - 1]);
      StepKeepsInvariant(x.ring, ops[|ops| - 1]);
      Session(Step(x.ring, ops[|ops| - 1]), Published(x, ops[|ops| - 1]))
  }

  /** The textures in use: those of the last resize that got a new pool. */
  function PoolAfter(pool: seq<Texture>, ops: seq<Op>): seq<Texture>
    decreases |ops|
  {
    if ops == [] then pool else
    var op := ops[|ops| - 1];
    if op.ResizeOp? && op.newPool.Some? then op.newPool.value else PoolAfter(pool, ops[..|ops| - 1])
  }

  /** The frames since the session began, by which the textures are taken in turn. */
  function FramesIn(ops: seq<Op>): nat {
    if ops == [] then 0 else FramesIn(ops[..|ops| - 1]) + if ops[|ops| - 1].FrameOp? then 1 else 0
  }

  lemma StepTakesTurns(r: Ring, op: Op)
    requires |r.order| <= STAGING_RING_SIZE == |r.pool|
    ensures Step(r, op).pool == if op.ResizeOp? && op.newPool.Some? then op.newPool.value else r.pool
    ensures Step(r, op).cursor == if op.FrameOp? then (r.cursor + 1) % USIZE else r.cursor
  {
    if op.FrameOp? { FrameShape(r); }
    hide Frame;
  }

  lemma {:induction false} PoolInUse(pool: seq<Texture>, firstHandle: nat, ops: seq<Op>)
    requires ValidPool(pool) && forall op | op in ops :: OpInRange(op)
    ensures Run(pool, firstHandle, ops).ring.pool == PoolAfter(pool, ops)
    ensures Run(pool, firstHandle, ops).ring.cursor == FramesIn(ops) % USIZE
    decreases |ops|
  {
    if ops != [] {
      PoolInUse(pool, firstHandle, ops[..|ops| - 1]);
      assert ops[|ops| - 1] in ops;
      var r := Run(pool, firstHandle, ops[..|ops| - 1]).ring;
      RingIsFull(r);
      hide Step, Invariant, ValidPool;
      StepTakesTurns(r, ops[|ops| - 1]);
      NextCount(FramesIn(ops[..|ops| - 1]));
    }
  }

  lemma RingIsFull(r: Ring)
    requires Invariant(r)
    ensures |r.order| <= STAGING_RING_SIZE == |r.pool| == 8
    ensures forall i | 0 <= i < |r.order| :: r.order[i] in r.slots && r.slots[r.order[i]] == r.pool[RingIndex(r, i)]
  {
  }

  /**
   * Over every run: the handle published last resolves to the texture whose turn it is, of the
   * textures in use, and each one before it to the texture before that in the ring.
   */
  lemma HandlesResolveInTurn(pool: seq<Texture>, firstHandle: nat, ops: seq<Op>, age: nat)
    requires ValidPool(pool) && forall op | op in ops :: OpInRange(op)
    requires 1 <= age <= |Run(pool, firstHandle, ops).ring.order|
    ensures ResolvesInTurn(Run(pool, firstHandle, ops).ring, PoolAfter(pool, ops), FramesIn(ops), age)
  {
    PoolInUse(pool, firstHandle, ops);
    var r := Run(pool, firstHandle, ops).ring;
    hide *;
    AgeResolves(r, FramesIn(ops), age);
  }

  /** The handle published `age` frames back resolves to the texture that was next then. */
  predicate ResolvesInTurn(r: Ring, textures: seq<Texture>, frames: nat, age: nat)
    requires 1 <= age <= |r.order|
  {
    var h := r.order[|r.order| - age];
    age <= 8 == |textures| && h in r.slots && r.slots[h] == textures[Turn(frames, age)]
  }

  lemma AgeResolves(r: Ring, frames: nat, age: nat)
    requires Invariant(r) && 1 <= age <= |r.order| && r.cursor == frames % USIZE
    ensures ResolvesInTurn(r, r.pool, frames, age)
  {
    hide *;
    RingIsFull(r);
    TurnIsIndex(r, age);
    TurnOf(frames, age);
    TurnResolves(r, frames, age);
  }

  lemma TurnIsIndex(r: Ring, age: nat)
    requires 1 <= age <= |r.order| <= STAGING_RING_SIZE
    ensures RingIndex(r, |r.order| - age) == Turn(r.cursor, age)
  {
  }

  lemma TurnResolves(r: Ring, frames: nat, age: nat)
    requires 1 <= age <= |r.order| <= 8 == |r.pool| && RingIndex(r, |r.order| - age) == Turn(frames, age)
    requires forall i | 0 <= i < |r.order| :: r.order[i] in r.slots && r.slots[r.order[i]] == r.pool[RingIndex(r, i)]
    ensures ResolvesInTurn(r, r.pool, frames, age)
  {
    hide Turn, RingIndex;
  }

  /** The texture filled by the frame that is `age` frames back. */
  function Turn(frames: nat, age: nat): (t: nat)
    requires age <= 8
    ensures t < 8
  {
    (frames + 8 - age) % 8
  }

  lemma NextCount(frames: nat)
    ensures (frames % USIZE + 1) % USIZE == (frames + 1) % USIZE
  {
  }

  /** The wrap of the counter does not show. */
  lemma TurnOf(frames: nat, age: nat)
    requires age <= 8
    ensures Turn(frames % USIZE, age) == Turn(frames, age)
  {
    var wraps := frames / USIZE;
    assert frames == wraps * USIZE + frames % USIZE;
    assert frames + 8 - age == 8 * (wraps * 0x2000_0000_0000_0000) + (frames % USIZE + 8 - age);
    SameRemainder(wraps * 0x2000_0000_0000_0000, frames % USIZE + 8 - age);
  }

  lemma SameRemainder(k: nat, x: nat)
    ensures (8 * k + x) % 8 == x % 8
  {
  }

  /**
   * Over every run of frames, resizes and releases: the resolvable handles are exactly the last
   * eight published since the registry was cleared, and no two of them name one texture.
   */
  lemma ResolvableHandles(pool: seq<Texture>, firstHandle: nat, ops: seq<Op>)
    requires ValidPool(pool) && forall op | op in ops :: OpInRange(op)
    ensures var x := Run(pool, firstHandle, ops);
            && x.ring.order == LastOf(x.published, 8)
            && x.ring.slots.Keys == (set i | 0 <= i < |x.ring.order| :: x.ring.order[i])
            && |x.ring.slots| == |x.ring.order| <= 8
            && forall h, k | h in x.ring.slots && k in x.ring.slots && h != k :: x.ring.slots[h] != x.ring.slots[k]
  {
    hide Run, Increasing, SameHandles;
    var r := Run(pool, firstHandle, ops).ring;
    OrderIsLastPublished(pool, firstHandle, ops);
    HandlesAreOrder(r);
    forall h, k | h in r.slots && k in r.slots && h != k ensures r.slots[h] != r.slots[k] {
      TexturesDistinct(r, h, k);
    }
  }

  lemma {:induction false} OrderIsLastPublished(pool: seq<Texture>, firstHandle: nat, ops: seq<Op>)
    requires ValidPool(pool) && forall op | op in ops :: OpInRange(op)
    ensures Run(pool, firstHandle, ops).ring.order == LastOf(Run(pool, firstHandle, ops).published, STAGING_RING_SIZE)
    decreases |ops|
  {
    hide Increasing, SameHandles, Placed, Frame, ValidPool;
    if ops != [] {
      OrderIsLastPublished(pool, firstHandle, ops[..|ops| - 1]);
      assert ops[|ops| - 1] in ops;
      var w := Run(pool, firstHandle, ops[..|ops| - 1]);
      FrameKeepsInvariant(w.ring);
      assert |w.ring.order| <= STAGING_RING_SIZE;
    }
  }

  lemma HandlesAreOrder(r: Ring)
    requires Invariant(r)
    ensures r.slots.Keys == (set i | 0 <= i < |r.order| :: r.order[i])
    ensures |r.slots| == |r.order| <= STAGING_RING_SIZE
  {
    hide Placed;
    assert |r.order| <= STAGING_RING_SIZE by { PlacedFits(r); }
    assert r.slots.Keys == set i | 0 <= i < |r.order| :: r.order[i];
    LargerLast(r.order, r.nextHandle, r.nextHandle);
    IncreasingSize(r.order);
  }

  lemma PlacedFits(r: Ring)
    requires Placed(r)
    ensures |r.order| <= STAGING_RING_SIZE
  {
  }

  lemma TexturesDistinct(r: Ring, h: nat, k: nat)
    requires Invariant(r) && h in r.slots && k in r.slots && h != k
    ensures r.slots[h] != r.slots[k]
  {
    var i :| 0 <= i < |r.order| && r.order[i] == h;
    var j :| 0 <= j < |r.order| && r.order[j] == k;
    IndicesDiffer(r, i, j);
  }

  lemma IndicesDiffer(r: Ring, i: nat, j: nat)
    requires i < |r.order| <= STAGING_RING_SIZE && j < |r.order| && i != j
    ensures RingIndex(r, i) != RingIndex(r, j)
  {
  }

  lemma {:induction false} IncreasingSize(s: seq<nat>)
    requires Increasing(s)
    ensures |set i | 0 <= i < |s| :: s[i]| == |s|
  {
    if s != [] {
      var front := s[..|s| - 1];
      IncreasingSize(front);
      assert (set i | 0 <= i < |s| :: s[i]) == (set i | 0 <= i < |front| :: front[i]) + {s[|s| - 1]};
    }
  }
}
